/** Tree-shaped page tables: distinct index prefixes lead to distinct, aligned tables. */
module Tree {
  import opened Words
  import opened Radix
  import opened Paging
  import opened Walk
  import opened Wrappers

  /** The table an index prefix leads to from the root, if every entry on the way leads on. */
  function TableAt(m: Memory, d: Definition, root: nat, path: seq<nat>): Option<nat> {
    if path == [] then Some(RootBase(root)) else
      var n := |path| - 1;
      match TableAt(m, d, root, path[..n])
      case None => None
      case Some(base) =>
        var w := m[Slot(base, path[n])];
        if n + 1 < |d.Levels()| && Leads(d.arch, w, d.Levels()[n + 1]) then Some(Frame(d.arch, w)) else None
  }

  /** Indices that fit the tables of their levels. */
  predicate InRange(d: Definition, path: seq<nat>) {
    |path| <= |d.Levels()| && forall k :: 0 <= k < |path| ==> path[k] < Pow2(d.Bits(d.Levels()[k]))
  }

  predicate Reached(m: Memory, d: Definition, root: nat, path: seq<nat>) {
    |path| < |d.Levels()| && InRange(d, path) && TableAt(m, d, root, path).Some?
  }

  /** Every reached table is aligned to its size, and no table is reached by two index prefixes. */
  ghost predicate TreeShaped(m: Memory, d: Definition, root: nat) {
    && (forall p :: Reached(m, d, root, p) ==> Aligned(d, TableAt(m, d, root, p).value))
    && (forall p, q ::
          Reached(m, d, root, p) && Reached(m, d, root, q) && TableAt(m, d, root, p) == TableAt(m, d, root, q) ==>
            p == q)
  }

  predicate Aligned(d: Definition, base: nat) {
    Low(base, d.pageOffset) == 0 && base < 0x1_0000_0000_0000_0000
  }

  // ---- slots of aligned tables ----

  lemma {:induction false} AlignedSlot(base: nat, idx: nat, size: nat, pages: nat)
    requires size > 0 && base % size == 0 && 8 * idx < size
    requires size * pages == 0x1_0000_0000_0000_0000 && base < size * pages
    ensures Slot(base, idx) == base + 8 * idx
  {
    DivModIdentity(base, size);
    BelowTop(base / size, size, pages, 8 * idx);
  }

  lemma {:induction false} BelowTop(k: nat, size: nat, pages: nat, offset: nat)
    requires k * size < size * pages && offset < size
    ensures k * size + offset < size * pages
  {
    if k >= pages {
      TimesGrows(k, pages, size);
    } else {
      TimesGrows(pages, k + 1, size);
    }
  }

  lemma {:induction false} Pow2Grows(a: nat, b: nat)
    requires a <= b
    ensures Pow2(a) <= Pow2(b)
  {
    Pow2Adds(a, b - a);
    TimesGrows(Pow2(b - a), 1, Pow2(a));
  }

  lemma {:induction false} IndexFits(d: Definition, idx: nat, l: Level)
    requires d.Consistent() && idx < Pow2(d.Bits(l))
    ensures 8 * idx < d.PageBytes()
  {
    hide Pow2;
    Powers();
    Pow2Adds(d.Bits(l), 3);
    Pow2Grows(d.Bits(l) + 3, d.pageOffset);
  }

  lemma {:induction false} PagesFillMemory(d: Definition) returns (pages: nat)
    requires d.Consistent()
    ensures d.PageBytes() * pages == 0x1_0000_0000_0000_0000
  {
    hide Pow2;
    Powers();
    Pow2Adds(d.pageOffset, 64 - d.pageOffset);
    pages := Pow2(64 - d.pageOffset);
  }

  lemma {:induction false} SameAlignedSlot(b1: nat, i1: nat, b2: nat, i2: nat, size: nat, pages: nat)
    requires size > 0 && b1 % size == 0 && b2 % size == 0 && 8 * i1 < size && 8 * i2 < size
    requires size * pages == 0x1_0000_0000_0000_0000 && b1 < size * pages && b2 < size * pages
    requires Slot(b1, i1) == Slot(b2, i2)
    ensures b1 == b2 && i1 == i2
  {
    hide Slot;
    AlignedSlot(b1, i1, size, pages);
    AlignedSlot(b2, i2, size, pages);
    DivModIdentity(b1, size);
    DivModIdentity(b2, size);
    QuotientIsUnique(size, b1 / size, 8 * i1, b2 / size, 8 * i2);
  }

  /** Two slots of aligned tables coincide only in the same entry of the same table. */
  lemma {:induction false} SlotIsInjective(d: Definition, b1: nat, i1: nat, l1: Level, b2: nat, i2: nat, l2: Level)
    requires d.Consistent() && Aligned(d, b1) && Aligned(d, b2)
    requires i1 < Pow2(d.Bits(l1)) && i2 < Pow2(d.Bits(l2))
    requires Slot(b1, i1) == Slot(b2, i2)
    ensures b1 == b2 && i1 == i2
  {
    hide Pow2, Definition.Consistent, Slot, Low, Drop;
    DropAndLow(b1, d.pageOffset);
    DropAndLow(b2, d.pageOffset);
    var pages := PagesFillMemory(d);
    IndexFits(d, i1, l1);
    IndexFits(d, i2, l2);
    SameAlignedSlot(b1, i1, b2, i2, d.PageBytes(), pages);
  }

  // ---- walks in terms of prefixes ----

  lemma {:induction false} IndicesInRange(d: Definition, addr: nat, k: nat)
    requires k <= |d.Levels()|
    ensures InRange(d, d.Indices(addr)[..k])
  {
    hide Definition.Levels, Definition.Bits, Drop;
  }

  /** Step `k` of a walk reads entry `k` of the indices in the table the first `k` indices lead to. */
  lemma {:induction false} WalkedStep(m: Memory, d: Definition, root: nat, addr: nat, k: nat)
    requires k < |Walked(m, d, root, addr)|
    ensures k < |d.Levels()| && Reached(m, d, root, d.Indices(addr)[..k])
    ensures Walked(m, d, root, addr)[k].level == d.Levels()[k]
    ensures Walked(m, d, root, addr)[k].slot
        == Slot(TableAt(m, d, root, d.Indices(addr)[..k]).value, d.Indices(addr)[k])
    ensures Walked(m, d, root, addr)[k].word == m[Walked(m, d, root, addr)[k].slot]
    decreases k
  {
    hide Slot, Frame, Leads, Steps, InRange, Definition.Levels;
    var t, path := Walked(m, d, root, addr), d.Indices(addr);
    StepsIsWalk(m, d, addr, RootBase(root), d.Levels());
    assert StepAt(t, k, m, d, addr, RootBase(root), d.Levels());
    IndicesInRange(d, addr, k);
    if k > 0 {
      WalkedStep(m, d, root, addr, k - 1);
      assert path[..k][..k - 1] == path[..k - 1];
    }
  }

  lemma {:induction false} SameSlotMeans(m: Memory, d: Definition, root: nat, a: nat, i: nat, b: nat, j: nat)
    requires d.Consistent() && TreeShaped(m, d, root)
    requires i < |Walked(m, d, root, a)| && j < |Walked(m, d, root, b)|
    requires Walked(m, d, root, a)[i].slot == Walked(m, d, root, b)[j].slot
    ensures i == j < |d.Indices(a)| == |d.Indices(b)| && d.Indices(a)[..i + 1] == d.Indices(b)[..j + 1]
  {
    hide Slot, Walked, TableAt, Definition.Levels, Definition.Consistent, Pow2, InRange, Aligned;
    var p, q := d.Indices(a), d.Indices(b);
    WalkedStep(m, d, root, a, i);
    WalkedStep(m, d, root, b, j);
    EntryInRange(d, a, i);
    EntryInRange(d, b, j);
    SlotIsInjective(d, TableAt(m, d, root, p[..i]).value, p[i], d.Levels()[i], TableAt(m, d, root, q[..j]).value, q[j],
        d.Levels()[j]);
    assert p[..i] == q[..j];
    assert |p[..i]| == i && |q[..j]| == j;
    assert p[..i + 1] == p[..i] + [p[i]] && q[..j + 1] == q[..j] + [q[j]];
  }

  lemma {:induction false} SamePrefixMeans(m: Memory, d: Definition, root: nat, a: nat, i: nat, b: nat)
    requires i < |Walked(m, d, root, a)| && i < |Walked(m, d, root, b)|
    requires i < |d.Indices(a)| && i < |d.Indices(b)| && d.Indices(a)[..i + 1] == d.Indices(b)[..i + 1]
    ensures Walked(m, d, root, a)[i].slot == Walked(m, d, root, b)[i].slot
  {
    hide Slot, Walked, TableAt, Definition.Levels, InRange;
    var p, q := d.Indices(a), d.Indices(b);
    WalkedStep(m, d, root, a, i);
    WalkedStep(m, d, root, b, i);
    assert p[..i] == p[..i + 1][..i] && q[..i] == q[..i + 1][..i];
    assert p[i] == p[..i + 1][i] && q[i] == q[..i + 1][i];
  }

  /** Two (address, level) pairs reach the same slot exactly when they share the level and the index prefix. */
  lemma {:induction false} SameSlotSamePrefix(m: Memory, d: Definition, root: nat, a: nat, i: nat, b: nat, j: nat)
    requires d.Consistent() && TreeShaped(m, d, root)
    requires i < |Walked(m, d, root, a)| && j < |Walked(m, d, root, b)|
    ensures |Walked(m, d, root, a)| <= |d.Indices(a)| && |Walked(m, d, root, b)| <= |d.Indices(b)|
    ensures Walked(m, d, root, a)[i].slot == Walked(m, d, root, b)[j].slot
            <==> (Walked(m, d, root, a)[i].level == Walked(m, d, root, b)[j].level
                  && d.Indices(a)[..i + 1] == d.Indices(b)[..j + 1])
  {
    hide Slot, Walked, TreeShaped, Definition.Levels, Definition.Consistent, Reached;
    WalkedLength(m, d, root, a);
    WalkedLength(m, d, root, b);
    WalkedStep(m, d, root, a, i);
    WalkedStep(m, d, root, b, j);
    LevelsAreDistinct(d);
    if Walked(m, d, root, a)[i].slot == Walked(m, d, root, b)[j].slot {
      SameSlotMeans(m, d, root, a, i, b, j);
    }
    if i == j && d.Indices(a)[..i + 1] == d.Indices(b)[..j + 1] {
      SamePrefixMeans(m, d, root, a, i, b);
    }
  }

  lemma {:induction false} EntryInRange(d: Definition, addr: nat, k: nat)
    requires k < |d.Levels()|
    ensures d.Indices(addr)[k] < Pow2(d.Bits(d.Levels()[k]))
  {
    hide Definition.Levels, Definition.Bits, Drop;
  }

  lemma {:induction false} WalkedLength(m: Memory, d: Definition, root: nat, addr: nat)
    ensures |Walked(m, d, root, addr)| <= |d.Levels()| == |d.Indices(addr)|
    ensures Trace(m, d, root, addr) == Walked(m, d, root, addr) || Trace(m, d, root, addr) == []
  {
    hide Definition.Levels;
  }
}
