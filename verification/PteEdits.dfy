/** Edits of one PTE: what they store, remapping a page, and the second route through a mapped page table. */
module PteEdits {
  import opened Words
  import opened Paging
  import opened Walk
  import opened Stores
  import opened Unrolled

  /** The slot of an address's PTE, the last one its walk reads. */
  function PteSlot(m: Memory, d: Definition, root: nat, addr: nat): nat
    requires PTE in Resolve(m, d, root, addr).valid
  {
    PteIsRead(m, d, root, addr);
    var t := Trace(m, d, root, addr);
    t[|t| - 1].slot
  }

  lemma {:induction false} PteIsRead(m: Memory, d: Definition, root: nat, addr: nat)
    ensures var t, e := Trace(m, d, root, addr), Resolve(m, d, root, addr);
            && (PTE in e.valid <==> |t| == |d.Levels()|)
            && (PTE in e.valid ==> t != [] && t[|t| - 1].level == PTE && e.pte == t[|t| - 1].word == m[t[|t| - 1].slot])
            && (forall k :: 0 <= k < |t| - 1 ==> t[k].level != PTE)
  {
    hide Slot, Frame, Present, Definition.Levels, EntryOf, Steps;
    var t := Trace(m, d, root, addr);
    TraceIsWalk(m, d, root, addr);
    LevelsAreDistinct(d);
    PteIsLast(d, t);
    ResolveShowsMemory(m, d, root, addr);
    forall k | 0 <= k < |t| - 1 ensures t[k].level != PTE {
      assert t[k].level == d.Levels()[k];
    }
  }

  lemma {:induction false} PteSlotHoldsPte(m: Memory, d: Definition, root: nat, addr: nat)
    requires PTE in Resolve(m, d, root, addr).valid
    ensures m[PteSlot(m, d, root, addr)] == Resolve(m, d, root, addr).pte
  {
    hide Trace, EntryOf, Definition.Levels;
    PteIsRead(m, d, root, addr);
  }

  /** A PTE edit is one store of the edited word, in any memory and whatever slots coincide. */
  lemma {:induction false} PteEditedIsOneStore(m: Memory, d: Definition, root: nat, addr: nat, edit: Edit)
    ensures var e := Resolve(m, d, root, addr);
            PteEdited(m, d, root, addr, edit) ==
            if PTE in e.valid then Put(m, PteSlot(m, d, root, addr), edit.Apply(d.arch, e.pte)) else m
  {
    hide Trace, EntryOf, Edit.Apply, Definition.Levels;
    var e := Resolve(m, d, root, addr);
    if PTE in e.valid {
      OneStore(m, d, root, addr, e.(pte := edit.Apply(d.arch, e.pte), valid := {PTE}));
    }
  }

  /** An update that selects only the PTE. */
  lemma {:induction false} OneStore(m: Memory, d: Definition, root: nat, addr: nat, vm: Entry)
    requires PTE in Resolve(m, d, root, addr).valid && vm.valid == {PTE}
    ensures Updated(m, d, root, addr, vm) == Put(m, PteSlot(m, d, root, addr), vm.pte)
  {
    hide Trace, Resolve, StoreUp, Definition.Levels;
    var t, sel := Trace(m, d, root, addr), Chosen(d, vm.valid);
    PteIsRead(m, d, root, addr);
    var n: nat := |t| - 1;
    var m' := StoreUp(m, t, vm, sel);
    forall x: nat ensures m'[x] == Put(m, t[n].slot, vm.pte)[x] {
      StoreUpAt(m, t, vm, sel, x);
      if x == t[n].slot {
        assert First(t, sel, x, n);
      } else {
        assert Untouched(t, sel, x);
      }
    }
    assert m' == Put(m, t[n].slot, vm.pte);
  }

  /** The PTE of an address does not lie in one of the tables above it. */
  ghost predicate PteApart(m: Memory, d: Definition, root: nat, addr: nat) {
    var t := Trace(m, d, root, addr);
    forall k :: 0 <= k < |t| - 1 ==> t[k].slot != t[|t| - 1].slot
  }

  lemma {:induction false} TraceAfterPteStore(m: Memory, d: Definition, root: nat, addr: nat, w: Word)
    requires PTE in Resolve(m, d, root, addr).valid && PteApart(m, d, root, addr)
    ensures var t := Trace(m, d, root, addr);
            && t != [] && |t| == |d.Levels()| && OnLevels(t, d)
            && Trace(Put(m, t[|t| - 1].slot, w), d, root, addr) == t[|t| - 1 := t[|t| - 1].(word := w)]
  {
    hide Trace, Walked, IsWalk, Present, Definition.Levels, Alike, Resolve, Slot;
    var t := Trace(m, d, root, addr);
    PteIsRead(m, d, root, addr);
    TraceIsWalk(m, d, root, addr);
    TraceIsWalked(m, d, root, addr);
    ResolveShowsMemory(m, d, root, addr);
    var m' := Put(m, t[|t| - 1].slot, w);
    forall k | 0 <= k < |t| ensures Alike(d, t[k].level, t[k].word, m'[t[k].slot]) {
      AlikeReflexive(d, t[k].level, t[k].word);
      PteAlike(d, t[k].word, w);
    }
    TraceReread(m, m', d, root, addr);
    assert Reread(t, m') == t[|t| - 1 := t[|t| - 1].(word := w)];
  }

  lemma {:induction false} PteAlike(d: Definition, v: Word, w: Word)
    ensures Alike(d, PTE, v, w)
  {
  }

  /** After a store to its own PTE, an address walks through the same slots and finds the stored word. */
  lemma {:induction false} ResolveAfterPteStore(m: Memory, d: Definition, root: nat, addr: nat, w: Word)
    requires PTE in Resolve(m, d, root, addr).valid && PteApart(m, d, root, addr)
    ensures var m' := Put(m, PteSlot(m, d, root, addr), w);
            && Resolve(m', d, root, addr) == Resolve(m, d, root, addr).(pte := w)
            && PTE in Resolve(m', d, root, addr).valid && PteSlot(m', d, root, addr) == PteSlot(m, d, root, addr)
  {
    hide Definition.Levels, Trace, EntryOf, Put;
    TraceAfterPteStore(m, d, root, addr, w);
    var t := Trace(m, d, root, addr);
    EntryWithLastWord(d, t, t[|t| - 1 := t[|t| - 1].(word := w)], w);
  }

  /** After one bit of a PTE is set or cleared, it reads back so, and nothing else of the resolved entry changes. */
  lemma {:induction false} PteBitReadsBack(m: Memory, d: Definition, root: nat, addr: nat, bit: BitNumber, on: bool,
      c: BitNumber)
    requires PTE in Resolve(m, d, root, addr).valid && PteApart(m, d, root, addr)
    ensures var e := Resolve(m, d, root, addr);
            var edit := if on then SettingBit(bit) else ClearingBit(bit);
            var e' := Resolve(PteEdited(m, d, root, addr, edit), d, root, addr);
            && (HasBit(e'.pte, c) <==> if c == bit then on else HasBit(e.pte, c))
            && e' == e.(pte := e'.pte)
  {
    hide Resolve, PteEdited, PteApart, PteSlot, SetBit, ClearBit, HasBit, Put;
    var e, edit := Resolve(m, d, root, addr), if on then SettingBit(bit) else ClearingBit(bit);
    PteEditedIsOneStore(m, d, root, addr, edit);
    ResolveAfterPteStore(m, d, root, addr, edit.Apply(d.arch, e.pte));
    EditsOneBit(e.pte, bit, c);
  }

  /** Two traces that differ in the word of the PTE resolve to entries that differ in the PTE. */
  lemma {:induction false} EntryWithLastWord(d: Definition, t: seq<Step>, u: seq<Step>, w: Word)
    requires OnLevels(t, d) && t != [] && |u| == |t| == |d.Levels()|
    requires forall k :: 0 <= k < |t| - 1 ==> u[k] == t[k]
    requires u[|t| - 1] == t[|t| - 1].(word := w)
    ensures EntryOf(d, u) == EntryOf(d, t).(pte := w)
  {
    hide Definition.Levels, Present;
    LevelsAreDistinct(d);
    var n := |t| - 1;
    assert t == t[..n] + [t[n]] && u == t[..n] + [u[n]];
    forall l ensures WordAt(u, l) == if l == PTE then w else WordAt(t, l) {
      assert PTE !in LevelsOf(t[..n]);
      WordAtSnoc(t[..n], t[n], l);
      WordAtSnoc(t[..n], u[n], l);
    }
    assert LevelsOf(u) == LevelsOf(t) by {
      assert LevelsOf(u) == LevelsOf(t[..n]) + {PTE};
      assert LevelsOf(t) == LevelsOf(t[..n]) + {PTE};
    }
  }

  // ---- translation and remapping ----

  /** The 4 KB branch of virt2phys: the frame of the resolved PTE and the offset of the address. */
  function Translate(m: Memory, d: Definition, root: nat, addr: nat): nat {
    PfnBase(d.arch, Resolve(m, d, root, addr).pte) + addr % 4096
  }

  /** The translation of the hardware, whose page offset has the width of the paging definition. */
  function Physical(m: Memory, d: Definition, root: nat, addr: nat): nat {
    PfnBase(d.arch, Resolve(m, d, root, addr).pte) + addr % d.PageBytes()
  }

  /** A 4 KB translation has the PTE's frame number above the offset of the address. */
  lemma {:induction false} TranslationIsExact(m: Memory, d: Definition, root: nat, addr: nat)
    ensures var p := Translate(m, d, root, addr);
            p % 4096 == addr % 4096 && p / 4096 == PfnNumber(d.arch, Resolve(m, d, root, addr).pte)
  {
    hide Resolve, PfnNumber;
  }

  /** The bytes of a page are translated in place, from the first byte of the frame on. */
  lemma {:induction false} PhysicalIsExact(m: Memory, d: Definition, root: nat, x: nat, y: nat)
    requires d.Page(x) == d.Page(y)
    ensures Physical(m, d, root, x) - Physical(m, d, root, y) == x % d.PageBytes() - y % d.PageBytes()
    ensures x % d.PageBytes() == 0 ==>
              Physical(m, d, root, x) == PfnNumber(d.arch, Resolve(m, d, root, x).pte) * 4096
  {
    hide Resolve, PfnNumber, Definition.Page, Definition.PageBytes;
    SamePageSameWalk(m, d, root, x, y);
  }

  /** Memory after `ptedit_pte_set_pfn(a, ptedit_pte_get_pfn(b))`. */
  function Remapped(m: Memory, d: Definition, root: nat, a: nat, b: nat): Memory {
    PteEdited(m, d, root, a, SettingPfn(GetPfn(d.arch, Resolve(m, d, root, b).pte)))
  }

  /**
   * After the frame number read from `b` is set at `a`, every byte of a's page translates to the physical address of
   * the same byte of b's page, as b translated before the edit: in the 4 KB branch and in the hardware.
   */
  lemma {:induction false} RemapTranslates(m: Memory, d: Definition, root: nat, a: nat, b: nat, x: nat, y: nat)
    requires PTE in Resolve(m, d, root, a).valid && PTE in Resolve(m, d, root, b).valid && PteApart(m, d, root, a)
    requires d.Page(x) == d.Page(a) && d.Page(y) == d.Page(b)
    ensures var m' := Remapped(m, d, root, a, b);
            && (x % 4096 == y % 4096 ==> Translate(m', d, root, x) == Translate(m, d, root, y))
            && (x % d.PageBytes() == y % d.PageBytes() ==> Physical(m', d, root, x) == Physical(m, d, root, y))
  {
    hide Resolve, PfnBase, Remapped, PteApart, Definition.Page, Definition.PageBytes;
    RemapSetsFrame(m, d, root, a, b, x, y);
  }

  lemma {:induction false} RemapSetsFrame(m: Memory, d: Definition, root: nat, a: nat, b: nat, x: nat, y: nat)
    requires PTE in Resolve(m, d, root, a).valid && PTE in Resolve(m, d, root, b).valid && PteApart(m, d, root, a)
    requires d.Page(x) == d.Page(a) && d.Page(y) == d.Page(b)
    ensures PfnBase(d.arch, Resolve(Remapped(m, d, root, a, b), d, root, x).pte)
        == PfnBase(d.arch, Resolve(m, d, root, y).pte)
  {
    hide Resolve, PteEdited, SetPfn, GetPfn, PfnBase, Definition.Page, PteSlot, Put, PteApart, PfnLimit;
    var w := Resolve(m, d, root, a).pte;
    var pfn := GetPfn(d.arch, Resolve(m, d, root, b).pte);
    var m' := PteEdited(m, d, root, a, SettingPfn(pfn));
    PteEditedIsOneStore(m, d, root, a, SettingPfn(pfn));
    ResolveAfterPteStore(m, d, root, a, SetPfn(d.arch, w, pfn));
    SamePageSameWalk(m', d, root, x, a);
    SamePageSameWalk(m, d, root, y, b);
    GetPfnIsBelowLimit(d.arch, Resolve(m, d, root, b).pte);
    SetPfnReadsBack(d.arch, w, pfn);
    SamePfnSameBase(d.arch, SetPfn(d.arch, w, pfn), Resolve(m, d, root, b).pte);
  }

  lemma {:induction false} SamePfnSameBase(arch: Arch, v: Word, w: Word)
    requires GetPfn(arch, v) == GetPfn(arch, w)
    ensures PfnBase(arch, v) == PfnBase(arch, w)
  {
    hide GetPfn;
  }

  /** A walk depends on the page of an address only, not on its offset. */
  lemma {:induction false} SamePageSameWalk(m: Memory, d: Definition, root: nat, a: nat, b: nat)
    requires d.Page(a) == d.Page(b)
    ensures Walked(m, d, root, a) == Walked(m, d, root, b)
    ensures Trace(m, d, root, a) == Trace(m, d, root, b)
    ensures Resolve(m, d, root, a) == Resolve(m, d, root, b)
  {
    hide Slot, Frame, Present, Definition.Levels, Definition.Index, EntryOf;
    SamePageSameIndices(d, a, b);
    SameIndicesSameSteps(m, d, a, b, RootBase(root), d.Levels());
  }

  lemma {:induction false} SamePageSameIndices(d: Definition, a: nat, b: nat)
    requires d.Page(a) == d.Page(b)
    ensures forall l :: d.Index(a, l) == d.Index(b, l)
  {
    hide Definition.Index, Definition.Page;
    SameIndicesSamePage(d, a, b);
    forall l: Level ensures d.Index(a, l) == d.Index(b, l) {
      var k := match l case PGD => 0 case P4D => 1 case PUD => 2 case PMD => 3 case PTE => 4;
      assert d.Index(a, l) == d.FiveIndices(a)[k] && d.Index(b, l) == d.FiveIndices(b)[k];
    }
  }

  lemma {:induction false} SameIndicesSameSteps(m: Memory, d: Definition, a: nat, b: nat, base: nat, levels: seq<Level>)
    requires forall l :: d.Index(a, l) == d.Index(b, l)
    ensures Steps(m, d, a, base, levels) == Steps(m, d, b, base, levels)
    decreases |levels|
  {
    hide Slot, Frame, Leads, Definition.Index;
    if levels != [] {
      SameIndicesSameSteps(m, d, a, b, Frame(d.arch, m[Slot(base, d.Index(a, levels[0]))]), levels[1..]);
    }
  }

  /** Setting the original number back restores all of memory exactly when the first number did not spill. */
  lemma {:induction false} RemapRestores(m: Memory, d: Definition, root: nat, a: nat, pfn: Word)
    requires PTE in Resolve(m, d, root, a).valid && PteApart(m, d, root, a)
    ensures var w := Resolve(m, d, root, a).pte;
            var m1 := PteEdited(m, d, root, a, SettingPfn(pfn));
            PteEdited(m1, d, root, a, SettingPfn(GetPfn(d.arch, w))) == m <==> !Spills(d.arch, w, pfn)
  {
    hide Resolve, PteEdited, SetPfn, GetPfn, Spills, PteApart;
    var w := Resolve(m, d, root, a).pte;
    var m1 := PteEdited(m, d, root, a, SettingPfn(pfn));
    var s := PteSlot(m, d, root, a);
    PteEditedIsOneStore(m, d, root, a, SettingPfn(pfn));
    ResolveAfterPteStore(m, d, root, a, SetPfn(d.arch, w, pfn));
    PteEditedIsOneStore(m1, d, root, a, SettingPfn(GetPfn(d.arch, w)));
    var v := SetPfn(d.arch, SetPfn(d.arch, w, pfn), GetPfn(d.arch, w));
    PteIsRead(m, d, root, a);
    SetPfnRestores(d.arch, w, pfn);
    assert Put(Put(m, s, SetPfn(d.arch, w, pfn)), s, v) == Put(m, s, v);
    if v == m[s] {
      assert Put(m, s, v) == m;
    } else {
      assert Put(m, s, v)[s] != m[s];
    }
  }
}
