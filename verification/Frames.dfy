/** What an update leaves alone: the walks of other addresses, exactly on any tables, and a tree shape. */
module Frames {
  import opened Words
  import opened Radix
  import opened Paging
  import opened Walk
  import opened Stores
  import opened Unrolled
  import opened Edits
  import opened PteEdits
  import opened Tree

  /** On tree-shaped tables no walk reads a slot twice. */
  lemma {:induction false} WalkSlotsAreDistinct(m: Memory, d: Definition, root: nat, addr: nat)
    requires d.Consistent() && TreeShaped(m, d, root)
    ensures DistinctSlots(Walked(m, d, root, addr)) && DistinctSlots(Trace(m, d, root, addr))
    ensures PteApart(m, d, root, addr)
  {
    hide Trace, Walked, Definition.Consistent, TreeShaped;
    var t := Walked(m, d, root, addr);
    forall i, j | 0 <= i < j < |t| ensures t[i].slot != t[j].slot {
      if t[i].slot == t[j].slot {
        SameSlotMeans(m, d, root, addr, i, addr, j);
      }
    }
    WalkedLength(m, d, root, addr);
  }

  // ---- walks of other addresses, on any tables ----

  /** An address is walked the same way in two memories exactly when they hold the same words along its walk. */
  lemma {:induction false} SameWalkIffSameWords(m: Memory, m': Memory, d: Definition, root: nat, addr: nat)
    ensures Walked(m', d, root, addr) == Walked(m, d, root, addr)
            <==> forall j :: 0 <= j < |Walked(m, d, root, addr)| ==>
                   m'[Walked(m, d, root, addr)[j].slot] == m[Walked(m, d, root, addr)[j].slot]
  {
    hide Walked, Definition.Levels, TableAt, Slot, InRange;
    var u := Walked(m, d, root, addr);
    forall j | 0 <= j < |u| ensures u[j].word == m[u[j].slot] {
      WalkedStep(m, d, root, addr, j);
    }
    if forall j :: 0 <= j < |u| ==> m'[u[j].slot] == m[u[j].slot] {
      SameWordsSameWalk(m, m', d, root, addr);
    }
    if Walked(m', d, root, addr) == u {
      forall j | 0 <= j < |u| ensures m'[u[j].slot] == u[j].word {
        WalkedStep(m', d, root, addr, j);
      }
    }
  }

  /**
   * At every slot of a walk that an update writes, the level nearest the root writes the word that is there already.
   */
  ghost predicate RewritesSame(m: Memory, t: seq<Step>, vm: Entry, sel: set<Level>, u: seq<Step>) {
    forall j :: 0 <= j < |u| ==> RewritesSameAt(m, t, vm, sel, u[j].slot)
  }

  ghost predicate RewritesSameAt(m: Memory, t: seq<Step>, vm: Entry, sel: set<Level>, x: nat) {
    forall k: nat :: First(t, sel, x, k) ==> vm.At(t[k].level) == m[x]
  }

  /** On any tables, an update of `a` leaves the walk of `b` alone exactly when it rewrites the words of b's walk. */
  lemma {:induction false} UpdateFramesExactly(m: Memory, d: Definition, root: nat, a: nat, b: nat, vm: Entry)
    ensures Walked(Updated(m, d, root, a, vm), d, root, b) == Walked(m, d, root, b)
            <==> RewritesSame(m, Trace(m, d, root, a), vm, Chosen(d, vm.valid), Walked(m, d, root, b))
  {
    hide Trace, Walked, StoreUp, Chosen, RewritesSameAt;
    var t, u, sel := Trace(m, d, root, a), Walked(m, d, root, b), Chosen(d, vm.valid);
    SameWalkIffSameWords(m, Updated(m, d, root, a, vm), d, root, b);
    forall j | 0 <= j < |u|
      ensures Updated(m, d, root, a, vm)[u[j].slot] == m[u[j].slot] <==> RewritesSameAt(m, t, vm, sel, u[j].slot)
    {
      WrittenWord(m, t, vm, sel, u[j].slot);
    }
  }

  lemma {:induction false} WrittenWord(m: Memory, t: seq<Step>, vm: Entry, sel: set<Level>, x: nat)
    ensures StoreUp(m, t, vm, sel)[x] == m[x] <==> RewritesSameAt(m, t, vm, sel, x)
  {
    hide StoreUp, Entry.At;
    StoreUpAt(m, t, vm, sel, x);
    if !Untouched(t, sel, x) {
      FirstAndLastExist(t, sel, x);
    }
  }

  /**
   * On any tables, a PTE edit of `a` leaves the walk of `b` alone exactly when it does not change the PTE or the PTE is
   * no entry of b's walk.
   */
  lemma {:induction false} PteEditFramesExactly(m: Memory, d: Definition, root: nat, a: nat, b: nat, edit: Edit)
    requires PTE in Resolve(m, d, root, a).valid
    ensures var e, u := Resolve(m, d, root, a), Walked(m, d, root, b);
            Walked(PteEdited(m, d, root, a, edit), d, root, b) == u
            <==> edit.Apply(d.arch, e.pte) == e.pte || forall j :: 0 <= j < |u| ==> u[j].slot != PteSlot(m, d, root, a)
  {
    hide Resolve, Walked, PteEdited, Edit.Apply, PteSlot;
    var e, u := Resolve(m, d, root, a), Walked(m, d, root, b);
    PteEditedIsOneStore(m, d, root, a, edit);
    SameWalkIffSameWords(m, PteEdited(m, d, root, a, edit), d, root, b);
    PteSlotHoldsPte(m, d, root, a);
  }

  /** A memory that holds the same words along a walk is walked the same way. */
  lemma {:induction false} SameWordsSameWalk(m: Memory, m': Memory, d: Definition, root: nat, addr: nat)
    requires forall j :: 0 <= j < |Walked(m, d, root, addr)| ==>
        m'[Walked(m, d, root, addr)[j].slot] == Walked(m, d, root, addr)[j].word
    ensures Walked(m', d, root, addr) == Walked(m, d, root, addr)
    ensures Resolve(m', d, root, addr) == Resolve(m, d, root, addr)
  {
    hide Walked, Alike, EntryOf, Definition.Levels;
    var u := Walked(m, d, root, addr);
    forall j | 0 <= j < |u| ensures Alike(d, u[j].level, u[j].word, m'[u[j].slot]) {
      AlikeReflexive(d, u[j].level, u[j].word);
    }
    TraceReread(m, m', d, root, addr);
    assert Reread(u, m') == u;
    SameWalkSameEntry(m, m', d, root, addr);
  }

  lemma {:induction false} SameWalkSameEntry(m: Memory, m': Memory, d: Definition, root: nat, addr: nat)
    requires Walked(m', d, root, addr) == Walked(m, d, root, addr)
    ensures Trace(m', d, root, addr) == Trace(m, d, root, addr)
    ensures Resolve(m', d, root, addr) == Resolve(m, d, root, addr)
  {
    hide Steps, Present, EntryOf, Definition.Levels;
  }

  // ---- resolved entries of other addresses, on any tables ----

  lemma {:induction false} SameValidSameLength(d: Definition, t: seq<Step>, u: seq<Step>)
    requires OnLevels(t, d) && OnLevels(u, d) && LevelsOf(t) <= LevelsOf(u)
    ensures |t| <= |u|
  {
    hide Definition.Levels;
    LevelsAreDistinct(d);
    if t != [] {
      var last := t[|t| - 1].level;
      assert last in LevelsOf(t);
      var k :| 0 <= k < |u| && u[k].level == last;
      assert k == |t| - 1;
    }
  }

  /** A resolved entry determines the walk that it shows. */
  lemma {:induction false} SameEntrySameTrace(m: Memory, m': Memory, d: Definition, root: nat, addr: nat)
    requires Resolve(m', d, root, addr) == Resolve(m, d, root, addr)
    ensures Trace(m', d, root, addr) == Trace(m, d, root, addr)
  {
    hide Trace, EntryOf, LevelsOf, Definition.Levels, SlotFrom, Entry.At, Present, IsWalk;
    var t, u := Trace(m, d, root, addr), Trace(m', d, root, addr);
    TraceIsWalk(m, d, root, addr);
    TraceIsWalk(m', d, root, addr);
    EntryValid(d, t);
    EntryValid(d, u);
    SameValidSameLength(d, t, u);
    SameValidSameLength(d, u, t);
    ResolveShowsMemory(m, d, root, addr);
    ResolveShowsMemory(m', d, root, addr);
    forall k | 0 <= k < |t| ensures t[k] == u[k] {
      assert t[k].level == u[k].level;
      SlotsRecomputed(m, d, root, addr, k);
      SlotsRecomputed(m', d, root, addr, k);
    }
  }

  /** The slot of the PGD entry that an address is resolved through. */
  function PgdSlot(d: Definition, root: nat, addr: nat): nat {
    Slot(RootBase(root), d.Index(addr, PGD))
  }

  /**
   * An address resolves to the same entry in two memories exactly when they hold the same words along its walk, or it
   * resolves to nothing and its PGD entry stays not present.
   */
  lemma {:induction false} SameEntryIffSameWords(m: Memory, m': Memory, d: Definition, root: nat, addr: nat)
    ensures var u := Walked(m, d, root, addr);
            Resolve(m', d, root, addr) == Resolve(m, d, root, addr)
            <==> (forall j :: 0 <= j < |u| ==> m'[u[j].slot] == m[u[j].slot])
                 || (Trace(m, d, root, addr) == [] && !Present(d.arch, m'[PgdSlot(d, root, addr)]))
  {
    hide Walked, Trace, EntryOf, Present, Slot, Definition.Levels, IsWalk;
    SameWalkIffSameWords(m, m', d, root, addr);
    TraceIsWalk(m, d, root, addr);
    TraceIsWalk(m', d, root, addr);
    if RootBase(root) == 0 {
      NoRoot(m, d, root, addr);
    }
    if Walked(m', d, root, addr) == Walked(m, d, root, addr) {
      SameWalkSameEntry(m, m', d, root, addr);
    }
    if Resolve(m', d, root, addr) == Resolve(m, d, root, addr) {
      SameEntrySameTrace(m, m', d, root, addr);
      TraceIsWalked(m, d, root, addr);
      TraceIsWalked(m', d, root, addr);
    }
  }

  lemma {:induction false} NoRoot(m: Memory, d: Definition, root: nat, addr: nat)
    requires RootBase(root) == 0
    ensures Walked(m, d, root, addr) == []
  {
  }

  /** The PGD entry that an update of `a` leaves for `b` is not present. */
  ghost predicate LeavesAbsent(d: Definition, root: nat, t: seq<Step>, vm: Entry, sel: set<Level>, b: nat) {
    forall k: nat :: First(t, sel, PgdSlot(d, root, b), k) ==> !Present(d.arch, vm.At(t[k].level))
  }

  /**
   * On any tables, an update of `a` leaves what `b` resolves to alone exactly when it rewrites the words of b's walk,
   * or `b` resolves to nothing and the PGD entry stored for it, if any, is not present.
   */
  lemma {:induction false} UpdateKeepsEntryExactly(m: Memory, d: Definition, root: nat, a: nat, b: nat, vm: Entry)
    ensures var t, sel := Trace(m, d, root, a), Chosen(d, vm.valid);
            Resolve(Updated(m, d, root, a, vm), d, root, b) == Resolve(m, d, root, b)
            <==> RewritesSame(m, t, vm, sel, Walked(m, d, root, b))
                 || (Trace(m, d, root, b) == [] && LeavesAbsent(d, root, t, vm, sel, b))
  {
    hide Trace, Walked, StoreUp, Chosen, Resolve, RewritesSame, PgdSlot, Present;
    var t, sel, m' := Trace(m, d, root, a), Chosen(d, vm.valid), Updated(m, d, root, a, vm);
    SameEntryIffSameWords(m, m', d, root, b);
    UpdateFramesExactly(m, d, root, a, b, vm);
    SameWalkIffSameWords(m, m', d, root, b);
    if Trace(m, d, root, b) == [] && RootBase(root) != 0 {
      AbsentWord(m, d, root, t, vm, sel, b);
    } else if RootBase(root) == 0 {
      NoRoot(m, d, root, b);
    }
  }

  lemma {:induction false} AbsentWord(m: Memory, d: Definition, root: nat, t: seq<Step>, vm: Entry, sel: set<Level>,
      b: nat)
    requires Trace(m, d, root, b) == [] && RootBase(root) != 0
    ensures !Present(d.arch, StoreUp(m, t, vm, sel)[PgdSlot(d, root, b)]) <==> LeavesAbsent(d, root, t, vm, sel, b)
  {
    hide StoreUp, Trace, Present, Slot, Entry.At;
    var x := PgdSlot(d, root, b);
    TraceIsWalk(m, d, root, b);
    StoreUpAt(m, t, vm, sel, x);
    if !Untouched(t, sel, x) {
      FirstAndLastExist(t, sel, x);
    }
  }

  /**
   * On any tables, a PTE edit of `a` leaves what `b` resolves to alone exactly when it does not change the PTE, or the
   * PTE is no entry of b's walk, or `b` resolves to nothing and the edited PTE, its PGD entry, is still not present.
   */
  lemma {:induction false} PteEditKeepsEntryExactly(m: Memory, d: Definition, root: nat, a: nat, b: nat, edit: Edit)
    requires PTE in Resolve(m, d, root, a).valid
    ensures var e, u := Resolve(m, d, root, a), Walked(m, d, root, b);
            Resolve(PteEdited(m, d, root, a, edit), d, root, b) == Resolve(m, d, root, b)
            <==> edit.Apply(d.arch, e.pte) == e.pte
                 || (forall j :: 0 <= j < |u| ==> u[j].slot != PteSlot(m, d, root, a))
                 || (Trace(m, d, root, b) == [] && !Present(d.arch, edit.Apply(d.arch, e.pte)))
  {
    hide Resolve, Walked, Trace, PteEdited, Edit.Apply, PteSlot, Present, Slot, IsWalk;
    var e, m' := Resolve(m, d, root, a), PteEdited(m, d, root, a, edit);
    PteEditedIsOneStore(m, d, root, a, edit);
    PteSlotHoldsPte(m, d, root, a);
    SameEntryIffSameWords(m, m', d, root, b);
    TraceIsWalk(m, d, root, b);
    if Trace(m, d, root, b) == [] {
      OnlyPgdRead(m, d, root, b);
    }
  }

  lemma {:induction false} OnlyPgdRead(m: Memory, d: Definition, root: nat, addr: nat)
    requires Trace(m, d, root, addr) == []
    ensures var u := Walked(m, d, root, addr);
            if RootBase(root) == 0 then u == []
            else u == [Step(PGD, PgdSlot(d, root, addr), m[PgdSlot(d, root, addr)])]
  {
    hide Slot, Present, Frame;
  }

  // ---- walks of other addresses, on tree-shaped tables ----

  /** The levels an update of `a` stores are at place `h` of its walk or further from the root. */
  ghost predicate StoresFrom(m: Memory, d: Definition, root: nat, a: nat, vm: Entry, h: nat) {
    forall k :: 0 <= k < |Trace(m, d, root, a)| && Trace(m, d, root, a)[k].level in Chosen(d, vm.valid) ==> h <= k
  }

  lemma {:induction false} WritesNoSlotOf(m: Memory, d: Definition, root: nat, a: nat, b: nat, vm: Entry, h: nat,
      j: nat, k: nat)
    requires d.Consistent() && TreeShaped(m, d, root) && StoresFrom(m, d, root, a, vm, h)
    requires h < |d.Indices(a)| && d.Indices(a)[..h + 1] != d.Indices(b)[..h + 1]
    requires j < |Walked(m, d, root, b)|
    ensures !Writes(Trace(m, d, root, a), Chosen(d, vm.valid), Walked(m, d, root, b)[j].slot, k)
  {
    hide Trace, Walked, Definition.Consistent, Definition.Indices, TreeShaped;
    WalkedLength(m, d, root, a);
    if Writes(Trace(m, d, root, a), Chosen(d, vm.valid), Walked(m, d, root, b)[j].slot, k) {
      SameSlotMeans(m, d, root, a, k, b, j);
    }
  }

  /**
   * On tree-shaped tables an update of `a` does not disturb an address whose indices differ from a's at the highest
   * stored level or at any level nearer the root.
   */
  lemma {:induction false} UpdateFrames(m: Memory, d: Definition, root: nat, a: nat, b: nat, vm: Entry, h: nat)
    requires d.Consistent() && TreeShaped(m, d, root) && StoresFrom(m, d, root, a, vm, h)
    requires h < |d.Indices(a)| && d.Indices(a)[..h + 1] != d.Indices(b)[..h + 1]
    ensures var m' := Updated(m, d, root, a, vm);
            && Walked(m', d, root, b) == Walked(m, d, root, b)
            && Resolve(m', d, root, b) == Resolve(m, d, root, b)
  {
    hide Trace, Walked, Definition.Consistent, Definition.Indices, TreeShaped, StoresFrom, Updated, Resolve, Entry.At;
    var t, u, sel := Trace(m, d, root, a), Walked(m, d, root, b), Chosen(d, vm.valid);
    forall j: nat, k: nat | j < |u| ensures !First(t, sel, u[j].slot, k) {
      WritesNoSlotOf(m, d, root, a, b, vm, h, j, k);
    }
    UpdateFramesExactly(m, d, root, a, b, vm);
    SameWalkSameEntry(m, Updated(m, d, root, a, vm), d, root, b);
  }

  /** On tree-shaped tables no other page is walked through the PTE of `a`. */
  lemma {:induction false} PteIsOfOnePage(m: Memory, d: Definition, root: nat, a: nat, b: nat, j: nat)
    requires d.Consistent() && TreeShaped(m, d, root)
    requires PTE in Resolve(m, d, root, a).valid && d.Page(a) != d.Page(b) && j < |Walked(m, d, root, b)|
    ensures Walked(m, d, root, b)[j].slot != PteSlot(m, d, root, a)
  {
    hide Trace, Walked, Resolve, Definition.Consistent, Definition.Indices, Definition.Page, Definition.Levels,
        TreeShaped;
    WalkedIndicesNamePages(d, a, b);
    WalkedLength(m, d, root, a);
    WalkedLength(m, d, root, b);
    PteIsRead(m, d, root, a);
    LevelsAreDistinct(d);
    var n: nat := |d.Levels()| - 1;
    assert d.Indices(a)[..n + 1] == d.Indices(a) && d.Indices(b)[..n + 1] == d.Indices(b);
    if Walked(m, d, root, b)[j].slot == PteSlot(m, d, root, a) {
      SameSlotMeans(m, d, root, a, n, b, j);
    }
  }

  /** So a PTE edit leaves the walk of every address on another page alone. */
  lemma {:induction false} PteEditFrames(m: Memory, d: Definition, root: nat, a: nat, b: nat, edit: Edit)
    requires d.Consistent() && TreeShaped(m, d, root)
    requires d.Page(a) != d.Page(b)
    ensures var m' := PteEdited(m, d, root, a, edit);
            && Walked(m', d, root, b) == Walked(m, d, root, b)
            && Resolve(m', d, root, b) == Resolve(m, d, root, b)
  {
    hide Walked, Resolve, Definition.Consistent, Definition.Page, TreeShaped, Updated, Edit.Apply, PteEdited, PteSlot;
    PteEditedIsOneStore(m, d, root, a, edit);
    if PTE in Resolve(m, d, root, a).valid {
      forall j | 0 <= j < |Walked(m, d, root, b)| ensures Walked(m, d, root, b)[j].slot != PteSlot(m, d, root, a) {
        PteIsOfOnePage(m, d, root, a, b, j);
      }
      PteEditFramesExactly(m, d, root, a, b, edit);
    }
    SameWalkSameEntry(m, PteEdited(m, d, root, a, edit), d, root, b);
  }

  /**
   * On tree-shaped tables the remapped page shares the other one: `b` still translates as before, and every byte of a's
   * page to the same physical address.
   */
  lemma {:induction false} RemapSharesPage(m: Memory, d: Definition, root: nat, a: nat, b: nat, x: nat, y: nat)
    requires d.Consistent() && TreeShaped(m, d, root)
    requires PTE in Resolve(m, d, root, a).valid && PTE in Resolve(m, d, root, b).valid
    requires d.Page(x) == d.Page(a) && d.Page(y) == d.Page(b)
    ensures var m' := Remapped(m, d, root, a, b);
            && (x % 4096 == y % 4096 ==>
                Translate(m', d, root, x) == Translate(m', d, root, y) == Translate(m, d, root, y))
            && (x % d.PageBytes() == y % d.PageBytes() ==>
                  Physical(m', d, root, x) == Physical(m', d, root, y) == Physical(m, d, root, y))
  {
    hide Resolve, PfnBase, GetPfn, TreeShaped, PteApart, PteEdited, Definition.Page, Definition.PageBytes,
        Definition.Consistent;
    var edit := SettingPfn(GetPfn(d.arch, Resolve(m, d, root, b).pte));
    WalkSlotsAreDistinct(m, d, root, a);
    RemapTranslates(m, d, root, a, b, x, y);
    if d.Page(a) == d.Page(b) {
      RemapTranslates(m, d, root, a, b, y, y);
    } else {
      PteEditFrames(m, d, root, a, y, edit);
    }
  }

  // ---- the tree shape is kept ----

  /** The other memory differs, in the tables above the PTEs, only where the walk does not look. */
  ghost predicate TablesLookAlike(m: Memory, m': Memory, d: Definition, root: nat) {
    forall p: seq<nat>, i: nat :: Reached(m, d, root, p) && AbovePte(d, p, i) ==>
      Alike(d, d.Levels()[|p|], m[EntryAt(m, d, root, p, i)], m'[EntryAt(m, d, root, p, i)])
  }

  /** Entry `i` of the table of `p` lies above the PTEs. */
  predicate AbovePte(d: Definition, p: seq<nat>, i: nat) {
    |p| + 1 < |d.Levels()| && i < Pow2(d.Bits(d.Levels()[|p|]))
  }

  function EntryAt(m: Memory, d: Definition, root: nat, p: seq<nat>, i: nat): nat
    requires Reached(m, d, root, p)
  {
    Slot(TableAt(m, d, root, p).value, i)
  }

  lemma {:induction false} SameTables(m: Memory, m': Memory, d: Definition, root: nat, p: seq<nat>)
    requires TablesLookAlike(m, m', d, root) && |p| < |d.Levels()| && InRange(d, p)
    ensures TableAt(m', d, root, p) == TableAt(m, d, root, p)
    decreases |p|
  {
    hide Slot, Definition.Levels, Definition.Bits, Frame, Leads, Alike;
    if p != [] {
      var n := |p| - 1;
      SameTables(m, m', d, root, p[..n]);
      if Reached(m, d, root, p[..n]) {
        assert AbovePte(d, p[..n], p[n]);
        var x := EntryAt(m, d, root, p[..n], p[n]);
        AlikeLeads(d, n, m[x], m'[x]);
      }
    }
  }

  lemma {:induction false} LookAlikeKeepsTree(m: Memory, m': Memory, d: Definition, root: nat)
    requires TreeShaped(m, d, root) && TablesLookAlike(m, m', d, root)
    ensures TreeShaped(m', d, root)
  {
    hide Definition.Levels, InRange, TableAt, TablesLookAlike, Aligned;
    forall p: seq<nat> | Reached(m', d, root, p)
        ensures Reached(m, d, root, p) && TableAt(m', d, root, p) == TableAt(m, d, root, p) {
      SameTables(m, m', d, root, p);
    }
  }

  lemma {:induction false} PteIsInNoTableAbove(m: Memory, d: Definition, root: nat, a: nat, p: seq<nat>, i: nat)
    requires d.Consistent() && TreeShaped(m, d, root)
    requires PTE in Resolve(m, d, root, a).valid
    requires Reached(m, d, root, p) && AbovePte(d, p, i)
    ensures EntryAt(m, d, root, p, i) != PteSlot(m, d, root, a)
  {
    hide Trace, Slot, Walked, Resolve, Definition.Consistent, Definition.Levels, TableAt, InRange, Pow2, Aligned,
        Definition.Bits;
    var q, t := d.Indices(a), Trace(m, d, root, a);
    PteIsRead(m, d, root, a);
    WalkedLength(m, d, root, a);
    LevelsAreDistinct(d);
    var n: nat := |t| - 1;
    WalkedStep(m, d, root, a, n);
    EntryInRange(d, a, n);
    if EntryAt(m, d, root, p, i) == PteSlot(m, d, root, a) {
      SlotIsInjective(d, TableAt(m, d, root, p).value, i, d.Levels()[|p|], TableAt(m, d, root, q[..n]).value, q[n],
          d.Levels()[n]);
    }
  }

  /** Storing any word in a PTE leaves the tables tree-shaped, with the same table at every index prefix. */
  lemma {:induction false} PteStoreKeepsTree(m: Memory, d: Definition, root: nat, a: nat, w: Word)
    requires d.Consistent() && TreeShaped(m, d, root)
    requires PTE in Resolve(m, d, root, a).valid
    ensures var m' := Put(m, PteSlot(m, d, root, a), w);
            && TreeShaped(m', d, root)
            && forall p :: |p| < |d.Levels()| && InRange(d, p) ==> TableAt(m', d, root, p) == TableAt(m, d, root, p)
  {
    hide Trace, Slot, Resolve, Definition.Consistent, Definition.Levels, TreeShaped, TableAt, InRange, Pow2,
        Definition.Bits, Alike, Reached, EntryAt, PteSlot;
    var m' := Put(m, PteSlot(m, d, root, a), w);
    forall p: seq<nat>, i: nat | Reached(m, d, root, p) && AbovePte(d, p, i)
      ensures Alike(d, d.Levels()[|p|], m[EntryAt(m, d, root, p, i)], m'[EntryAt(m, d, root, p, i)])
    {
      PteIsInNoTableAbove(m, d, root, a, p, i);
      AlikeReflexive(d, d.Levels()[|p|], m[EntryAt(m, d, root, p, i)]);
    }
    LookAlikeKeepsTree(m, m', d, root);
    forall p: seq<nat> | |p| < |d.Levels()| && InRange(d, p) ensures TableAt(m', d, root, p) == TableAt(m, d, root, p) {
      SameTables(m, m', d, root, p);
    }
  }

  /** A multi-level edit of a bit the walk does not look at keeps the tree shape too. */
  lemma {:induction false} BitEditKeepsTree(m: Memory, d: Definition, root: nat, a: nat, levels: set<Level>,
      bit: BitNumber, on: bool)
    requires d.Consistent() && TreeShaped(m, d, root) && SafeBit(d, Resolve(m, d, root, a), levels, bit, on)
    ensures TreeShaped(LevelsEdited(m, d, root, a, levels, BitEdit(bit, on)), d, root)
  {
    hide Trace, Slot, Resolve, Definition.Consistent, Definition.Levels, TreeShaped, TableAt, InRange, Pow2,
        Definition.Bits, Alike, Reached, EntryAt, LevelsEdited, SafeBit;
    var m' := LevelsEdited(m, d, root, a, levels, BitEdit(bit, on));
    forall p: seq<nat>, i: nat | Reached(m, d, root, p) && AbovePte(d, p, i)
      ensures Alike(d, d.Levels()[|p|], m[EntryAt(m, d, root, p, i)], m'[EntryAt(m, d, root, p, i)])
    {
      BitEditLooksAlike(m, d, root, a, levels, bit, on, p, i);
    }
    LookAlikeKeepsTree(m, m', d, root);
  }

  lemma {:induction false} BitEditLooksAlike(m: Memory, d: Definition, root: nat, a: nat, levels: set<Level>,
      bit: BitNumber, on: bool, p: seq<nat>, i: nat)
    requires d.Consistent() && TreeShaped(m, d, root) && SafeBit(d, Resolve(m, d, root, a), levels, bit, on)
    requires Reached(m, d, root, p) && AbovePte(d, p, i)
    ensures var x := EntryAt(m, d, root, p, i);
            Alike(d, d.Levels()[|p|], m[x], LevelsEdited(m, d, root, a, levels, BitEdit(bit, on))[x])
  {
    hide Trace, Slot, Resolve, Definition.Consistent, Definition.Levels, TreeShaped, TableAt, InRange, Pow2,
        Definition.Bits, Alike, Reached, EntryAt, LevelsEdited, Walked, SetBit, ClearBit, Entry.At;
    var x, t, e := EntryAt(m, d, root, p, i), Trace(m, d, root, a), Resolve(m, d, root, a);
    WalkSlotsAreDistinct(m, d, root, a);
    AlikeReflexive(d, d.Levels()[|p|], m[x]);
    if k :| 0 <= k < |t| && t[k].slot == x {
      LevelsEditedAt(m, d, root, a, levels, BitEdit(bit, on), k);
      ResolveShowsMemory(m, d, root, a);
      SlotNamesLevel(m, d, root, a, k, p, i);
    } else {
      LevelsEditedElsewhere(m, d, root, a, levels, BitEdit(bit, on), x);
    }
  }

  /** On tree-shaped tables an entry that a walk reads has the level of its table. */
  lemma {:induction false} SlotNamesLevel(m: Memory, d: Definition, root: nat, a: nat, k: nat, p: seq<nat>, i: nat)
    requires d.Consistent() && TreeShaped(m, d, root) && Reached(m, d, root, p) && AbovePte(d, p, i)
    requires k < |Trace(m, d, root, a)| && Trace(m, d, root, a)[k].slot == EntryAt(m, d, root, p, i)
    ensures Trace(m, d, root, a)[k].level == d.Levels()[|p|]
  {
    hide Trace, Slot, Walked, Definition.Consistent, Definition.Levels, TableAt, InRange, Pow2, Aligned,
        Definition.Bits, Low;
    var q := d.Indices(a);
    WalkedLength(m, d, root, a);
    WalkedStep(m, d, root, a, k);
    EntryInRange(d, a, k);
    SlotIsInjective(d, TableAt(m, d, root, p).value, i, d.Levels()[|p|], TableAt(m, d, root, q[..k]).value, q[k],
        d.Levels()[k]);
    assert |q[..k]| == k;
  }
}
