/** What the edits promise: write-back, landing, multi-level bit edits, and PTE edits. */
module Edits {
  import opened Words
  import opened Paging
  import opened Walk
  import opened Stores
  import opened Unrolled

  // ---- updates ----

  /** Writing a resolved entry back, under any mask, leaves memory as it was, whichever slots coincide. */
  lemma {:induction false} WriteBackIsIdentity(m: Memory, d: Definition, root: nat, addr: nat, mask: set<Level>)
    ensures Updated(m, d, root, addr, Resolve(m, d, root, addr).(valid := mask)) == m
  {
    hide Slot, Frame, Present, EntryOf;
    var t := Trace(m, d, root, addr);
    TraceIsWalk(m, d, root, addr);
    EntryShowsSteps(d, t);
    var vm := EntryOf(d, t).(valid := mask);
    forall k | 0 <= k < |t| ensures vm.At(t[k].level) == m[t[k].slot] {
      assert StepAt(t, k, m, d, addr, RootBase(root), d.Levels());
      assert vm.At(t[k].level) == EntryOf(d, t).At(t[k].level);
    }
    StoringBackIsIdentity(m, t, vm, Chosen(d, mask));
  }

  /** The slot of a step is found through its parent's word in the same memory. */
  lemma {:induction false} SlotThroughParent(m: Memory, d: Definition, root: nat, addr: nat, k: nat)
    requires k < |Trace(m, d, root, addr)|
    ensures var t := Trace(m, d, root, addr);
            t[k].slot == Slot(if k == 0 then RootBase(root) else Frame(d.arch, m[t[k - 1].slot]),
                d.Index(addr, t[k].level))
  {
    hide Slot, Frame, Present, Trace, Resolve, Definition.Levels, RootBase;
    var t := Trace(m, d, root, addr);
    TraceIsWalk(m, d, root, addr);
    ResolveShowsMemory(m, d, root, addr);
    assert StepAt(t, k, m, d, addr, RootBase(root), d.Levels());
  }

  /**
   * An update of a walk with distinct slots leaves the caller's value at each selected level and changes no other word.
   * The slots are those of the memory before the update, found through the old parents also where the same update
   * replaces a parent.
   */
  lemma {:induction false} UpdatedLands(m: Memory, d: Definition, root: nat, addr: nat, vm: Entry, k: nat, x: nat)
    requires DistinctSlots(Trace(m, d, root, addr)) && k < |Trace(m, d, root, addr)|
    ensures var t, m' := Trace(m, d, root, addr), Updated(m, d, root, addr, vm);
            && t[k].slot == Slot(if k == 0 then RootBase(root) else Frame(d.arch, m[t[k - 1].slot]),
                d.Index(addr, t[k].level))
            && m'[t[k].slot] == (if t[k].level in vm.valid && (t[k].level == PGD ==> d.hasPgd)
                                 then vm.At(t[k].level) else m[t[k].slot])
            && ((forall j :: 0 <= j < |t| && t[j].level in vm.valid && (t[j].level == PGD ==> d.hasPgd) ==>
                   t[j].slot != x) ==> m'[x] == m[x])
  {
    ChosenExactly(d, vm.valid);
    hide Slot, Frame, StoreUp, Chosen, Entry.At, Trace, RootBase;
    SlotThroughParent(m, d, root, addr, k);
    UpdateLands(m, Trace(m, d, root, addr), vm, Chosen(d, vm.valid));
    var t := Trace(m, d, root, addr);
    assert forall j :: 0 <= j < |t| && j != k ==> t[j].slot != t[k].slot;
  }

  /** All selected levels are stored, the PGD only where the definition has one. */
  lemma {:induction false} ChosenExactly(d: Definition, valid: set<Level>)
    ensures forall l :: l in Chosen(d, valid) <==> l in valid && (l == PGD ==> d.hasPgd)
  {
  }

  /** The walk treats every stored level alike before and after the store. */
  ghost predicate KeepsShape(d: Definition, t: seq<Step>, vm: Entry, sel: set<Level>) {
    forall k :: 0 <= k < |t| && t[k].level in sel ==> Alike(d, t[k].level, t[k].word, vm.At(t[k].level))
  }

  /** After a shape-keeping update of a walk with distinct slots, the same slots are walked and hold the new words. */
  lemma {:induction false} TraceAfterUpdate(m: Memory, d: Definition, root: nat, addr: nat, vm: Entry)
    requires DistinctSlots(Trace(m, d, root, addr))
    requires KeepsShape(d, Trace(m, d, root, addr), vm, Chosen(d, vm.valid))
    ensures var t, u := Trace(m, d, root, addr), Trace(Updated(m, d, root, addr, vm), d, root, addr);
            && |u| == |t|
            && forall k :: 0 <= k < |t| ==>
                 u[k] == t[k].(word := if t[k].level in Chosen(d, vm.valid) then vm.At(t[k].level) else t[k].word)
  {
    hide Trace, Walked, Alike, Resolve, Chosen, StoreUp, Entry.At;
    var t, sel := Trace(m, d, root, addr), Chosen(d, vm.valid);
    var m' := Updated(m, d, root, addr, vm);
    ResolveShowsMemory(m, d, root, addr);
    TraceIsWalked(m, d, root, addr);
    UpdateLands(m, t, vm, sel);
    forall k | 0 <= k < |t|
      ensures m'[t[k].slot] == if t[k].level in sel then vm.At(t[k].level) else t[k].word
      ensures Alike(d, t[k].level, t[k].word, m'[t[k].slot])
    {
      AlikeReflexive(d, t[k].level, t[k].word);
    }
    if t == [] {
      NothingStored(m, d, root, addr, vm);
    } else {
      TraceReread(m, m', d, root, addr);
    }
  }

  lemma {:induction false} NothingStored(m: Memory, d: Definition, root: nat, addr: nat, vm: Entry)
    requires Trace(m, d, root, addr) == []
    ensures Updated(m, d, root, addr, vm) == m
  {
  }

  // ---- one bit at several levels ----

  function BitEdit(bit: BitNumber, on: bool): Edit {
    if on then SettingBit(bit) else ClearingBit(bit)
  }

  /** The walk treats every affected level alike before and after the edit; the PTE may change freely. */
  ghost predicate SafeBit(d: Definition, e: Entry, levels: set<Level>, bit: BitNumber, on: bool) {
    forall l :: Affects(d, e, levels, l) ==> Alike(d, l, e.At(l), WithBit(e.At(l), bit, on))
  }

  /** In particular a bit is safe that is none of the present and frame bits, nor the size bit of the last table. */
  lemma {:induction false} HarmlessBitIsSafe(d: Definition, e: Entry, levels: set<Level>, bit: BitNumber, on: bool)
    requires forall l :: Affects(d, e, levels, l) && l != PTE ==> Harmless(d.arch, l == d.LastTable(), bit)
    ensures SafeBit(d, e, levels, bit, on)
  {
    hide Harmless, WithBit, Entry.At, SameLead;
    forall l | Affects(d, e, levels, l) ensures Alike(d, l, e.At(l), WithBit(e.At(l), bit, on)) {
      if l != PTE {
        HarmlessEditsKeepShape(d.arch, l == d.LastTable(), e.At(l), bit, on);
        SameShapeAlike(d, l, e.At(l), WithBit(e.At(l), bit, on));
      }
    }
  }

  /** Memory after a multi-level edit: the edited word at each slot of the walk, and no other change. */
  lemma {:induction false} LevelsEditedAt(m: Memory, d: Definition, root: nat, addr: nat, levels: set<Level>,
      edit: Edit, k: nat)
    requires DistinctSlots(Trace(m, d, root, addr)) && k < |Trace(m, d, root, addr)|
    ensures var s, e := Trace(m, d, root, addr)[k], Resolve(m, d, root, addr);
            LevelsEdited(m, d, root, addr, levels, edit)[s.slot] == EditedAt(d, e, levels, edit, s.level)
  {
    hide Trace, Resolve, Edited, EditedAt, Entry.At, StoreUp;
    var t, e := Trace(m, d, root, addr), Resolve(m, d, root, addr);
    var vm := Edited(d, e, levels, edit);
    var sel := Chosen(d, vm.valid);
    ResolveShowsMemory(m, d, root, addr);
    EditedFields(d, e, levels, edit);
    EditedKeepsValid(d, e, levels, edit);
    UpdateLands(m, t, vm, sel);
    if t[k].level !in sel {
      assert forall j :: 0 <= j < |t| && t[j].level in sel ==> t[j].slot != t[k].slot;
      UnaffectedField(d, e, levels, edit, t[k].level);
    }
  }

  lemma {:induction false} UnaffectedField(d: Definition, e: Entry, levels: set<Level>, edit: Edit, l: Level)
    requires !Affects(d, e, levels, l)
    ensures EditedAt(d, e, levels, edit, l) == e.At(l)
  {
  }

  lemma {:induction false} LevelsEditedElsewhere(m: Memory, d: Definition, root: nat, addr: nat, levels: set<Level>,
      edit: Edit, x: nat)
    requires DistinctSlots(Trace(m, d, root, addr))
    requires forall k :: 0 <= k < |Trace(m, d, root, addr)| ==> Trace(m, d, root, addr)[k].slot != x
    ensures LevelsEdited(m, d, root, addr, levels, edit)[x] == m[x]
  {
    hide Trace, Resolve, Edited, StoreUp;
    var vm := Edited(d, Resolve(m, d, root, addr), levels, edit);
    UpdateLands(m, Trace(m, d, root, addr), vm, Chosen(d, vm.valid));
  }

  /**
   * A multi-level edit of a walk with distinct slots edits the words of exactly the levels asked for (of the PGD only
   * where the definition has one) and changes no other word.
   */
  lemma {:induction false} LevelsEditLands(m: Memory, d: Definition, root: nat, addr: nat, levels: set<Level>,
      edit: Edit, k: nat, x: nat)
    requires DistinctSlots(Trace(m, d, root, addr)) && k < |Trace(m, d, root, addr)|
    ensures var s, m' := Trace(m, d, root, addr)[k], LevelsEdited(m, d, root, addr, levels, edit);
            m'[s.slot] == if s.level in levels && (s.level == PGD ==> d.hasPgd) then edit.Apply(d.arch, m[s.slot])
                          else m[s.slot]
    ensures (forall j :: 0 <= j < |Trace(m, d, root, addr)| ==> Trace(m, d, root, addr)[j].slot != x) ==>
              LevelsEdited(m, d, root, addr, levels, edit)[x] == m[x]
  {
    hide Trace, Resolve, LevelsEdited, Edit.Apply, Entry.At, DistinctSlots, Definition.Has;
    ResolveShowsMemory(m, d, root, addr);
    LevelsEditedAt(m, d, root, addr, levels, edit, k);
    ValidLevelExists(m, d, root, addr, Trace(m, d, root, addr)[k].level);
    if forall j :: 0 <= j < |Trace(m, d, root, addr)| ==> Trace(m, d, root, addr)[j].slot != x {
      LevelsEditedElsewhere(m, d, root, addr, levels, edit, x);
    }
  }

  lemma {:induction false} BitEditKeepsShape(d: Definition, t: seq<Step>, e: Entry, levels: set<Level>, bit: BitNumber,
      on: bool)
    requires OnLevels(t, d) && e == EntryOf(d, t) && SafeBit(d, e, levels, bit, on)
    ensures KeepsShape(d, t, Edited(d, e, levels, BitEdit(bit, on)), Chosen(d, e.valid))
  {
    hide Alike, EntryOf, Edited, SetBit, ClearBit, Definition.Levels, Entry.At;
    EntryShowsSteps(d, t);
    var edit := BitEdit(bit, on);
    EditedFields(d, e, levels, edit);
    forall k | 0 <= k < |t|
      ensures Alike(d, t[k].level, t[k].word, Edited(d, e, levels, edit).At(t[k].level))
    {
      AlikeReflexive(d, t[k].level, t[k].word);
    }
  }

  /** The edited address walks through the same slots. */
  lemma {:induction false} BitEditTrace(m: Memory, d: Definition, root: nat, addr: nat, levels: set<Level>,
      bit: BitNumber, on: bool)
    requires DistinctSlots(Trace(m, d, root, addr))
    requires SafeBit(d, Resolve(m, d, root, addr), levels, bit, on)
    ensures var t, e := Trace(m, d, root, addr), Resolve(m, d, root, addr);
            var u := Trace(LevelsEdited(m, d, root, addr, levels, BitEdit(bit, on)), d, root, addr);
            && |u| == |t|
            && forall k :: 0 <= k < |t| ==> u[k] == t[k].(word := EditedAt(d, e, levels, BitEdit(bit, on), t[k].level))
  {
    hide Slot, Present, Frame, Definition.Levels, Trace, IsWalk, EntryOf, Edited, Edit.Apply, Entry.At, Updated,
        SafeBit, KeepsShape;
    var t, e, edit := Trace(m, d, root, addr), Resolve(m, d, root, addr), BitEdit(bit, on);
    var vm := Edited(d, e, levels, edit);
    assert vm.valid == e.valid by {
      EditedKeepsValid(d, e, levels, edit);
    }
    TraceIsWalk(m, d, root, addr);
    EntryShowsSteps(d, t);
    BitEditKeepsShape(d, t, e, levels, bit, on);
    TraceAfterUpdate(m, d, root, addr, vm);
    EditedFields(d, e, levels, edit);
  }

  lemma {:induction false} EditedKeepsValid(d: Definition, e: Entry, levels: set<Level>, edit: Edit)
    ensures Edited(d, e, levels, edit).valid == e.valid
  {
  }

  /** The condition is exact: an edit that is not safe sends the walk of the address through other slots. */
  lemma {:induction false} SafeBitIsExact(m: Memory, d: Definition, root: nat, addr: nat, levels: set<Level>,
      bit: BitNumber, on: bool)
    requires DistinctSlots(Trace(m, d, root, addr))
    ensures var m' := LevelsEdited(m, d, root, addr, levels, BitEdit(bit, on));
            SafeBit(d, Resolve(m, d, root, addr), levels, bit, on)
            <==> SlotsOf(Walked(m', d, root, addr)) == SlotsOf(Walked(m, d, root, addr))
                 && (Trace(m', d, root, addr) == [] <==> Trace(m, d, root, addr) == [])
  {
    hide Trace, Walked, Resolve, LevelsEdited, Alike, SetBit, ClearBit, Entry.At;
    var t, e, edit := Trace(m, d, root, addr), Resolve(m, d, root, addr), BitEdit(bit, on);
    var m' := LevelsEdited(m, d, root, addr, levels, edit);
    ResolveShowsMemory(m, d, root, addr);
    TraceIsWalked(m, d, root, addr);
    SameSlotsIffAlike(m, m', d, root, addr);
    if t == [] {
      NothingEditedHere(m, d, root, addr, levels, edit);
    } else {
      forall k | 0 <= k < |t|
        ensures Alike(d, t[k].level, t[k].word, m'[t[k].slot])
                <==> (Affects(d, e, levels, t[k].level) ==>
                    Alike(d, t[k].level, t[k].word, WithBit(t[k].word, bit, on)))
      {
        LevelsEditedAt(m, d, root, addr, levels, edit, k);
        AlikeReflexive(d, t[k].level, t[k].word);
      }
    }
  }

  lemma {:induction false} NothingEditedHere(m: Memory, d: Definition, root: nat, addr: nat, levels: set<Level>,
      edit: Edit)
    requires Trace(m, d, root, addr) == []
    ensures LevelsEdited(m, d, root, addr, levels, edit) == m
  {
    hide Trace, Edited;
    NothingStored(m, d, root, addr, Edited(d, Resolve(m, d, root, addr), levels, edit));
  }

  /** One bit of the word that a step finds after a multi-level bit edit. */
  lemma {:induction false} BitEditedStep(m: Memory, d: Definition, root: nat, addr: nat, levels: set<Level>,
      bit: BitNumber, on: bool, k: nat, c: BitNumber)
    requires DistinctSlots(Trace(m, d, root, addr)) && k < |Trace(m, d, root, addr)|
    requires SafeBit(d, Resolve(m, d, root, addr), levels, bit, on)
    ensures var e, l := Resolve(m, d, root, addr), Trace(m, d, root, addr)[k].level;
            var e' := Resolve(LevelsEdited(m, d, root, addr, levels, BitEdit(bit, on)), d, root, addr);
            && l in e'.valid
            && (HasBit(e'.At(l), c) <==>
                  if c == bit && l in levels && (l == PGD ==> d.hasPgd) then on else HasBit(e.At(l), c))
  {
    hide Trace, Resolve, LevelsEdited, Edited, SafeBit, SetBit, ClearBit, HasBit, Entry.At, Definition.Has;
    var t, e := Trace(m, d, root, addr), Resolve(m, d, root, addr);
    BitEditTrace(m, d, root, addr, levels, bit, on);
    ResolveShowsMemory(m, d, root, addr);
    ResolveShowsMemory(LevelsEdited(m, d, root, addr, levels, BitEdit(bit, on)), d, root, addr);
    ValidLevelExists(m, d, root, addr, t[k].level);
    EditsOneBit(e.At(t[k].level), bit, c);
  }

  /**
   * Resolving after a multi-level bit edit: the same levels are valid, the bit is set (or cleared) at exactly those of
   * them that were asked for, and no other bit of any valid level changes.
   */
  lemma {:induction false} BitEditResolves(m: Memory, d: Definition, root: nat, addr: nat, levels: set<Level>,
      bit: BitNumber, on: bool)
    requires DistinctSlots(Trace(m, d, root, addr))
    requires SafeBit(d, Resolve(m, d, root, addr), levels, bit, on)
    ensures var e := Resolve(m, d, root, addr);
            var e' := Resolve(LevelsEdited(m, d, root, addr, levels, BitEdit(bit, on)), d, root, addr);
            && e'.valid == e.valid
            && forall l, c: BitNumber :: l in e.valid ==>
                 (HasBit(e'.At(l), c) <==>
                    if c == bit && l in levels && (l == PGD ==> d.hasPgd) then on else HasBit(e.At(l), c))
  {
    hide Trace, Resolve, LevelsEdited, Edited, SafeBit, HasBit, Entry.At;
    var m' := LevelsEdited(m, d, root, addr, levels, BitEdit(bit, on));
    var t, u := Trace(m, d, root, addr), Trace(m', d, root, addr);
    var e, e' := Resolve(m, d, root, addr), Resolve(m', d, root, addr);
    BitEditTrace(m, d, root, addr, levels, bit, on);
    ResolveShowsMemory(m, d, root, addr);
    ResolveShowsMemory(m', d, root, addr);
    forall l ensures l in e'.valid <==> l in e.valid {
      if k :| 0 <= k < |t| && t[k].level == l {
        assert u[k].level == l;
      }
      if k :| 0 <= k < |u| && u[k].level == l {
        assert t[k].level == l;
      }
    }
    forall l, c: BitNumber | l in e.valid
      ensures HasBit(e'.At(l), c) <==>
                if c == bit && l in levels && (l == PGD ==> d.hasPgd) then on else HasBit(e.At(l), c)
    {
      var k :| 0 <= k < |t| && t[k].level == l;
      BitEditedStep(m, d, root, addr, levels, bit, on, k, c);
    }
  }

  /** The word at a slot of the walk after setting a bit at several levels and clearing it again. */
  lemma {:induction false} ClearAfterSetAt(m: Memory, d: Definition, root: nat, addr: nat, levels: set<Level>,
      bit: BitNumber, k: nat)
    requires DistinctSlots(Trace(m, d, root, addr)) && k < |Trace(m, d, root, addr)|
    requires SafeBit(d, Resolve(m, d, root, addr), levels, bit, true)
    ensures var s, e := Trace(m, d, root, addr)[k], Resolve(m, d, root, addr);
            var m2 := LevelsEdited(LevelsEdited(m, d, root, addr, levels, SettingBit(bit)), d, root, addr, levels,
                ClearingBit(bit));
            && (Affects(d, e, levels, s.level) ==> m2[s.slot] == ClearBit(SetBit(m[s.slot], bit), bit))
            && (!Affects(d, e, levels, s.level) ==> m2[s.slot] == m[s.slot])
  {
    hide Trace, Resolve, LevelsEdited, SafeBit, SetBit, ClearBit, HasBit, Entry.At;
    var e, m1 := Resolve(m, d, root, addr), LevelsEdited(m, d, root, addr, levels, SettingBit(bit));
    var t, u := Trace(m, d, root, addr), Trace(m1, d, root, addr);
    assert SettingBit(bit) == BitEdit(bit, true);
    BitEditTrace(m, d, root, addr, levels, bit, true);
    assert forall j :: 0 <= j < |t| ==> u[j].slot == t[j].slot && u[j].level == t[j].level;
    LevelsEditedAt(m, d, root, addr, levels, SettingBit(bit), k);
    LevelsEditedAt(m1, d, root, addr, levels, ClearingBit(bit), k);
    ResolveShowsMemory(m, d, root, addr);
    ResolveShowsMemory(m1, d, root, addr);
    assert u[k].level in Resolve(m1, d, root, addr).valid && t[k].level in e.valid;
  }

  lemma {:induction false} ClearAfterSetElsewhere(m: Memory, d: Definition, root: nat, addr: nat, levels: set<Level>,
      bit: BitNumber, x: nat)
    requires DistinctSlots(Trace(m, d, root, addr))
    requires SafeBit(d, Resolve(m, d, root, addr), levels, bit, true)
    requires forall k :: 0 <= k < |Trace(m, d, root, addr)| ==> Trace(m, d, root, addr)[k].slot != x
    ensures LevelsEdited(LevelsEdited(m, d, root, addr, levels, SettingBit(bit)), d, root, addr, levels,
        ClearingBit(bit))[x] == m[x]
  {
    hide Trace, Resolve, LevelsEdited, SafeBit;
    var m1 := LevelsEdited(m, d, root, addr, levels, SettingBit(bit));
    assert SettingBit(bit) == BitEdit(bit, true);
    BitEditTrace(m, d, root, addr, levels, bit, true);
    var t, u := Trace(m, d, root, addr), Trace(m1, d, root, addr);
    assert forall j :: 0 <= j < |t| ==> u[j].slot == t[j].slot;
    LevelsEditedElsewhere(m, d, root, addr, levels, SettingBit(bit), x);
    LevelsEditedElsewhere(m1, d, root, addr, levels, ClearingBit(bit), x);
  }

  /** Clearing after setting restores all of memory exactly when the bit was clear at every valid level asked for. */
  lemma {:induction false} ClearUndoesSet(m: Memory, d: Definition, root: nat, addr: nat, levels: set<Level>,
      bit: BitNumber)
    requires DistinctSlots(Trace(m, d, root, addr))
    requires SafeBit(d, Resolve(m, d, root, addr), levels, bit, true)
    ensures var e, m1 := Resolve(m, d, root, addr), LevelsEdited(m, d, root, addr, levels, SettingBit(bit));
            LevelsEdited(m1, d, root, addr, levels, ClearingBit(bit)) == m
            <==> forall l :: l in e.valid && l in levels && (l == PGD ==> d.hasPgd) ==> !HasBit(e.At(l), bit)
  {
    hide Trace, Resolve, LevelsEdited, SafeBit, SetBit, ClearBit, HasBit, Entry.At, Definition.Has;
    forall l | l in Resolve(m, d, root, addr).valid
      ensures Affects(d, Resolve(m, d, root, addr), levels, l) <==> l in levels && (l == PGD ==> d.hasPgd)
    {
      ValidLevelExists(m, d, root, addr, l);
    }
    var t, e := Trace(m, d, root, addr), Resolve(m, d, root, addr);
    var m2 := LevelsEdited(LevelsEdited(m, d, root, addr, levels, SettingBit(bit)), d, root, addr, levels,
        ClearingBit(bit));
    ResolveShowsMemory(m, d, root, addr);
    if forall l :: Affects(d, e, levels, l) ==> !HasBit(e.At(l), bit) {
      forall x: nat ensures m2[x] == m[x] {
        if k :| 0 <= k < |t| && t[k].slot == x {
          ClearAfterSetAt(m, d, root, addr, levels, bit, k);
          BitEditsUndo(m[x], bit);
        } else {
          ClearAfterSetElsewhere(m, d, root, addr, levels, bit, x);
        }
      }
      assert m2 == m;
    } else {
      var l :| Affects(d, e, levels, l) && HasBit(e.At(l), bit);
      var k :| 0 <= k < |t| && t[k].level == l;
      ClearAfterSetAt(m, d, root, addr, levels, bit, k);
      BitEditsUndo(m[t[k].slot], bit);
    }
  }
}
