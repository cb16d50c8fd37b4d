/** What the kernel's updater leaves of an edited entry, and where that is what the user-space updater leaves. */
module KernelEdits {
  import opened Words
  import opened Paging
  import opened Walk
  import opened Stores
  import opened Unrolled
  import opened Edits
  import opened Kernel

  /** `e` is an answer of the RESOLVE call: the accepted levels, and their words. */
  ghost predicate Answers(m: Memory, d: Definition, k: Macros, root: nat, addr: nat, e: Entry) {
    forall l :: var s := KernelStep(m, d, k, root, addr, l);
                (l in e.valid <==> s.Some?) && (s.Some? ==> e.At(l) == s.value.word)
  }

  // ---- every word after the kernel's update ----

  /** The kernel stores the field of level `l` at `x`. */
  predicate Selected(m: Memory, d: Definition, k: Macros, root: nat, addr: nat, valid: set<Level>, l: Level, x: nat) {
    var s := KernelStep(m, d, k, root, addr, l);
    s.Some? && l in valid && s.value.slot == x
  }

  /** Of the levels that the kernel stores at `x`, `l` is the one nearest the page. */
  ghost predicate LastSelected(m: Memory, d: Definition, k: Macros, root: nat, addr: nat, valid: set<Level>, l: Level,
      x: nat) {
    Selected(m, d, k, root, addr, valid, l, x)
    && forall l' :: Rank(l') > Rank(l) ==> !Selected(m, d, k, root, addr, valid, l', x)
  }

  lemma {:induction false} LastExists(m: Memory, d: Definition, k: Macros, root: nat, addr: nat, valid: set<Level>,
      l: Level, x: nat) returns (last: Level)
    requires Selected(m, d, k, root, addr, valid, l, x)
    ensures LastSelected(m, d, k, root, addr, valid, last, x)
    decreases 4 - Rank(l)
  {
    hide Selected;
    last := l;
    if l' :| Rank(l') > Rank(l) && Selected(m, d, k, root, addr, valid, l', x) {
      last := LastExists(m, d, k, root, addr, valid, l', x);
    }
  }

  lemma {:induction false} LastIsUnique(m: Memory, d: Definition, k: Macros, root: nat, addr: nat, valid: set<Level>,
      l: Level, l': Level, x: nat)
    requires LastSelected(m, d, k, root, addr, valid, l, x) && LastSelected(m, d, k, root, addr, valid, l', x)
    ensures l == l'
  {
    hide Selected;
    RankIsInjective(l, l');
  }

  ghost predicate NoneDownTo(m: Memory, d: Definition, k: Macros, root: nat, addr: nat, valid: set<Level>, top: Level,
      x: nat) {
    forall l :: Rank(l) <= Rank(top) ==> !Selected(m, d, k, root, addr, valid, l, x)
  }

  ghost predicate LastDownTo(m: Memory, d: Definition, k: Macros, root: nat, addr: nat, valid: set<Level>, top: Level,
      l: Level, x: nat) {
    && Selected(m, d, k, root, addr, valid, l, x) && Rank(l) <= Rank(top)
    && forall l' :: Rank(l) < Rank(l') <= Rank(top) ==> !Selected(m, d, k, root, addr, valid, l', x)
  }

  lemma {:induction false} StoredLast(m: Memory, d: Definition, k: Macros, root: nat, addr: nat, vm: Entry,
      top: Level, x: nat)
    ensures KernelStored(m, d, k, root, addr, vm, top)[x] ==
            if Selected(m, d, k, root, addr, vm.valid, top, x) then vm.At(top)
            else if top == PGD then m[x] else KernelStored(m, d, k, root, addr, vm, Above(top))[x]
  {
    hide KernelStep, Entry.At, Above;
  }

  lemma {:induction false} DownToAbove(m: Memory, d: Definition, k: Macros, root: nat, addr: nat, valid: set<Level>,
      top: Level, x: nat)
    requires top != PGD && !Selected(m, d, k, root, addr, valid, top, x)
    ensures NoneDownTo(m, d, k, root, addr, valid, top, x) ==> NoneDownTo(m, d, k, root, addr, valid, Above(top), x)
    ensures forall l :: LastDownTo(m, d, k, root, addr, valid, top, l, x) ==>
              LastDownTo(m, d, k, root, addr, valid, Above(top), l, x)
  {
    hide Selected, Rank;
    RankAbove(top);
    forall l ensures Rank(l) == Rank(top) <==> l == top {
      RankIsInjective(l, top);
    }
  }

  lemma {:induction false} TopIsLast(m: Memory, d: Definition, k: Macros, root: nat, addr: nat, valid: set<Level>,
      top: Level, l: Level, x: nat)
    requires LastDownTo(m, d, k, root, addr, valid, top, l, x)
    ensures Selected(m, d, k, root, addr, valid, top, x) ==> l == top
    ensures top == PGD ==> l == top
  {
    hide Selected;
    RankIsInjective(l, top);
  }

  /** Every word after the stores down to level `top`: where slots coincide, the level nearest the page wins. */
  lemma {:induction false} KernelStoredAt(m: Memory, d: Definition, k: Macros, root: nat, addr: nat, vm: Entry,
      top: Level, x: nat)
    ensures NoneDownTo(m, d, k, root, addr, vm.valid, top, x) ==> KernelStored(m, d, k, root, addr, vm, top)[x] == m[x]
    ensures forall l :: LastDownTo(m, d, k, root, addr, vm.valid, top, l, x) ==>
              KernelStored(m, d, k, root, addr, vm, top)[x] == vm.At(l)
    decreases Rank(top)
  {
    StoredLast(m, d, k, root, addr, vm, top, x);
    RankIsInjective(top, PGD);
    hide Selected, Entry.At, KernelStored, LastDownTo;
    if top != PGD {
      RankAbove(top);
      KernelStoredAt(m, d, k, root, addr, vm, Above(top), x);
      if !Selected(m, d, k, root, addr, vm.valid, top, x) {
        DownToAbove(m, d, k, root, addr, vm.valid, top, x);
      }
    }
    forall l | LastDownTo(m, d, k, root, addr, vm.valid, top, l, x)
      ensures KernelStored(m, d, k, root, addr, vm, top)[x] == vm.At(l)
    {
      TopIsLast(m, d, k, root, addr, vm.valid, top, l, x);
      SelectedIfLast(m, d, k, root, addr, vm.valid, top, l, x);
    }
  }

  lemma {:induction false} SelectedIfLast(m: Memory, d: Definition, k: Macros, root: nat, addr: nat, valid: set<Level>,
      top: Level, l: Level, x: nat)
    requires LastDownTo(m, d, k, root, addr, valid, top, l, x)
    ensures Selected(m, d, k, root, addr, valid, l, x)
  {
  }

  /** Every word after the kernel's update: where slots coincide, the selected level nearest the page wins. */
  lemma {:induction false} KernelUpdatedAt(m: Memory, d: Definition, k: Macros, root: nat, addr: nat, vm: Entry,
      x: nat)
    ensures (forall l :: !Selected(m, d, k, root, addr, vm.valid, l, x)) ==>
              KernelUpdated(m, d, k, root, addr, vm)[x] == m[x]
    ensures forall l :: LastSelected(m, d, k, root, addr, vm.valid, l, x) ==>
              KernelUpdated(m, d, k, root, addr, vm)[x] == vm.At(l)
  {
    hide Selected, KernelStored, Entry.At;
    forall l | LastSelected(m, d, k, root, addr, vm.valid, l, x)
      ensures LastDownTo(m, d, k, root, addr, vm.valid, PTE, l, x)
    {
    }
    KernelStoredAt(m, d, k, root, addr, vm, PTE, x);
  }

  /** Writing the kernel's answer back under any mask leaves all of memory alone, on any memory and for any macros. */
  lemma {:induction false} KernelWriteBackIsIdentity(m: Memory, d: Definition, k: Macros, root: nat, addr: nat,
      e: Entry, mask: set<Level>)
    requires Answers(m, d, k, root, addr, e)
    ensures KernelUpdated(m, d, k, root, addr, e.(valid := mask)) == m
  {
    hide KernelUpdated, KernelStep, Entry.At;
    var vm := e.(valid := mask);
    forall x: nat ensures KernelUpdated(m, d, k, root, addr, vm)[x] == m[x] {
      KernelUpdatedAt(m, d, k, root, addr, vm, x);
      if l :| Selected(m, d, k, root, addr, mask, l, x) {
        var last := LastExists(m, d, k, root, addr, mask, l, x);
        ValidIsNoField(e, mask);
      }
    }
  }

  // ---- which edits survive ----

  /** No accepted level nearer the page is stored to the slot of the accepted level `l`. */
  ghost predicate Survives(m: Memory, d: Definition, k: Macros, root: nat, addr: nat, l: Level) {
    var s := KernelStep(m, d, k, root, addr, l);
    s.Some? && forall l' :: Rank(l') > Rank(l) && KernelStep(m, d, k, root, addr, l').Some? ==>
                 KernelStep(m, d, k, root, addr, l').value.slot != s.value.slot
  }

  /** The source's own test of a level, field by field; it tests no field for the PTE. */
  predicate IsThere(d: Definition, l: Level) {
    && (l == PGD ==> d.hasPgd) && (l == P4D ==> d.hasP4d) && (l == PUD ==> d.hasPud) && (l == PMD ==> d.hasPmd)
  }

  lemma {:induction false} AffectsExactly(d: Definition, e: Entry, levels: set<Level>, l: Level)
    ensures Affects(d, e, levels, l) <==> l in e.valid && l in levels && IsThere(d, l)
  {
  }

  /** The levels whose words a multi-level edit through the kernel decides: each survivor, at its own slot. */
  lemma {:induction false} EditedSurvivors(m: Memory, d: Definition, k: Macros, root: nat, addr: nat, e: Entry,
      levels: set<Level>, edit: Edit, x: nat)
    requires Answers(m, d, k, root, addr, e)
    ensures var m' := KernelUpdated(m, d, k, root, addr, Edited(d, e, levels, edit));
            && (forall l :: Survives(m, d, k, root, addr, l) && KernelStep(m, d, k, root, addr, l).value.slot == x ==>
                  m'[x] == if Affects(d, e, levels, l) then edit.Apply(d.arch, m[x]) else m[x])
            && ((forall l :: Survives(m, d, k, root, addr, l) ==>
                   KernelStep(m, d, k, root, addr, l).value.slot != x) ==> m'[x] == m[x])
  {
    hide KernelUpdated, KernelStep, Entry.At, Edit.Apply, Edited, Affects;
    var vm := Edited(d, e, levels, edit);
    EditedFields(d, e, levels, edit);
    EditedKeepsValid(d, e, levels, edit);
    KernelUpdatedAt(m, d, k, root, addr, vm, x);
    forall l ensures LastSelected(m, d, k, root, addr, e.valid, l, x)
                     <==> Survives(m, d, k, root, addr, l) && KernelStep(m, d, k, root, addr, l).value.slot == x {
    }
    if l :| Selected(m, d, k, root, addr, e.valid, l, x) {
      var last := LastExists(m, d, k, root, addr, e.valid, l, x);
    }
  }

  /**
   * A multi-level edit through the kernel, on any memory and for any macros: the words of the levels asked for are
   * edited that survive and that the definition has, and no other word changes.
   */
  lemma {:induction false} KernelEditsLand(m: Memory, d: Definition, k: Macros, root: nat, addr: nat, e: Entry,
      levels: set<Level>, edit: Edit, x: nat)
    requires Answers(m, d, k, root, addr, e)
    ensures var m' := KernelUpdated(m, d, k, root, addr, Edited(d, e, levels, edit));
            && (forall l :: Survives(m, d, k, root, addr, l) && KernelStep(m, d, k, root, addr, l).value.slot == x ==>
                  m'[x] == if l in levels && IsThere(d, l) then edit.Apply(d.arch, m[x]) else m[x])
            && ((forall l :: Survives(m, d, k, root, addr, l) ==>
                   KernelStep(m, d, k, root, addr, l).value.slot != x) ==> m'[x] == m[x])
  {
    hide KernelUpdated, KernelStep, Entry.At, Edit.Apply, Edited, Affects, IsThere;
    EditedSurvivors(m, d, k, root, addr, e, levels, edit, x);
    forall l | Survives(m, d, k, root, addr, l)
      ensures Affects(d, e, levels, l) <==> l in levels && IsThere(d, l)
    {
      AffectsExactly(d, e, levels, l);
    }
  }

  /** A missing level that the kernel accepts has the slot of the level above it. */
  lemma {:induction false} MissingSharesSlot(m: Memory, d: Definition, k: Macros, root: nat, addr: nat, l: Level)
    requires !Reads(d, l) && KernelStep(m, d, k, root, addr, l).Some?
    ensures KernelStep(m, d, k, root, addr, Above(l)).Some?
    ensures KernelStep(m, d, k, root, addr, l).value.slot == KernelStep(m, d, k, root, addr, Above(l)).value.slot
  {
    hide Slot, KernelStep, Accepts;
    KernelAbove(m, d, k, root, addr, l);
  }

  /**
   * So an edit of a level right above a missing one that the kernel accepts is lost: the unedited field of the missing
   * level is stored over it, and all of memory stays as it is. On x86 without P4D that is every edit of a PGD.
   */
  lemma {:induction false} EditAboveMissingIsLost(m: Memory, d: Definition, k: Macros, root: nat, addr: nat, e: Entry,
      l: Level, w: Word)
    requires Answers(m, d, k, root, addr, e)
    requires !Reads(d, l) && KernelStep(m, d, k, root, addr, l).Some?
    ensures KernelUpdated(m, d, k, root, addr, WithField(e, Above(l), w).(valid := e.valid)) == m
  {
    hide KernelUpdated, KernelStep, Entry.At, WithField;
    var vm := WithField(e, Above(l), w).(valid := e.valid);
    assert l != PGD;
    RankAbove(l);
    MissingSharesSlot(m, d, k, root, addr, l);
    forall x: nat ensures KernelUpdated(m, d, k, root, addr, vm)[x] == m[x] {
      KernelUpdatedAt(m, d, k, root, addr, vm, x);
      if l' :| Selected(m, d, k, root, addr, e.valid, l', x) {
        var last := LastExists(m, d, k, root, addr, e.valid, l', x);
        FieldAssigned(e, Above(l), w, e.valid, last);
      }
    }
  }

  // ---- the survivors, and the user-space edit ----

  /** The level whose slot the kernel uses for level `l`: itself, or the existing one above it. */
  function Base(d: Definition, l: Level): (b: Level)
    ensures Reads(d, b) && Rank(b) <= Rank(l) && (b == l <==> Reads(d, l))
    decreases Rank(l)
  {
    if Reads(d, l) then l else Base(d, Above(l))
  }

  lemma {:induction false} BaseSlot(m: Memory, d: Definition, k: Macros, root: nat, addr: nat, l: Level)
    requires KernelStep(m, d, k, root, addr, l).Some?
    ensures KernelStep(m, d, k, root, addr, Base(d, l)).Some?
    ensures KernelStep(m, d, k, root, addr, l).value.slot == KernelStep(m, d, k, root, addr, Base(d, l)).value.slot
    decreases Rank(l)
  {
    hide KernelStep, Reads;
    if !Reads(d, l) {
      MissingSharesSlot(m, d, k, root, addr, l);
      NotPgd(d, l);
      BaseSlot(m, d, k, root, addr, Above(l));
    }
  }

  lemma {:induction false} NotPgd(d: Definition, l: Level)
    requires !Reads(d, l)
    ensures l != PGD && Rank(Above(l)) < Rank(l)
  {
  }

  /** A missing level is right below its base or below another missing one. */
  lemma {:induction false} MissingBelow(d: Definition, l: Level) returns (first: Level)
    requires !Reads(d, l)
    ensures first != PGD && !Reads(d, first) && Above(first) == Base(d, l) && Rank(first) <= Rank(l)
    decreases Rank(l)
  {
    NotPgd(d, l);
    hide Reads;
    first := l;
    if !Reads(d, Above(l)) {
      first := MissingBelow(d, Above(l));
    }
  }

  /** The accepted existing levels have slots of their own. */
  ghost predicate DistinctAccepted(m: Memory, d: Definition, k: Macros, root: nat, addr: nat) {
    forall l, l' | Reads(d, l) && Reads(d, l') && l != l' ::
      var s, s' := KernelStep(m, d, k, root, addr, l), KernelStep(m, d, k, root, addr, l');
      s.Some? && s'.Some? ==> s.value.slot != s'.value.slot
  }

  /** A missing level right below `l` is accepted. */
  ghost predicate MissingFollows(m: Memory, d: Definition, k: Macros, root: nat, addr: nat, l: Level) {
    exists l' :: !Reads(d, l') && Above(l') == l && KernelStep(m, d, k, root, addr, l').Some?
  }

  /** On distinct slots the edits that survive are exactly those of the levels that no accepted missing one follows. */
  lemma {:induction false} SurvivorsExactly(m: Memory, d: Definition, k: Macros, root: nat, addr: nat, l: Level)
    requires DistinctAccepted(m, d, k, root, addr) && Reads(d, l) && KernelStep(m, d, k, root, addr, l).Some?
    ensures Survives(m, d, k, root, addr, l) <==> !MissingFollows(m, d, k, root, addr, l)
  {
    hide KernelStep, Reads, Rank, Above;
    if l' :| !Reads(d, l') && Above(l') == l && KernelStep(m, d, k, root, addr, l').Some? {
      MissingSharesSlot(m, d, k, root, addr, l');
      NotPgd(d, l');
    }
    if !Survives(m, d, k, root, addr, l) {
      var l' :| Rank(l') > Rank(l) && KernelStep(m, d, k, root, addr, l').Some?
        && KernelStep(m, d, k, root, addr, l').value.slot == KernelStep(m, d, k, root, addr, l).value.slot;
      BaseSlot(m, d, k, root, addr, l');
      assert Base(d, l') == l;
      var first := MissingBelow(d, l');
      KernelValidIsPrefix(m, d, k, root, addr, l', first);
    }
  }

  /** Both walkers mark the same existing levels valid. */
  ghost predicate SameLevels(m: Memory, d: Definition, k: Macros, root: nat, addr: nat) {
    forall l :: Reads(d, l) ==>
      (KernelStep(m, d, k, root, addr, l).Some? <==> l in Resolve(m, d, root, addr).valid)
  }

  lemma {:induction false} AcceptedOnTrace(m: Memory, d: Definition, k: Macros, root: nat, addr: nat, l: Level)
      returns (j: nat)
    requires RootBase(root) == root && FollowsNarrow(m, d, k, root, addr) && SameLevels(m, d, k, root, addr)
    requires KernelStep(m, d, k, root, addr, l).Some?
    ensures j < |Trace(m, d, root, addr)| && Trace(m, d, root, addr)[j].level == Base(d, l)
    ensures KernelStep(m, d, k, root, addr, l).value.slot == Trace(m, d, root, addr)[j].slot
  {
    hide KernelStep, Reads, Rank, Above, Trace, EntryOf, FollowsNarrow;
    BaseSlot(m, d, k, root, addr, l);
    ResolveShowsMemory(m, d, root, addr);
    WalkersAgree(m, d, k, root, addr);
    j :| 0 <= j < |Trace(m, d, root, addr)| && Trace(m, d, root, addr)[j].level == Base(d, l);
  }

  const ALL: set<Level> := {PGD, P4D, PUD, PMD, PTE}

  lemma {:induction false} EveryLevel(l: Level)
    ensures l in ALL
  {
    match l
    case PGD =>
    case P4D =>
    case PUD =>
    case PMD =>
    case PTE =>
  }

  /** The level of a step is accepted, and its slot is that of one survivor: the level itself, or a missing one. */
  lemma {:induction false} SurvivorAt(m: Memory, d: Definition, k: Macros, root: nat, addr: nat, j: nat)
      returns (last: Level)
    requires RootBase(root) == root && FollowsNarrow(m, d, k, root, addr) && SameLevels(m, d, k, root, addr)
    requires DistinctSlots(Trace(m, d, root, addr)) && j < |Trace(m, d, root, addr)|
    ensures var s := Trace(m, d, root, addr)[j];
            && KernelStep(m, d, k, root, addr, s.level).Some? && Survives(m, d, k, root, addr, last)
            && KernelStep(m, d, k, root, addr, last).Some?
            && KernelStep(m, d, k, root, addr, last).value.slot == s.slot
            && (last == s.level || (!d.Has(last) && !Survives(m, d, k, root, addr, s.level)))
  {
    hide KernelStep, Trace, EntryOf, FollowsNarrow, DistinctSlots, Above, Rank, Definition.Has;
    var t := Trace(m, d, root, addr);
    var l := t[j].level;
    UserAbove(m, d, root, addr, j);
    ResolveShowsMemory(m, d, root, addr);
    WalkersAgree(m, d, k, root, addr);
    forall l': Level ensures l' in ALL {
      EveryLevel(l');
    }
    last := LastExists(m, d, k, root, addr, ALL, l, t[j].slot);
    assert Selected(m, d, k, root, addr, ALL, l, t[j].slot);
    if last != l {
      var i := AcceptedOnTrace(m, d, k, root, addr, last);
      SameStep(t, i, j);
      LastIsBelow(m, d, k, root, addr, ALL, l, last, t[j].slot);
    }
  }

  lemma {:induction false} SameStep(t: seq<Step>, i: nat, j: nat)
    requires DistinctSlots(t) && i < |t| && j < |t| && t[i].slot == t[j].slot
    ensures i == j
  {
  }

  lemma {:induction false} LastIsBelow(m: Memory, d: Definition, k: Macros, root: nat, addr: nat, valid: set<Level>,
      l: Level, last: Level, x: nat)
    requires LastSelected(m, d, k, root, addr, valid, last, x) && l != last
    requires Selected(m, d, k, root, addr, valid, l, x)
    ensures Rank(last) > Rank(l)
  {
    hide Selected;
    RankIsInjective(l, last);
  }

  /** At the slot of one step, both edits leave the same word. */
  lemma {:induction false} SameWordAt(m: Memory, d: Definition, k: Macros, root: nat, addr: nat, e: Entry,
      levels: set<Level>, edit: Edit, j: nat)
    requires RootBase(root) == root && FollowsNarrow(m, d, k, root, addr) && SameLevels(m, d, k, root, addr)
    requires DistinctSlots(Trace(m, d, root, addr)) && j < |Trace(m, d, root, addr)| && Answers(m, d, k, root, addr, e)
    ensures var s, u := Trace(m, d, root, addr)[j], Resolve(m, d, root, addr);
            KernelUpdated(m, d, k, root, addr, Edited(d, e, levels, edit))[s.slot]
            == LevelsEdited(m, d, root, addr, levels, edit)[s.slot]
            <==> (s.level in levels && IsThere(d, s.level) ==>
                    Survives(m, d, k, root, addr, s.level) || edit.Apply(d.arch, u.At(s.level)) == u.At(s.level))
  {
    hide KernelUpdated, KernelStep, Trace, EntryOf, FollowsNarrow, DistinctSlots, Entry.At, Edit.Apply, Edited,
        LevelsEdited, SameLevels, Survives, Definition.Has;
    var s := Trace(m, d, root, addr)[j];
    ResolveShowsMemory(m, d, root, addr);
    LevelsEditedAt(m, d, root, addr, levels, edit, j);
    AffectsExactly(d, Resolve(m, d, root, addr), levels, s.level);
    var last := SurvivorAt(m, d, k, root, addr, j);
    AffectsExactly(d, e, levels, last);
    KernelEditsLand(m, d, k, root, addr, e, levels, edit, s.slot);
  }

  /**
   * Where both walkers follow the same existing levels on distinct slots: a multi-level edit through the kernel leaves
   * the memory of the user-space edit exactly when every affected level survives or is not changed by the edit.
   */
  lemma {:induction false} EditsAgreeExactly(m: Memory, d: Definition, k: Macros, root: nat, addr: nat, e: Entry,
      levels: set<Level>, edit: Edit)
    requires RootBase(root) == root && FollowsNarrow(m, d, k, root, addr) && SameLevels(m, d, k, root, addr)
    requires DistinctSlots(Trace(m, d, root, addr)) && Answers(m, d, k, root, addr, e)
    ensures var u := Resolve(m, d, root, addr);
            KernelUpdated(m, d, k, root, addr, Edited(d, e, levels, edit))
            == LevelsEdited(m, d, root, addr, levels, edit)
            <==> forall l :: l in u.valid && l in levels && IsThere(d, l) ==>
                   Survives(m, d, k, root, addr, l) || edit.Apply(d.arch, u.At(l)) == u.At(l)
  {
    hide KernelUpdated, KernelStep, Trace, EntryOf, FollowsNarrow, DistinctSlots, Entry.At, Edit.Apply, Edited,
        LevelsEdited, SameLevels, Survives, Answers;
    var t, u := Trace(m, d, root, addr), Resolve(m, d, root, addr);
    var m1 := KernelUpdated(m, d, k, root, addr, Edited(d, e, levels, edit));
    var m2 := LevelsEdited(m, d, root, addr, levels, edit);
    ResolveShowsMemory(m, d, root, addr);
    forall l | l in u.valid && l in levels && IsThere(d, l)
      ensures m1 == m2 ==> Survives(m, d, k, root, addr, l) || edit.Apply(d.arch, u.At(l)) == u.At(l)
    {
      var j :| 0 <= j < |t| && t[j].level == l;
      SameWordAt(m, d, k, root, addr, e, levels, edit, j);
    }
    if forall l :: l in u.valid && l in levels && IsThere(d, l) ==>
        Survives(m, d, k, root, addr, l) || edit.Apply(d.arch, u.At(l)) == u.At(l) {
      forall x: nat ensures m1[x] == m2[x] {
        if j :| 0 <= j < |t| && t[j].slot == x {
          SameWordAt(m, d, k, root, addr, e, levels, edit, j);
        } else {
          NoSurvivorAt(m, d, k, root, addr, x);
          LevelsEditedElsewhere(m, d, root, addr, levels, edit, x);
          KernelEditsLand(m, d, k, root, addr, e, levels, edit, x);
        }
      }
      assert m1 == m2;
    }
  }

  lemma {:induction false} NoSurvivorAt(m: Memory, d: Definition, k: Macros, root: nat, addr: nat, x: nat)
    requires RootBase(root) == root && FollowsNarrow(m, d, k, root, addr) && SameLevels(m, d, k, root, addr)
    requires forall j :: 0 <= j < |Trace(m, d, root, addr)| ==> Trace(m, d, root, addr)[j].slot != x
    ensures forall l :: Survives(m, d, k, root, addr, l) ==> KernelStep(m, d, k, root, addr, l).value.slot != x
  {
    hide KernelStep, Trace, FollowsNarrow, SameLevels;
    forall l | Survives(m, d, k, root, addr, l) ensures KernelStep(m, d, k, root, addr, l).value.slot != x {
      var j := AcceptedOnTrace(m, d, k, root, addr, l);
    }
  }

  // ---- any two updates ----

  /** The word at `x` is the same after both updates of the entry `vm`. */
  ghost predicate WordAgrees(m: Memory, d: Definition, k: Macros, root: nat, addr: nat, vm: Entry, x: nat) {
    var t, sel := Trace(m, d, root, addr), Chosen(d, vm.valid);
    && (forall l, i: nat :: LastSelected(m, d, k, root, addr, vm.valid, l, x) && First(t, sel, x, i) ==>
          vm.At(l) == vm.At(t[i].level))
    && (forall l :: LastSelected(m, d, k, root, addr, vm.valid, l, x) && Untouched(t, sel, x) ==> vm.At(l) == m[x])
    && (forall i: nat :: First(t, sel, x, i) && (forall l :: !Selected(m, d, k, root, addr, vm.valid, l, x)) ==>
          vm.At(t[i].level) == m[x])
  }

  lemma {:induction false} WordAgreesExactly(m: Memory, d: Definition, k: Macros, root: nat, addr: nat, vm: Entry,
      x: nat)
    ensures KernelUpdated(m, d, k, root, addr, vm)[x] == Updated(m, d, root, addr, vm)[x]
            <==> WordAgrees(m, d, k, root, addr, vm, x)
  {
    hide KernelUpdated, Selected, LastSelected, Trace, Chosen, StoreUp, Entry.At, First, Untouched;
    var t, sel := Trace(m, d, root, addr), Chosen(d, vm.valid);
    KernelUpdatedAt(m, d, k, root, addr, vm, x);
    StoreUpAt(m, t, vm, sel, x);
    if !Untouched(t, sel, x) {
      FirstAndLastExist(t, sel, x);
      var i: nat :| First(t, sel, x, i);
      FirstIsTouched(t, sel, x, i);
    }
    if l :| Selected(m, d, k, root, addr, vm.valid, l, x) {
      var last := LastExists(m, d, k, root, addr, vm.valid, l, x);
    }
    forall l | LastSelected(m, d, k, root, addr, vm.valid, l, x) ensures Selected(m, d, k, root, addr, vm.valid, l, x) {
      LastIsSelected(m, d, k, root, addr, vm.valid, l, x);
    }
    forall i: nat | First(t, sel, x, i) ensures !Untouched(t, sel, x) {
      FirstIsTouched(t, sel, x, i);
    }
  }

  lemma {:induction false} LastIsSelected(m: Memory, d: Definition, k: Macros, root: nat, addr: nat, valid: set<Level>,
      l: Level, x: nat)
    requires LastSelected(m, d, k, root, addr, valid, l, x)
    ensures Selected(m, d, k, root, addr, valid, l, x)
  {
  }

  lemma {:induction false} FirstIsTouched(t: seq<Step>, sel: set<Level>, x: nat, i: nat)
    requires First(t, sel, x, i)
    ensures !Untouched(t, sel, x)
  {
  }

  /**
   * Any update, on any memory and for any macros: the kernel leaves what the user-space updater leaves exactly when, at
   * every address, the last level that the kernel selects carries the word of the first level that the other selects.
   */
  lemma {:induction false} UpdatersAgreeExactly(m: Memory, d: Definition, k: Macros, root: nat, addr: nat, vm: Entry)
    ensures KernelUpdated(m, d, k, root, addr, vm) == Updated(m, d, root, addr, vm)
            <==> forall x: nat :: WordAgrees(m, d, k, root, addr, vm, x)
  {
    hide KernelUpdated, WordAgrees, Updated;
    var m1, m2 := KernelUpdated(m, d, k, root, addr, vm), Updated(m, d, root, addr, vm);
    forall x: nat ensures m1[x] == m2[x] <==> WordAgrees(m, d, k, root, addr, vm, x) {
      WordAgreesExactly(m, d, k, root, addr, vm, x);
    }
    if forall x: nat :: WordAgrees(m, d, k, root, addr, vm, x) {
      assert m1 == m2;
    }
  }
}
