/** The kernel's walker and updater as functions, and where they agree with the user-space ones. */
module Kernel {
  import opened Words
  import opened Paging
  import opened Walk
  import opened Stores
  import opened Unrolled
  import opened Wrappers

  /**
   * The kernel's `*_none`, `*_bad` and `*_large` macros. They belong to the kernel, not to the module, so nothing is
   * known about them here. The offset macros are known: the frame of the entry above, all frame bits of
   * it, plus the index.
   */
  datatype Macros = Macros(none: (Level, Word) -> bool, bad: (Level, Word) -> bool, large: (Level, Word) -> bool)

  /** The slot of level `l` below the entry `above`; the offset macro of a missing level returns its argument. */
  function KernelSlot(d: Definition, above: Step, addr: nat, l: Level): nat {
    if Reads(d, l) then Slot(PfnBase(d.arch, above.word), d.Index(addr, l)) else above.slot
  }

  /** Whether the kernel accepts entry `w` of level `l` below the entry `above`. */
  predicate Accepts(k: Macros, l: Level, w: Word, above: Word) {
    match l
    case PGD => !(k.none(PGD, w) || k.bad(PGD, w))
    case P4D => !(k.none(P4D, w) || k.bad(P4D, w))
    case PUD => !k.none(PUD, w)
    case PMD => !(k.none(PMD, w) || k.large(PUD, above))
    case PTE => !k.large(PMD, above)
  }

  /** The entry the kernel marks valid at a level, if it does. */
  function KernelStep(m: Memory, d: Definition, k: Macros, root: nat, addr: nat, l: Level): (r: Option<Step>)
    ensures r.Some? ==> r.value.level == l && r.value.word == m[r.value.slot]
    decreases Rank(l)
  {
    if l == PGD then
      var slot := Slot(root, d.Index(addr, PGD));
      if Accepts(k, PGD, m[slot], 0) then Some(Step(PGD, slot, m[slot])) else None
    else
      match KernelStep(m, d, k, root, addr, Above(l))
      case None => None
      case Some(above) =>
        var slot := KernelSlot(d, above, addr, l);
        if Accepts(k, l, m[slot], above.word) then Some(Step(l, slot, m[slot])) else None
  }

  /** The levels the kernel marks valid form a root-first prefix of all five. */
  lemma {:induction false} KernelValidIsPrefix(m: Memory, d: Definition, k: Macros, root: nat, addr: nat, l: Level,
      l': Level)
    requires KernelStep(m, d, k, root, addr, l).Some? && Rank(l') <= Rank(l)
    ensures KernelStep(m, d, k, root, addr, l').Some?
    decreases Rank(l)
  {
    hide Slot, KernelSlot, Accepts;
    if l' != l {
      assert Rank(l') <= Rank(Above(l));
      KernelValidIsPrefix(m, d, k, root, addr, Above(l), l');
    }
  }

  // ---- which levels the kernel marks valid ----

  /** Where the kernel's offset macros lead, level after level, whatever it accepts. */
  function KernelPath(m: Memory, d: Definition, root: nat, addr: nat, l: Level): nat
    decreases Rank(l)
  {
    if l == PGD then Slot(root, d.Index(addr, PGD))
    else if Reads(d, l) then Slot(PfnBase(d.arch, m[KernelPath(m, d, root, addr, Above(l))]), d.Index(addr, l))
    else KernelPath(m, d, root, addr, Above(l))
  }

  /**
   * `valid` holds the levels that the macros let pass, each on the entries that the source hands to them: a PGD or P4D
   * is neither none nor bad, a PUD or PMD is not none, and below a large PUD there is no PMD, below a large PMD no PTE.
   */
  predicate ValidExactly(valid: set<Level>, m: Memory, d: Definition, k: Macros, root: nat, addr: nat) {
    var pgd, p4d := m[KernelPath(m, d, root, addr, PGD)], m[KernelPath(m, d, root, addr, P4D)];
    var pud, pmd := m[KernelPath(m, d, root, addr, PUD)], m[KernelPath(m, d, root, addr, PMD)];
    && (PGD in valid <==> !k.none(PGD, pgd) && !k.bad(PGD, pgd))
    && (P4D in valid <==> PGD in valid && !k.none(P4D, p4d) && !k.bad(P4D, p4d))
    && (PUD in valid <==> P4D in valid && !k.none(PUD, pud))
    && (PMD in valid <==> PUD in valid && !k.none(PMD, pmd) && !k.large(PUD, pud))
    && (PTE in valid <==> PMD in valid && !k.large(PMD, pmd))
  }

  lemma {:induction false} StepOnPath(m: Memory, d: Definition, k: Macros, root: nat, addr: nat, l: Level)
    requires KernelStep(m, d, k, root, addr, l).Some?
    ensures KernelStep(m, d, k, root, addr, l).value
        == Step(l, KernelPath(m, d, root, addr, l), m[KernelPath(m, d, root, addr, l)])
    decreases Rank(l)
  {
    hide Slot, PfnBase, Accepts, Reads;
    if l != PGD {
      StepOnPath(m, d, k, root, addr, Above(l));
    }
  }

  lemma {:induction false} StepExactly(m: Memory, d: Definition, k: Macros, root: nat, addr: nat, l: Level)
    ensures var w := m[KernelPath(m, d, root, addr, l)];
            var above := m[KernelPath(m, d, root, addr, Above(l))];
            KernelStep(m, d, k, root, addr, l).Some? <==>
            match l
            case PGD => !k.none(PGD, w) && !k.bad(PGD, w)
            case P4D => KernelStep(m, d, k, root, addr, PGD).Some? && !k.none(P4D, w) && !k.bad(P4D, w)
            case PUD => KernelStep(m, d, k, root, addr, P4D).Some? && !k.none(PUD, w)
            case PMD => KernelStep(m, d, k, root, addr, PUD).Some? && !k.none(PMD, w) && !k.large(PUD, above)
            case PTE => KernelStep(m, d, k, root, addr, PMD).Some? && !k.large(PMD, above)
  {
    hide Slot, PfnBase, Reads;
    if l != PGD && KernelStep(m, d, k, root, addr, Above(l)).Some? {
      StepOnPath(m, d, k, root, addr, Above(l));
    }
  }

  /** The levels that the kernel marks valid, in terms of the macros and the words alone. */
  lemma {:induction false} KernelValidExactly(m: Memory, d: Definition, k: Macros, root: nat, addr: nat,
      valid: set<Level>)
    requires forall l :: l in valid <==> KernelStep(m, d, k, root, addr, l).Some?
    ensures ValidExactly(valid, m, d, k, root, addr)
  {
    hide KernelStep, KernelPath;
    StepExactly(m, d, k, root, addr, PGD);
    StepExactly(m, d, k, root, addr, P4D);
    StepExactly(m, d, k, root, addr, PUD);
    StepExactly(m, d, k, root, addr, PMD);
    StepExactly(m, d, k, root, addr, PTE);
  }

  // ---- the same slots as the user-space walk ----

  /** Every entry that both walkers follow has the frame bits clear that only the kernel reads. */
  ghost predicate FollowsNarrow(m: Memory, d: Definition, k: Macros, root: nat, addr: nat) {
    var t := Trace(m, d, root, addr);
    forall i :: 0 < i < |t| && KernelStep(m, d, k, root, addr, t[i].level).Some? ==> NarrowFrame(d.arch, t[i - 1].word)
  }

  /** Every level that both walkers mark valid has the same slot. */
  ghost predicate SameSlots(m: Memory, d: Definition, k: Macros, root: nat, addr: nat) {
    var t := Trace(m, d, root, addr);
    forall i :: 0 <= i < |t| && KernelStep(m, d, k, root, addr, t[i].level).Some? ==>
      KernelStep(m, d, k, root, addr, t[i].level).value.slot == t[i].slot
  }

  lemma {:induction false} KernelAbove(m: Memory, d: Definition, k: Macros, root: nat, addr: nat, l: Level)
    requires l != PGD && KernelStep(m, d, k, root, addr, l).Some?
    ensures KernelStep(m, d, k, root, addr, Above(l)).Some?
    ensures KernelStep(m, d, k, root, addr, l).value.slot
        == KernelSlot(d, KernelStep(m, d, k, root, addr, Above(l)).value, addr, l)
  {
    hide Slot, KernelSlot, Accepts;
  }

  /** The entry of a trace's step comes from the entry above it. */
  lemma {:induction false} UserAbove(m: Memory, d: Definition, root: nat, addr: nat, i: nat)
    requires i < |Trace(m, d, root, addr)|
    ensures var t := Trace(m, d, root, addr);
            && Reads(d, t[i].level) && Depth(d, t[i].level) == i + 1
            && t[i].word == m[t[i].slot]
            && (t[i].level == PGD <==> i == 0)
            && (i == 0 ==> t[i].slot == Slot(RootBase(root), d.Index(addr, PGD)))
            && (i > 0 ==> t[i].slot == Slot(Frame(d.arch, t[i - 1].word), d.Index(addr, t[i].level)))
  {
    hide Slot, Frame, Present, Steps, Definition.Levels;
    TraceIsWalk(m, d, root, addr);
    var t := Trace(m, d, root, addr);
    assert StepAt(t, i, m, d, addr, RootBase(root), d.Levels());
    DepthOfStep(d, i);
    DepthOfStep(d, 0);
    LevelsAreDistinct(d);
    LevelsBelow(d);
  }

  lemma {:induction false} AboveDepth(d: Definition, l: Level)
    requires l != PGD
    ensures Depth(d, l) == Depth(d, Above(l)) + if Reads(d, l) then 1 else 0
    ensures Depth(d, Above(l)) >= 1
    ensures Rank(Above(l)) < Rank(l)
  {
    assert Depth(d, Above(l)) >= 1 by {
      DepthIsPositive(d, Above(l));
    }
  }

  lemma {:induction false} DepthIsPositive(d: Definition, l: Level)
    ensures Depth(d, l) >= 1
    decreases Rank(l)
  {
    if l != PGD {
      DepthIsPositive(d, Above(l));
    }
  }

  /** At the depth of step `j`, existing level or missing one, the kernel is at the slot of step `j`. */
  lemma {:induction false} NarrowMeansSameSlot(m: Memory, d: Definition, k: Macros, root: nat, addr: nat, l: Level,
      j: nat)
    requires RootBase(root) == root && FollowsNarrow(m, d, k, root, addr)
    requires j < |Trace(m, d, root, addr)| && Depth(d, l) == j + 1 && KernelStep(m, d, k, root, addr, l).Some?
    ensures KernelStep(m, d, k, root, addr, l).value.slot == Trace(m, d, root, addr)[j].slot
    decreases Rank(l)
  {
    hide Slot, Frame, PfnBase, NarrowFrame, Trace, Depth, Accepts;
    var t := Trace(m, d, root, addr);
    UserAbove(m, d, root, addr, j);
    if l == PGD {
      DepthOfPgd(d);
    } else {
      KernelAbove(m, d, k, root, addr, l);
      AboveDepth(d, l);
      if Reads(d, l) {
        NarrowMeansSameSlot(m, d, k, root, addr, Above(l), j - 1);
        UserAbove(m, d, root, addr, j - 1);
        SameDepthSameLevel(d, l, t[j].level);
        FramesAgree(d.arch, t[j - 1].word);
      } else {
        NarrowMeansSameSlot(m, d, k, root, addr, Above(l), j);
      }
    }
  }

  lemma {:induction false} DepthOfPgd(d: Definition)
    ensures Depth(d, PGD) == 1
  {
  }

  lemma {:induction false} SameDepthSameLevel(d: Definition, l: Level, l': Level)
    requires Reads(d, l) && Reads(d, l') && Depth(d, l) == Depth(d, l')
    ensures l == l'
  {
    DepthIsPositive(d, l);
    DepthIsPlace(d, l);
    DepthIsPlace(d, l');
  }

  lemma {:induction false} SameSlotBelow(m: Memory, d: Definition, k: Macros, root: nat, addr: nat, l: Level, j: nat)
    requires SameSlots(m, d, k, root, addr)
    requires j < |Trace(m, d, root, addr)| && Depth(d, l) == j + 1 && KernelStep(m, d, k, root, addr, l).Some?
    ensures KernelStep(m, d, k, root, addr, l).value.slot == Trace(m, d, root, addr)[j].slot
    decreases Rank(l)
  {
    hide Slot, Frame, PfnBase, Trace, Depth, Accepts;
    UserAbove(m, d, root, addr, j);
    if Reads(d, l) {
      SameDepthSameLevel(d, l, Trace(m, d, root, addr)[j].level);
    } else {
      KernelAbove(m, d, k, root, addr, l);
      AboveDepth(d, l);
      SameSlotBelow(m, d, k, root, addr, Above(l), j);
    }
  }

  lemma {:induction false} SameSlotMeansNarrow(m: Memory, d: Definition, k: Macros, root: nat, addr: nat, i: nat)
    requires SameSlots(m, d, k, root, addr)
    requires 0 < i < |Trace(m, d, root, addr)|
        && KernelStep(m, d, k, root, addr, Trace(m, d, root, addr)[i].level).Some?
    ensures NarrowFrame(d.arch, Trace(m, d, root, addr)[i - 1].word)
  {
    hide Slot, Frame, PfnBase, NarrowFrame, Trace, Depth, Accepts;
    var t := Trace(m, d, root, addr);
    var l := t[i].level;
    UserAbove(m, d, root, addr, i);
    UserAbove(m, d, root, addr, i - 1);
    KernelAbove(m, d, k, root, addr, l);
    AboveDepth(d, l);
    SameSlotBelow(m, d, k, root, addr, Above(l), i - 1);
    var above := KernelStep(m, d, k, root, addr, Above(l)).value;
    FramesAgree(d.arch, above.word);
    SlotNamesBase(PfnBase(d.arch, above.word), Frame(d.arch, above.word), d.Index(addr, l));
  }

  /**
   * Whatever the kernel's macros accept, every level that both walkers mark valid has the same slot, exactly when every
   * entry both follow has its bits 40 to 51 clear.
   */
  lemma {:induction false} WalkersAgree(m: Memory, d: Definition, k: Macros, root: nat, addr: nat)
    requires RootBase(root) == root
    ensures SameSlots(m, d, k, root, addr) <==> FollowsNarrow(m, d, k, root, addr)
  {
    hide Slot, Frame, NarrowFrame, Trace, Depth, KernelStep;
    var t := Trace(m, d, root, addr);
    if FollowsNarrow(m, d, k, root, addr) {
      forall i | 0 <= i < |t| && KernelStep(m, d, k, root, addr, t[i].level).Some?
        ensures KernelStep(m, d, k, root, addr, t[i].level).value.slot == t[i].slot
      {
        UserAbove(m, d, root, addr, i);
        NarrowMeansSameSlot(m, d, k, root, addr, t[i].level, i);
      }
    }
    if SameSlots(m, d, k, root, addr) {
      forall i | 0 < i < |t| && KernelStep(m, d, k, root, addr, t[i].level).Some?
        ensures NarrowFrame(d.arch, t[i - 1].word)
      {
        SameSlotMeansNarrow(m, d, k, root, addr, i);
      }
    }
  }

  /** So a level valid for both shows the same word in both entries. */
  lemma {:induction false} SameWordsWhereBothValid(m: Memory, d: Definition, k: Macros, root: nat, addr: nat, l: Level)
    requires RootBase(root) == root && FollowsNarrow(m, d, k, root, addr)
    requires l in Resolve(m, d, root, addr).valid && KernelStep(m, d, k, root, addr, l).Some?
    ensures KernelStep(m, d, k, root, addr, l).value.word == Resolve(m, d, root, addr).At(l)
  {
    hide Resolve, Trace, FollowsNarrow, KernelStep, Entry.At;
    WalkersAgree(m, d, k, root, addr);
    ResolveShowsMemory(m, d, root, addr);
    var i :| 0 <= i < |Trace(m, d, root, addr)| && Trace(m, d, root, addr)[i].level == l;
  }

  // ---- updates ----

  /** Memory after the kernel's stores from the PGD down to level `l`, all through the slots of the walk before them. */
  function KernelStored(m: Memory, d: Definition, k: Macros, root: nat, addr: nat, vm: Entry, l: Level): Memory
    decreases Rank(l)
  {
    var above := if l == PGD then m else KernelStored(m, d, k, root, addr, vm, Above(l));
    var s := KernelStep(m, d, k, root, addr, l);
    if s.Some? && l in vm.valid then Put(above, s.value.slot, vm.At(l)) else above
  }

  /** What `update_vm` leaves in memory. */
  function KernelUpdated(m: Memory, d: Definition, k: Macros, root: nat, addr: nat, vm: Entry): Memory {
    KernelStored(m, d, k, root, addr, vm, PTE)
  }

  /** The two updaters select the same levels: each selected level is one that both mark valid. */
  ghost predicate SameSelection(m: Memory, d: Definition, k: Macros, root: nat, addr: nat, vm: Entry) {
    forall l :: (l in vm.valid && KernelStep(m, d, k, root, addr, l).Some?)
                <==> (l in Chosen(d, vm.valid) && l in Resolve(m, d, root, addr).valid)
  }

  lemma {:induction false} StoreDownSnoc(m: Memory, t: seq<Step>, s: Step, vm: Entry, sel: set<Level>)
    ensures StoreDown(m, t + [s], vm, sel) ==
            if s.level in sel then Put(StoreDown(m, t, vm, sel), s.slot, vm.At(s.level)) else StoreDown(m, t, vm, sel)
    decreases |t|
  {
    if t == [] {
      assert [] + [s] == [s];
    } else {
      assert (t + [s])[1..] == t[1..] + [s];
      StoreDownSnoc(if t[0].level in sel then Put(m, t[0].slot, vm.At(t[0].level)) else m, t[1..], s, vm, sel);
    }
  }

  /** The steps of a trace down to a level. */
  function Down(d: Definition, t: seq<Step>, l: Level): seq<Step> {
    if Depth(d, l) <= |t| then t[..Depth(d, l)] else t
  }

  lemma {:induction false} DownFromPgd(d: Definition, t: seq<Step>)
    requires OnLevels(t, d)
    ensures t == [] ==> Down(d, t, PGD) == []
    ensures t != [] ==> Down(d, t, PGD) == [] + [t[0]] && t[0].level == PGD
  {
    hide Definition.Levels;
    LevelsBelow(d);
    DepthOfPgd(d);
  }

  lemma {:induction false} DownStep(d: Definition, t: seq<Step>, l: Level)
    requires OnLevels(t, d) && l != PGD
    ensures l in LevelsOf(t) ==>
              Depth(d, l) <= |t| && t[Depth(d, l) - 1].level == l
              && Down(d, t, l) == Down(d, t, Above(l)) + [t[Depth(d, l) - 1]]
    ensures l !in LevelsOf(t) ==> Down(d, t, l) == Down(d, t, Above(l))
  {
    hide Definition.Levels, Depth;
    AboveDepth(d, l);
    DepthIsPlace(d, l);
    if k :| 0 <= k < |t| && t[k].level == l {
      DepthOfStep(d, k);
    }
  }

  /** One more level of both updaters. */
  lemma {:induction false} KernelStoresLevel(m: Memory, d: Definition, k: Macros, root: nat, addr: nat, vm: Entry,
      i: nat, above: Memory, t: seq<Step>)
    requires SameSlots(m, d, k, root, addr) && SameSelection(m, d, k, root, addr, vm)
    requires i < |Trace(m, d, root, addr)| && above == StoreDown(m, t, vm, Chosen(d, vm.valid))
    ensures var s := Trace(m, d, root, addr)[i];
            StoreDown(m, t + [s], vm, Chosen(d, vm.valid)) ==
            if KernelStep(m, d, k, root, addr, s.level).Some? && s.level in vm.valid
            then Put(above, KernelStep(m, d, k, root, addr, s.level).value.slot, vm.At(s.level)) else above
  {
    hide Trace, KernelStep, Chosen, EntryOf, StoreDown, Entry.At, Put;
    var s := Trace(m, d, root, addr)[i];
    ResolveShowsMemory(m, d, root, addr);
    StoreDownSnoc(m, t, s, vm, Chosen(d, vm.valid));
  }

  lemma {:induction false} KernelStoresDown(m: Memory, d: Definition, k: Macros, root: nat, addr: nat, vm: Entry,
      l: Level)
    requires SameSlots(m, d, k, root, addr) && SameSelection(m, d, k, root, addr, vm)
    ensures KernelStored(m, d, k, root, addr, vm, l)
        == StoreDown(m, Down(d, Trace(m, d, root, addr), l), vm, Chosen(d, vm.valid))
    decreases Rank(l)
  {
    hide Slot, SameSlots, Trace, Depth, KernelStep, Chosen, EntryOf, Definition.Levels, Down, Entry.At, StoreDown, Put;
    var t := Trace(m, d, root, addr);
    TraceIsWalk(m, d, root, addr);
    EntryValid(d, t);
    if l == PGD {
      DownFromPgd(d, t);
      StoresNothing(m, vm, Chosen(d, vm.valid));
      if t != [] {
        KernelStoresLevel(m, d, k, root, addr, vm, 0, m, []);
      }
    } else {
      DownStep(d, t, l);
      RankAbove(l);
      DepthIsPositive(d, l);
      KernelStoresDown(m, d, k, root, addr, vm, Above(l));
      if l in LevelsOf(t) {
        KernelStoresLevel(m, d, k, root, addr, vm, Depth(d, l) - 1, KernelStored(m, d, k, root, addr, vm, Above(l)),
            Down(d, t, Above(l)));
      }
    }
  }

  lemma {:induction false} StoresNothing(m: Memory, vm: Entry, sel: set<Level>)
    ensures StoreDown(m, [], vm, sel) == m
  {
  }

  /**
   * Where both updaters select the same levels and the walks agree, the kernel stores through the user-space slots in
   * the opposite order; so on distinct slots both leave the same memory.
   */
  lemma {:induction false} UpdatersAgree(m: Memory, d: Definition, k: Macros, root: nat, addr: nat, vm: Entry)
    requires RootBase(root) == root && FollowsNarrow(m, d, k, root, addr) && SameSelection(m, d, k, root, addr, vm)
    ensures KernelUpdated(m, d, k, root, addr, vm) == StoreDown(m, Trace(m, d, root, addr), vm, Chosen(d, vm.valid))
    ensures KernelUpdated(m, d, k, root, addr, vm) == Updated(m, d, root, addr, vm)
            <==> OrderBlind(Trace(m, d, root, addr), vm, Chosen(d, vm.valid))
    ensures DistinctSlots(Trace(m, d, root, addr)) ==>
        KernelUpdated(m, d, k, root, addr, vm) == Updated(m, d, root, addr, vm)
  {
    hide Slot, SameSlots, FollowsNarrow, Trace, Depth, KernelStep, Chosen, EntryOf, Definition.Levels, Entry.At,
        StoreDown, StoreUp, KernelStored, SameSelection, OrderBlind, DistinctSlots;
    var t, sel := Trace(m, d, root, addr), Chosen(d, vm.valid);
    WalkersAgree(m, d, k, root, addr);
    KernelStoresDown(m, d, k, root, addr, vm, PTE);
    TraceIsWalk(m, d, root, addr);
    DepthIsPlace(d, PTE);
    assert Down(d, t, PTE) == t;
    OrdersAgree(m, t, vm, sel);
    if DistinctSlots(t) {
      DistinctSlotsAreOrderBlind(t, vm, sel);
    }
  }
}
