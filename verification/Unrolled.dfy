/** The unrolled code of the user-space implementation, level by level, against the recursive walk. */
module Unrolled {
  import opened Words
  import opened Paging
  import opened Walk
  import opened Stores

  // ---- the unrolled walker, step by step ----

  /** The first steps of a walk. */
  ghost predicate Partial(t: seq<Step>, m: Memory, d: Definition, addr: nat, base: nat) {
    && |t| <= |d.Levels()|
    && (forall k :: 0 <= k < |t| ==> StepAt(t, k, m, d, addr, base, d.Levels()))
    && (forall k :: 0 <= k < |t| ==> t[k].level == d.Levels()[k])
  }

  lemma {:induction false} PushStep(t: seq<Step>, s: Step, m: Memory, d: Definition, addr: nat, base: nat)
    requires Partial(t, m, d, addr, base) && |t| < |d.Levels()|
    requires t != [] ==> Leads(d.arch, t[|t| - 1].word, d.Levels()[|t|])
    requires s == Step(d.Levels()[|t|], Slot(Table(t, |t|, d.arch, base), d.Index(addr, s.level)), m[s.slot])
    ensures Partial(t + [s], m, d, addr, base)
    ensures forall l :: WordAt(t + [s], l) == if l == s.level then s.word else WordAt(t, l)
    ensures LevelsOf(t + [s]) == LevelsOf(t) + {s.level}
    ensures s.level !in LevelsOf(t)
  {
    hide Slot, Frame, Leads;
    var u := t + [s];
    LevelsAreDistinct(d);
    forall k | 0 <= k < |u| ensures StepAt(u, k, m, d, addr, base, d.Levels()) {
      if k < |t| {
        assert StepAt(t, k, m, d, addr, base, d.Levels());
      }
    }
    forall l ensures WordAt(u, l) == if l == s.level then s.word else WordAt(t, l) {
      WordAtSnoc(t, s, l);
    }
  }

  /** How many levels lie above each one, and which one comes next. */
  lemma {:induction false} LevelsBelow(d: Definition)
    ensures d.Levels()[0] == PGD
    ensures d.hasP4d ==> d.Levels()[1] == P4D
    ensures d.hasPud ==> d.Levels()[if d.hasP4d then 2 else 1] == PUD
    ensures d.hasPmd ==> d.Levels()[1 + (if d.hasP4d then 1 else 0) + (if d.hasPud then 1 else 0)] == PMD
    ensures |d.Levels()| == 2 + (if d.hasP4d then 1 else 0) + (if d.hasPud then 1 else 0) + (if d.hasPmd then 1 else 0)
    ensures d.Levels()[|d.Levels()| - 1] == PTE
  {
  }

  lemma {:induction false} WordAtSnoc(t: seq<Step>, s: Step, l: Level)
    ensures WordAt(t + [s], l) == if l in LevelsOf(t) then WordAt(t, l) else if l == s.level then s.word else 0
    ensures l !in LevelsOf(t) ==> WordAt(t, l) == 0
  {
    if t != [] {
      WordAtSnoc(t[1..], s, l);
      assert (t + [s])[1..] == t[1..] + [s];
      assert LevelsOf(t) == {t[0].level} + LevelsOf(t[1..]) by {
        assert t == [t[0]] + t[1..];
      }
    }
  }

  // ---- the unrolled code between two levels ----

  function Above(l: Level): Level {
    match l
    case PGD => PGD
    case P4D => PGD
    case PUD => P4D
    case PMD => PUD
    case PTE => PMD
  }

  function Rank(l: Level): nat {
    match l
    case PGD => 0
    case P4D => 1
    case PUD => 2
    case PMD => 3
    case PTE => 4
  }

  /** An entry with one field assigned. */
  function WithField(e: Entry, l: Level, w: Word): Entry {
    match l
    case PGD => e.(pgd := w)
    case P4D => e.(p4d := w)
    case PUD => e.(pud := w)
    case PMD => e.(pmd := w)
    case PTE => e.(pte := w)
  }

  /** Whether the walk reads a level: the ones the definition has, and always the PGD and the PTE. */
  predicate Reads(d: Definition, l: Level) {
    l == PGD || l == PTE || d.Has(l)
  }

  /** How many levels the walk reads down to `l`. */
  function Depth(d: Definition, l: Level): nat
    decreases Rank(l)
  {
    if l == PGD then 1 else Depth(d, Above(l)) + if Reads(d, l) then 1 else 0
  }

  lemma {:induction false} DepthIsPlace(d: Definition, l: Level)
    ensures Depth(d, l) <= |d.Levels()|
    ensures Reads(d, l) ==> d.Levels()[Depth(d, l) - 1] == l
    ensures l == PTE <==> Depth(d, l) == |d.Levels()|
  {
    LevelsBelow(d);
    assert Depth(d, P4D) == 1 + if d.hasP4d then 1 else 0;
    assert Depth(d, PUD) == Depth(d, P4D) + if d.hasPud then 1 else 0;
    assert Depth(d, PMD) == Depth(d, PUD) + if d.hasPmd then 1 else 0;
    assert Depth(d, PTE) == Depth(d, PMD) + 1;
  }

  /** The unrolled code has come down to level `l` with the steps `t` and the entry `e`. */
  ghost predicate At(t: seq<Step>, e: Entry, l: Level, m: Memory, d: Definition, root: nat, addr: nat) {
    && RootBase(root) != 0
    && Partial(t, m, d, addr, RootBase(root))
    && |t| == Depth(d, l) && t != [] && Present(d.arch, t[0].word)
    && t[|t| - 1].word == e.At(l)
    && e.valid == LevelsOf(t)
    && (forall l' :: e.At(l') == if Rank(l') <= Rank(l) then EntryOf(d, t).At(l') else 0)
    && (forall l' :: Rank(l') > Rank(l) ==> WordAt(t, l') == 0)
  }

  /** Each field of an entry is the word of its level or, for a missing level, what the walk passes on. */
  lemma {:induction false} EntryFields(d: Definition, t: seq<Step>, l: Level)
    ensures EntryOf(d, t).At(l) == if Reads(d, l) then WordAt(t, l) else Folded(d.arch, EntryOf(d, t).At(Above(l)))
  {
    hide Present;
  }

  /** The field of a missing level shows the entry above it, and 0 where that is not present. */
  lemma {:induction false} MissingFieldFolds(m: Memory, d: Definition, root: nat, addr: nat, l: Level)
    requires l != PGD && l != PTE && !d.Has(l)
    ensures var e := Resolve(m, d, root, addr);
            e.At(l) == if Present(d.arch, e.At(Above(l))) then e.At(Above(l)) else 0
  {
    hide Present, Trace, EntryOf;
    EntryFields(d, Trace(m, d, root, addr), l);
  }

  /** The field of a level that the definition has and the walk did not read is 0. */
  lemma {:induction false} UnreadFieldIsZero(m: Memory, d: Definition, root: nat, addr: nat, l: Level)
    requires Reads(d, l) && l !in Resolve(m, d, root, addr).valid
    ensures Resolve(m, d, root, addr).At(l) == 0
  {
    hide Present, Trace, EntryOf;
    var t := Trace(m, d, root, addr);
    EntryFields(d, t, l);
    EntryValid(d, t);
    UnreadWord(t, l);
  }

  /** A level that a resolve marks valid exists, but perhaps the PGD. */
  lemma {:induction false} ValidLevelExists(m: Memory, d: Definition, root: nat, addr: nat, l: Level)
    requires l in Resolve(m, d, root, addr).valid
    ensures d.Has(l) <==> (l == PGD ==> d.hasPgd)
  {
    hide Trace, Resolve, EntryOf, Entry.At, IsWalk, Present, Slot, Definition.Levels;
    var t := Trace(m, d, root, addr);
    ResolveShowsMemory(m, d, root, addr);
    TraceIsWalk(m, d, root, addr);
    var k: nat :| k < |t| && t[k].level == l;
    DepthOfStep(d, k);
  }

  lemma {:induction false} NothingResolved(m: Memory, d: Definition, root: nat, addr: nat)
    requires RootBase(root) == 0 || !Present(d.arch, m[Slot(RootBase(root), d.Index(addr, PGD))])
    ensures Resolve(m, d, root, addr) == Entry(0, 0, 0, 0, 0, {})
  {
    hide Slot;
    TraceIsWalk(m, d, root, addr);
    assert Trace(m, d, root, addr) == [];
  }

  lemma {:induction false} ReadRoot(e: Entry, m: Memory, d: Definition, root: nat, addr: nat) returns (t: seq<Step>)
    requires RootBase(root) != 0
    requires e == Entry(m[Slot(RootBase(root), d.Index(addr, PGD))], 0, 0, 0, 0, {PGD}) && Present(d.arch, e.pgd)
    ensures At(t, e, PGD, m, d, root, addr)
  {
    hide Slot, Frame, Leads, Present;
    var s := Step(PGD, Slot(RootBase(root), d.Index(addr, PGD)), e.pgd);
    LevelsBelow(d);
    PushStep([], s, m, d, addr, RootBase(root));
    t := [s];
    assert [] + [s] == t;
  }

  lemma {:induction false} ReadLevel(t: seq<Step>, e: Entry, l: Level, w: Word, m: Memory, d: Definition, root: nat,
      addr: nat) returns (t': seq<Step>)
    requires l != PGD && Reads(d, l) && At(t, e, Above(l), m, d, root, addr)
    requires Leads(d.arch, e.At(Above(l)), l)
    requires w == m[Slot(Frame(d.arch, e.At(Above(l))), d.Index(addr, l))]
    ensures At(t', WithField(e, l, w).(valid := e.valid + {l}), l, m, d, root, addr)
  {
    hide Slot, Frame, Leads, Present, LevelsOf, EntryOf, Partial, RootBase, Definition.Index, WordAt;
    DepthIsPlace(d, l);
    var s := Step(l, Slot(Frame(d.arch, e.At(Above(l))), d.Index(addr, l)), w);
    PushStep(t, s, m, d, addr, RootBase(root));
    t' := t + [s];
    FieldsAfterRead(t, t', e, WithField(e, l, w).(valid := e.valid + {l}), l, w, d);
  }

  lemma {:induction false} FieldsAfterRead(t: seq<Step>, t': seq<Step>, e: Entry, e': Entry, l: Level, w: Word,
      d: Definition)
    requires l != PGD && Reads(d, l)
    requires forall l' :: WordAt(t', l') == if l' == l then w else WordAt(t, l')
    requires forall l' :: e.At(l') == if Rank(l') <= Rank(Above(l)) then EntryOf(d, t).At(l') else 0
    requires forall l' :: Rank(l') > Rank(Above(l)) ==> WordAt(t, l') == 0
    requires e' == WithField(e, l, w).(valid := e.valid + {l})
    ensures forall l' :: e'.At(l') == if Rank(l') <= Rank(l) then EntryOf(d, t').At(l') else 0
    ensures forall l' :: Rank(l') > Rank(l) ==> WordAt(t', l') == 0
  {
    hide EntryOf, WordAt, Folded, WithField, Entry.At, Rank, Above;
    RankAbove(l);
    SameEntryAbove(d, t, t', l);
    EntryFields(d, t', l);
    forall l' ensures e'.At(l') == if Rank(l') <= Rank(l) then EntryOf(d, t').At(l') else 0 {
      FieldAssigned(e, l, w, e.valid + {l}, l');
      RankIsInjective(l, l');
    }
  }

  lemma {:induction false} RankAbove(l: Level)
    requires l != PGD
    ensures Rank(l) == Rank(Above(l)) + 1
  {
  }

  lemma {:induction false} RankIsInjective(l: Level, l': Level)
    ensures Rank(l) == Rank(l') <==> l == l'
  {
  }

  lemma {:induction false} FieldAssigned(e: Entry, l: Level, w: Word, valid: set<Level>, l': Level)
    ensures WithField(e, l, w).(valid := valid).At(l') == if l' == l then w else e.At(l')
  {
    match l
    case PGD =>
    case P4D =>
    case PUD =>
    case PMD =>
    case PTE =>
  }

  lemma {:induction false} ValidIsNoField(e: Entry, valid: set<Level>)
    ensures forall l :: e.(valid := valid).At(l) == e.At(l)
  {
  }

  lemma {:induction false} SameEntry(e: Entry, f: Entry)
    requires e.valid == f.valid && forall l :: e.At(l) == f.At(l)
    ensures e == f
  {
    assert e.At(PGD) == f.At(PGD) && e.At(P4D) == f.At(P4D) && e.At(PUD) == f.At(PUD);
    assert e.At(PMD) == f.At(PMD) && e.At(PTE) == f.At(PTE);
  }

  lemma {:induction false} SameEntryAbove(d: Definition, t: seq<Step>, u: seq<Step>, l: Level)
    requires forall l' :: l' != l ==> WordAt(u, l') == WordAt(t, l')
    ensures forall l' :: Rank(l') < Rank(l) ==> EntryOf(d, u).At(l') == EntryOf(d, t).At(l')
  {
    hide WordAt, EntryOf, Entry.At;
    forall l' | Rank(l') < Rank(l) ensures EntryOf(d, u).At(l') == EntryOf(d, t).At(l') {
      SameFieldAbove(d, t, u, l, l');
    }
  }

  lemma {:induction false} SameFieldAbove(d: Definition, t: seq<Step>, u: seq<Step>, l: Level, l': Level)
    requires forall l' :: l' != l ==> WordAt(u, l') == WordAt(t, l')
    requires Rank(l') < Rank(l)
    ensures EntryOf(d, u).At(l') == EntryOf(d, t).At(l')
    decreases Rank(l')
  {
    hide WordAt, EntryOf, Entry.At, Folded;
    EntryFields(d, t, l');
    EntryFields(d, u, l');
    if !Reads(d, l') {
      SameFieldAbove(d, t, u, l, Above(l'));
    }
  }

  lemma {:induction false} SkipLevel(t: seq<Step>, e: Entry, l: Level, m: Memory, d: Definition, root: nat, addr: nat)
    requires !Reads(d, l) && At(t, e, Above(l), m, d, root, addr)
    requires Present(d.arch, e.At(Above(l)))
    ensures At(t, WithField(e, l, e.At(Above(l))), l, m, d, root, addr)
  {
    hide Slot, Frame, Present, LevelsOf, EntryOf, Partial;
    EntryFields(d, t, l);
  }

  lemma {:induction false} ReturnWalk(t: seq<Step>, e: Entry, l: Level, m: Memory, d: Definition, root: nat, addr: nat)
    requires At(t, e, l, m, d, root, addr)
    requires l != PTE ==> !Present(d.arch, e.At(l)) || (l == PMD && MapsLarge(d.arch, e.At(l)))
    ensures IsWalk(t, m, d, addr, RootBase(root), d.Levels())
  {
    hide Slot, Frame, Present, MapsLarge, EntryOf, WordAt, LevelsOf, StepAt, Definition.Levels;
    DepthIsPlace(d, l);
    DepthIsPlace(d, PTE);
    if l == PMD {
      NextIsPte(d);
    }
  }

  lemma {:induction false} NextIsPte(d: Definition)
    ensures Depth(d, PMD) == |d.Levels()| - 1 && d.Levels()[|d.Levels()| - 1] == PTE
  {
    LevelsBelow(d);
    DepthIsPlace(d, PTE);
  }

  /** Wherever the code returns, the entry it has filled in is the resolved one. */
  lemma {:induction false} ReturnEntry(t: seq<Step>, e: Entry, l: Level, m: Memory, d: Definition, root: nat, addr: nat)
    requires At(t, e, l, m, d, root, addr)
    requires l != PTE ==> !Present(d.arch, e.At(l)) || (l == PMD && MapsLarge(d.arch, e.At(l)))
    ensures e == Resolve(m, d, root, addr)
  {
    hide Slot, Frame, Present, MapsLarge, EntryOf, WordAt, LevelsOf, Partial, IsWalk, Steps, Depth;
    ReturnWalk(t, e, l, m, d, root, addr);
    WalkIsUnique(t, m, d, addr, RootBase(root), d.Levels());
    assert t == Trace(m, d, root, addr);
    UnreachedFields(d, t, l);
    EntryValid(d, t);
    SameEntry(e, EntryOf(d, t));
  }

  lemma {:induction false} UnreachedFields(d: Definition, t: seq<Step>, l: Level)
    requires l == PMD || l == PTE || !Present(d.arch, EntryOf(d, t).At(l))
    requires forall l' :: Rank(l') > Rank(l) ==> WordAt(t, l') == 0
    ensures forall l' :: Rank(l') > Rank(l) ==> EntryOf(d, t).At(l') == 0
  {
    hide WordAt;
    EntryFields(d, t, P4D);
    EntryFields(d, t, PUD);
    EntryFields(d, t, PMD);
    EntryFields(d, t, PTE);
  }

  /** A PTE that is not valid reads as 0. */
  lemma {:induction false} InvalidPteIsZero(m: Memory, d: Definition, root: nat, addr: nat, bit: BitNumber)
    requires PTE !in Resolve(m, d, root, addr).valid
    ensures Resolve(m, d, root, addr).pte == 0 && !HasBit(0, bit)
  {
    var t := Trace(m, d, root, addr);
    UnreadWord(t, PTE);
  }

  lemma {:induction false} UnreadWord(t: seq<Step>, l: Level)
    requires l !in LevelsOf(t)
    ensures WordAt(t, l) == 0
  {
    WordAtSnoc(t, Step(l, 0, 0), l);
  }

  // ---- slots recomputed from a resolved entry ----

  /** Where the updater finds the entry of level `l`, from the fields of the entry it resolved. */
  function SlotFrom(d: Definition, e: Entry, root: nat, addr: nat, l: Level): nat {
    Slot(if l == PGD then RootBase(root) else Frame(d.arch, e.At(Above(l))), d.Index(addr, l))
  }

  lemma {:induction false} SlotFields(d: Definition, e: Entry, root: nat, addr: nat)
    ensures SlotFrom(d, e, root, addr, PGD) == Slot(RootBase(root), d.Index(addr, PGD))
    ensures SlotFrom(d, e, root, addr, P4D) == Slot(Frame(d.arch, e.pgd), d.Index(addr, P4D))
    ensures SlotFrom(d, e, root, addr, PUD) == Slot(Frame(d.arch, e.p4d), d.Index(addr, PUD))
    ensures SlotFrom(d, e, root, addr, PMD) == Slot(Frame(d.arch, e.pud), d.Index(addr, PMD))
    ensures SlotFrom(d, e, root, addr, PTE) == Slot(Frame(d.arch, e.pmd), d.Index(addr, PTE))
  {
    hide Slot, Frame;
  }

  lemma {:induction false} DepthOfStep(d: Definition, k: nat)
    requires k < |d.Levels()|
    ensures Reads(d, d.Levels()[k]) && Depth(d, d.Levels()[k]) == k + 1
  {
    LevelsAreDistinct(d);
    var l := d.Levels()[k];
    DepthIsPlace(d, l);
    assert d.Levels()[Depth(d, l) - 1] == l;
  }

  /** A field at the depth of step `j` shows that step's word, also at the missing levels below it. */
  lemma {:induction false} FieldAtDepth(d: Definition, t: seq<Step>, j: nat, l: Level)
    requires OnLevels(t, d) && j < |t| && Depth(d, l) == j + 1
    requires t[j].level == l || Present(d.arch, t[j].word)
    ensures EntryOf(d, t).At(l) == t[j].word
    decreases Rank(l)
  {
    hide Present, EntryOf, WordAt;
    DepthIsPlace(d, l);
    EntryShowsSteps(d, t);
    if !Reads(d, l) {
      FieldAtDepth(d, t, j, Above(l));
      EntryFields(d, t, l);
    }
  }

  /** The updater recomputes exactly the slots of the walk. */
  lemma {:induction false} SlotsRecomputed(m: Memory, d: Definition, root: nat, addr: nat, k: nat)
    requires k < |Trace(m, d, root, addr)|
    ensures var t := Trace(m, d, root, addr);
            t[k].slot == SlotFrom(d, EntryOf(d, t), root, addr, t[k].level)
  {
    hide Slot, Frame, Present;
    var t := Trace(m, d, root, addr);
    TraceIsWalk(m, d, root, addr);
    assert StepAt(t, k, m, d, addr, RootBase(root), d.Levels());
    DepthOfStep(d, k);
    DepthOfStep(d, 0);
    if k > 0 {
      FieldAtDepth(d, t, k - 1, Above(t[k].level));
    }
  }

  // ---- the stores, level by level ----

  /** The steps at rank `r` and below it in the tree. */
  function From(t: seq<Step>, r: nat): seq<Step> {
    if t == [] || Rank(t[0].level) >= r then t else From(t[1..], r)
  }

  ghost predicate Ranked(t: seq<Step>) {
    forall i, j :: 0 <= i < j < |t| ==> Rank(t[i].level) < Rank(t[j].level)
  }

  lemma {:induction false} OnLevelsIsRanked(t: seq<Step>, d: Definition)
    requires OnLevels(t, d)
    ensures Ranked(t)
  {
    assert forall i, j :: 0 <= i < j < |d.Levels()| ==> Rank(d.Levels()[i]) < Rank(d.Levels()[j]);
  }

  lemma {:induction false} FromStep(t: seq<Step>, l: Level)
    requires Ranked(t)
    ensures forall k :: 0 <= k < |t| && t[k].level == l ==> From(t, Rank(l)) == [t[k]] + From(t, Rank(l) + 1)
    ensures (forall k :: 0 <= k < |t| ==> t[k].level != l) ==> From(t, Rank(l)) == From(t, Rank(l) + 1)
  {
    if t != [] {
      var u := t[1..];
      FromStep(u, l);
      assert forall k :: 0 < k < |t| ==> t[k] == u[k - 1];
      if Rank(t[0].level) >= Rank(l) {
        if t[0].level == l {
          assert From(u, Rank(l) + 1) == u;
          assert t == [t[0]] + u;
        }
      }
    }
  }

  /** One conditional store of the updater. */
  lemma {:induction false} StoreLevel(m: Memory, t: seq<Step>, vm: Entry, sel: set<Level>, l: Level)
    requires Ranked(t)
    ensures forall k :: 0 <= k < |t| && t[k].level == l && l in sel ==>
              StoreUp(m, From(t, Rank(l)), vm, sel)
                  == Put(StoreUp(m, From(t, Rank(l) + 1), vm, sel), t[k].slot, vm.At(l))
    ensures l !in sel || l !in LevelsOf(t) ==>
              StoreUp(m, From(t, Rank(l)), vm, sel) == StoreUp(m, From(t, Rank(l) + 1), vm, sel)
  {
    hide Entry.At, Put, From, Rank, StoreUp, Ranked;
    FromStep(t, l);
    var rest := From(t, Rank(l) + 1);
    forall k | 0 <= k < |t| && t[k].level == l
      ensures l in LevelsOf(t) && From(t, Rank(l)) == [t[k]] + rest
    {
      assert t[k].level in LevelsOf(t);
    }
    forall s | s in t && s.level == l
      ensures StoreUp(m, [s] + rest, vm, sel) ==
              if l in sel then Put(StoreUp(m, rest, vm, sel), s.slot, vm.At(l)) else StoreUp(m, rest, vm, sel)
    {
      StoreFirst(m, s, rest, vm, sel);
    }
  }

  lemma {:induction false} StoreFirst(m: Memory, s: Step, rest: seq<Step>, vm: Entry, sel: set<Level>)
    ensures StoreUp(m, [s] + rest, vm, sel) ==
            if s.level in sel then Put(StoreUp(m, rest, vm, sel), s.slot, vm.At(s.level)) else StoreUp(m, rest, vm, sel)
  {
    hide Entry.At, Put;
    assert ([s] + rest)[1..] == rest;
  }

  lemma {:induction false} FromEnds(t: seq<Step>)
    ensures From(t, 0) == t && From(t, 5) == []
  {
    if t != [] {
      FromEnds(t[1..]);
    }
  }

  /** The levels an update may store: the PGD only where the definition has one. */
  function Chosen(d: Definition, valid: set<Level>): set<Level> {
    if d.hasPgd then valid else valid - {PGD}
  }

  /** What an update leaves in memory. */
  function Updated(m: Memory, d: Definition, root: nat, addr: nat, vm: Entry): Memory {
    StoreUp(m, Trace(m, d, root, addr), vm, Chosen(d, vm.valid))
  }

  /** The memory after the stores of the levels of rank `r` and below it in the tree. */
  function Stored(m: Memory, d: Definition, root: nat, addr: nat, vm: Entry, r: nat): Memory {
    StoreUp(m, From(Trace(m, d, root, addr), r), vm, Chosen(d, vm.valid))
  }

  lemma {:induction false} NothingToStore(m: Memory, d: Definition, root: nat, addr: nat, vm: Entry)
    requires RootBase(root) == 0
    ensures Updated(m, d, root, addr, vm) == m
  {
  }

  lemma {:induction false} StoresBegin(m: Memory, d: Definition, root: nat, addr: nat, vm: Entry)
    ensures Stored(m, d, root, addr, vm, 5) == m
  {
    FromEnds(Trace(m, d, root, addr));
  }

  lemma {:induction false} StoresEnd(m: Memory, d: Definition, root: nat, addr: nat, vm: Entry)
    ensures Stored(m, d, root, addr, vm, 0) == Updated(m, d, root, addr, vm)
  {
    FromEnds(Trace(m, d, root, addr));
  }

  /** The step that made a level valid. */
  lemma {:induction false} StepOf(m: Memory, d: Definition, root: nat, addr: nat, l: Level) returns (k: nat)
    requires l in Resolve(m, d, root, addr).valid
    ensures k < |Trace(m, d, root, addr)| && Trace(m, d, root, addr)[k].level == l
  {
    var t := Trace(m, d, root, addr);
    TraceIsWalk(m, d, root, addr);
    EntryShowsSteps(d, t);
    k :| k < |t| && t[k].level == l;
  }

  lemma {:induction false} StoredHit(m: Memory, d: Definition, root: nat, addr: nat, vm: Entry, k: nat)
    requires k < |Trace(m, d, root, addr)|
    ensures var e := Resolve(m, d, root, addr);
            var l := Trace(m, d, root, addr)[k].level;
            var rest := Stored(m, d, root, addr, vm, Rank(l) + 1);
            && l in e.valid
            && Stored(m, d, root, addr, vm, Rank(l)) ==
               if l in vm.valid && d.Has(l) then Put(rest, SlotFrom(d, e, root, addr, l), vm.At(l)) else rest
  {
    hide StoreUp, From, SlotFrom, Trace, EntryOf, Put, Rank, Present;
    var t := Trace(m, d, root, addr);
    TraceIsWalk(m, d, root, addr);
    OnLevelsIsRanked(t, d);
    EntryShowsSteps(d, t);
    StoreLevel(m, t, vm, Chosen(d, vm.valid), t[k].level);
    SlotsRecomputed(m, d, root, addr, k);
    DepthOfStep(d, k);
  }

  lemma {:induction false} StoredMiss(m: Memory, d: Definition, root: nat, addr: nat, vm: Entry, l: Level)
    requires l !in Resolve(m, d, root, addr).valid
    ensures Stored(m, d, root, addr, vm, Rank(l)) == Stored(m, d, root, addr, vm, Rank(l) + 1)
  {
    hide StoreUp, From, Trace, Rank, Present;
    var t := Trace(m, d, root, addr);
    TraceIsWalk(m, d, root, addr);
    OnLevelsIsRanked(t, d);
    StoreLevel(m, t, vm, Chosen(d, vm.valid), l);
  }

  /** Each conditional store of the updater is the store of its level's step, if there is one. */
  lemma {:induction false} StoresStep(m: Memory, d: Definition, root: nat, addr: nat, vm: Entry, l: Level)
    ensures var e := Resolve(m, d, root, addr);
            var rest := Stored(m, d, root, addr, vm, Rank(l) + 1);
            Stored(m, d, root, addr, vm, Rank(l)) ==
            if l in vm.valid && l in e.valid && d.Has(l) then Put(rest, SlotFrom(d, e, root, addr, l), vm.At(l))
                else rest
  {
    hide *;
    if l in Resolve(m, d, root, addr).valid {
      var k := StepOf(m, d, root, addr, l);
      StoredHit(m, d, root, addr, vm, k);
    } else {
      StoredMiss(m, d, root, addr, vm, l);
    }
  }

  // ---- the edits as functions ----

  /** What an edit does to one entry. */
  datatype Edit = SettingBit(bit: BitNumber) | ClearingBit(bit: BitNumber) | SettingPfn(pfn: Word) {
    function Apply(arch: Arch, w: Word): Word {
      match this
      case SettingBit(bit) => SetBit(w, bit)
      case ClearingBit(bit) => ClearBit(w, bit)
      case SettingPfn(pfn) => SetPfn(arch, w, pfn)
    }
  }

  /** Whether a multi-level edit changes level `l` of an entry. */
  predicate Affects(d: Definition, e: Entry, levels: set<Level>, l: Level) {
    l in e.valid && l in levels && d.Has(l)
  }

  function EditedAt(d: Definition, e: Entry, levels: set<Level>, edit: Edit, l: Level): Word {
    if Affects(d, e, levels, l) then edit.Apply(d.arch, e.At(l)) else e.At(l)
  }

  /** An entry edited at the affected levels. */
  function Edited(d: Definition, e: Entry, levels: set<Level>, edit: Edit): Entry {
    Entry(EditedAt(d, e, levels, edit, PGD), EditedAt(d, e, levels, edit, P4D), EditedAt(d, e, levels, edit, PUD),
          EditedAt(d, e, levels, edit, PMD), EditedAt(d, e, levels, edit, PTE), e.valid)
  }

  /** One guarded field assignment of `ptedit_set_bit` or `ptedit_clear_bit`. */
  function EditField(d: Definition, vm: Entry, levels: set<Level>, edit: Edit, l: Level): Entry {
    if l in vm.valid && l in levels && d.Has(l) then
      WithField(vm, l, edit.Apply(d.arch, vm.At(l))).(valid := vm.valid + {l})
    else vm
  }

  /** The fields of the levels in `done` have been edited. */
  ghost predicate EditedSoFar(d: Definition, e: Entry, vm: Entry, levels: set<Level>, edit: Edit, done: set<Level>) {
    vm.valid == e.valid && forall l :: vm.At(l) == if l in done then EditedAt(d, e, levels, edit, l) else e.At(l)
  }

  lemma {:induction false} EditNext(d: Definition, e: Entry, vm: Entry, levels: set<Level>, edit: Edit,
      done: set<Level>, l: Level)
    requires EditedSoFar(d, e, vm, levels, edit, done) && l !in done
    ensures EditedSoFar(d, e, EditField(d, vm, levels, edit, l), levels, edit, done + {l})
  {
    hide WithField, Entry.At, Edit.Apply, Definition.Has;
    if Affects(d, e, levels, l) {
      FieldEdited(vm, l, edit.Apply(d.arch, e.At(l)));
    }
  }

  /** Assigning a field of a level that is valid already. */
  lemma {:induction false} FieldEdited(e: Entry, l: Level, w: Word)
    requires l in e.valid
    ensures WithField(e, l, w).(valid := e.valid + {l}).valid == e.valid
    ensures forall l' :: WithField(e, l, w).(valid := e.valid + {l}).At(l') == if l' == l then w else e.At(l')
  {
    hide WithField, Entry.At;
    assert e.valid + {l} == e.valid;
    forall l' ensures WithField(e, l, w).(valid := e.valid + {l}).At(l') == if l' == l then w else e.At(l') {
      FieldAssigned(e, l, w, e.valid + {l}, l');
    }
  }

  lemma {:induction false} EditDone(d: Definition, e: Entry, vm: Entry, levels: set<Level>, edit: Edit)
    requires EditedSoFar(d, e, vm, levels, edit, {PTE} + {PMD} + {PUD} + {P4D} + {PGD})
    ensures vm == Edited(d, e, levels, edit)
  {
    hide EditedAt;
    EditedFields(d, e, levels, edit);
    forall l: Level ensures l in {PTE} + {PMD} + {PUD} + {P4D} + {PGD} {
    }
    SameEntry(vm, Edited(d, e, levels, edit));
  }

  lemma {:induction false} EditedFields(d: Definition, e: Entry, levels: set<Level>, edit: Edit)
    ensures forall l :: Edited(d, e, levels, edit).At(l) == EditedAt(d, e, levels, edit, l)
  {
    hide EditedAt;
  }

  lemma {:induction false} NothingEdited(d: Definition, e: Entry, levels: set<Level>, edit: Edit)
    ensures EditedSoFar(d, e, e, levels, edit, {})
  {
  }

  /** What `ptedit_set_bit` and `ptedit_clear_bit` leave in memory. */
  function LevelsEdited(m: Memory, d: Definition, root: nat, addr: nat, levels: set<Level>, edit: Edit): Memory {
    Updated(m, d, root, addr, Edited(d, Resolve(m, d, root, addr), levels, edit))
  }

  /** What the `ptedit_pte_*` edits leave in memory: nothing changes without a valid PTE. */
  function PteEdited(m: Memory, d: Definition, root: nat, addr: nat, edit: Edit): Memory {
    var e := Resolve(m, d, root, addr);
    if PTE in e.valid then
      Updated(m, d, root, addr, e.(pte := edit.Apply(d.arch, e.pte), valid := {PTE}))
    else m
  }
}
