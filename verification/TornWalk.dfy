/**
 * Why the snapshot of a locked walk needs a condition on other address spaces: two of them share a table, as they share
 * the kernel half, and each call holds the semaphore of its own address space only.
 */
module TornWalk {
  import opened Words
  import opened Radix
  import opened Paging
  import opened Walk
  import opened Unrolled
  import opened Wrappers
  import opened Kernel
  import opened KernelModule
  import opened Locks

  /** An entry is none if it is 0; nothing is bad or large. */
  const NULLS := Macros((l: Level, w: Word) => w == 0, (l: Level, w: Word) => false, (l: Level, w: Word) => false)

  const ROOTS: map<nat, nat> := map[0 := 0x1000, 1 := 0x2000]

  /** Both roots lead to the table at 0x3000, it to the one at 0x4000, and that one to a page table. */
  predicate Shared(m: Memory) {
    m[0x1000] == m[0x2000] == 0x3001 && m[0x3000] == 0x4001 && m[0x4000] == 0x5001 && m[0] == 0
  }

  function LevelOf(n: nat): Level {
    match n
    case 0 => PGD
    case 1 => P4D
    case 2 => PUD
    case 3 => PMD
    case _ => PTE
  }

  /** The slots of the first page's walk; the missing P4D level has the slot of the PGD. */
  function SlotOf(mm: nat, n: nat): nat
    requires mm in ROOTS
  {
    match n
    case 0 => ROOTS[mm]
    case 1 => ROOTS[mm]
    case 2 => 0x3000
    case 3 => 0x4000
    case _ => 0x5000
  }

  /** A walk of the first page after `n` accepted levels. */
  function WalkedTo(mm: nat, purpose: Purpose, n: nat): (p: Phase)
    requires mm in ROOTS && n <= 5
    ensures p.Walking? && p.mm == mm && p.addr == 0 && p.purpose == purpose && p.done == (n == 5)
    ensures p.at == if n == 0 then Top else On(LevelOf(n - 1), SlotOf(mm, n - 1))
    ensures p.foreign == p.late == {} && forall x :: x in p.seen <==> exists i: nat :: i < n && SlotOf(mm, i) == x
  {
    if n == 0 then Begin(mm, 0, purpose)
    else Read(WalkedTo(mm, purpose, n - 1), LevelOf(n - 1), SlotOf(mm, n - 1), true)
  }

  lemma {:induction false} FirstIndex(l: Level)
    ensures X86_64.Index(0, l) == 0
  {
    DigitIsRemainder(0, X86_64.Shift(l), X86_64.Bits(l));
    hide Pow2;
    DivAndMod(0, Pow2(X86_64.Shift(l)), 0, 0);
    DivAndMod(0, Pow2(X86_64.Bits(l)), 0, 0);
  }

  lemma {:induction false} Pointers()
    ensures PfnBase(X86, 0x3001) == 0x3000 && PfnBase(X86, 0x4001) == 0x4000 && PfnBase(X86, 0x5001) == 0x5000
        && PfnBase(X86, 0) == 0
  {
    assert AsNat(3) == 3 && AsNat(4) == 4 && AsNat(5) == 5 && AsNat(0) == 0;
    assert GetPfn(X86, 0x3001) == 3 && GetPfn(X86, 0x4001) == 4 && GetPfn(X86, 0x5001) == 5 && GetPfn(X86, 0) == 0;
  }

  /** The slot the next level is read from. */
  lemma {:induction false} NextSlot(m: Memory, mm: nat, n: nat)
    requires Shared(m) && mm in ROOTS && 0 < n < 5
    ensures KernelSlot(X86_64, Step(LevelOf(n - 1), SlotOf(mm, n - 1), m[SlotOf(mm, n - 1)]), 0, LevelOf(n))
        == SlotOf(mm, n)
    ensures Accepts(NULLS, LevelOf(n), m[SlotOf(mm, n)], m[SlotOf(mm, n - 1)])
  {
    hide PfnBase, Definition.Index;
    Pointers();
    FirstIndex(LevelOf(n));
    assert n == 1 || n == 2 || n == 3 || n == 4;
  }

  /** One more level is read as planned. */
  lemma {:induction false} ReadsNext(m: Memory, mm: nat, purpose: Purpose, n: nat)
    requires Shared(m) && mm in ROOTS && n < 5
    ensures ReadOn(WalkedTo(mm, purpose, n), m, X86_64, NULLS, ROOTS[mm]) == WalkedTo(mm, purpose, n + 1)
  {
    hide KernelSlot, WithSlot, Definition.Index;
    if n == 0 {
      FirstIndex(PGD);
    } else {
      NextSlot(m, mm, n);
      assert Locks.Below(LevelOf(n - 1)) == LevelOf(n);
    }
  }

  /** What such a walk has found. */
  lemma {:induction false} FoundSoFar(mm: nat, purpose: Purpose, n: nat, l: Level)
    requires mm in ROOTS && n <= 5
    ensures l in WalkedTo(mm, purpose, n).vm.valid <==> Rank(l) < n
    ensures WalkedTo(mm, purpose, n).vm.At(l) == if Rank(l) < n then Some(SlotOf(mm, Rank(l))) else None
  {
    hide WithSlot;
    if n > 0 {
      FoundSoFar(mm, purpose, n - 1, l);
      WithSlotAt(WalkedTo(mm, purpose, n - 1).vm, LevelOf(n - 1), SlotOf(mm, n - 1));
    }
  }

  lemma {:induction false} FirstStep(m: Memory, mm: nat)
    requires Shared(m) && mm in ROOTS
    ensures KernelStep(m, X86_64, NULLS, ROOTS[mm], 0, PGD) == Some(Step(PGD, ROOTS[mm], m[ROOTS[mm]]))
  {
    hide Definition.Index;
    FirstIndex(PGD);
  }

  lemma {:induction false} StepsOfShared(m: Memory, mm: nat, n: nat)
    requires Shared(m) && mm in ROOTS && n < 5
    ensures KernelStep(m, X86_64, NULLS, ROOTS[mm], 0, LevelOf(n))
        == Some(Step(LevelOf(n), SlotOf(mm, n), m[SlotOf(mm, n)]))
  {
    hide KernelSlot, KernelStep, SlotsRead, Accepts, Shared;
    if n == 0 {
      FirstStep(m, mm);
    } else {
      StepsOfShared(m, mm, n - 1);
      NextSlot(m, mm, n);
      assert Above(LevelOf(n)) == LevelOf(n - 1);
      ReadBelow(m, X86_64, NULLS, ROOTS[mm], 0, LevelOf(n),
          Step(LevelOf(n - 1), SlotOf(mm, n - 1), m[SlotOf(mm, n - 1)]));
    }
  }

  // ---- building the run ----

  lemma {:induction false} StepRun(s: State, a: Action)
    requires Enabled(s, a)
    ensures IsRun([s, After(s, X86_64, NULLS, a)], [a], X86_64, NULLS)
  {
    hide Enabled, After;
  }

  lemma {:induction false} JoinRuns(ss: seq<State>, acts: seq<Action>, tt: seq<State>, more: seq<Action>)
    requires IsRun(ss, acts, X86_64, NULLS) && IsRun(tt, more, X86_64, NULLS) && ss[|ss| - 1] == tt[0]
    ensures IsRun(ss + tt[1..], acts + more, X86_64, NULLS)
    ensures (ss + tt[1..])[0] == ss[0] && (ss + tt[1..])[|acts| + |more|] == tt[|more|]
  {
    hide Enabled, After;
    var all, actions := ss + tt[1..], acts + more;
    forall i | 0 <= i < |actions|
        ensures Enabled(all[i], actions[i]) && all[i + 1] == After(all[i], X86_64, NULLS, actions[i]) {
      if i >= |acts| {
        assert actions[i] == more[i - |acts|] && all[i] == tt[i - |acts|] && all[i + 1] == tt[i - |acts| + 1];
      }
    }
  }

  /** Every state holds one of two memories. */
  ghost predicate Holds(ss: seq<State>, m: Memory, m': Memory) {
    forall j :: 0 <= j < |ss| ==> (ss[j].mem == m || ss[j].mem == m') && ss[j].roots == ROOTS
  }

  /** A run extended by one action. */
  lemma {:induction false} Extend(ss: seq<State>, acts: seq<Action>, a: Action, m: Memory, m': Memory)
      returns (ss': seq<State>)
    requires IsRun(ss, acts, X86_64, NULLS) && Enabled(ss[|acts|], a) && Holds(ss, m, m')
    requires var s := After(ss[|acts|], X86_64, NULLS, a); (s.mem == m || s.mem == m') && s.roots == ROOTS
    ensures IsRun(ss', acts + [a], X86_64, NULLS) && Holds(ss', m, m') && ss'[0] == ss[0]
    ensures ss'[|acts| + 1] == After(ss[|acts|], X86_64, NULLS, a) && ss'[|acts|] == ss[|acts|]
  {
    hide Enabled, After;
    var s := After(ss[|acts|], X86_64, NULLS, a);
    StepRun(ss[|acts|], a);
    JoinRuns(ss, acts, [ss[|acts|], s], [a]);
    assert [ss[|acts|], s][1..] == [s];
    ss' := ss + [s];
  }

  /** A run extended by reading levels until `n` are read. */
  lemma {:induction false} ReadTo(ss: seq<State>, acts: seq<Action>, tid: nat, mm: nat, purpose: Purpose, i: nat,
      n: nat, m: Memory, m': Memory)
      returns (ss': seq<State>, acts': seq<Action>)
    requires i <= n <= 5 && mm in ROOTS && Shared(m)
    requires IsRun(ss, acts, X86_64, NULLS) && Holds(ss, m, m') && ss[|acts|].mem == m
    requires tid in ss[|acts|].threads && ss[|acts|].threads[tid] == WalkedTo(mm, purpose, i)
    ensures IsRun(ss', acts', X86_64, NULLS) && Holds(ss', m, m') && ss'[0] == ss[0]
    ensures ss'[|acts'|] == ss[|acts|].(threads := ss[|acts|].threads[tid := WalkedTo(mm, purpose, n)])
    decreases n - i
  {
    hide ReadOn, WalkedTo, Shared;
    var s := ss[|acts|];
    ss', acts' := ss, acts;
    assert s.threads == s.threads[tid := s.threads[tid]];
    if i < n {
      ReadsNext(m, mm, purpose, i);
      var s' := s.(threads := s.threads[tid := WalkedTo(mm, purpose, i + 1)]);
      assert s.roots == ROOTS;
      assert Enabled(s, ReadLevel(tid)) && After(s, X86_64, NULLS, ReadLevel(tid)) == s';
      var tt := Extend(ss, acts, ReadLevel(tid), m, m');
      ss', acts' := ReadTo(tt, acts + [ReadLevel(tid)], tid, mm, purpose, i + 1, n, m, m');
      assert s'.threads[tid := WalkedTo(mm, purpose, n)] == s.threads[tid := WalkedTo(mm, purpose, n)];
    }
  }

  // ---- the run ----

  /** The update stores 0 in the shared table, at the PUD level of the first page. */
  const ERASE := Entry(0, 0, 0, 0, 0, {PUD})

  function Erased(m: Memory): Memory {
    Put(m, 0x3000, 0)
  }

  /** Thread 2 has walked address space 1. */
  lemma {:induction false} UpdaterWalks(m: Memory) returns (ss: seq<State>, acts: seq<Action>)
    requires Shared(m)
    ensures IsRun(ss, acts, X86_64, NULLS) && Holds(ss, m, Erased(m)) && ss[0] == State(m, ROOTS, map[], map[])
    ensures var s := ss[|acts|];
            && s.mem == m && s.threads == map[2 := WalkedTo(1, Updating(ERASE), 5)] && !s.SemOf(0).writer
  {
    hide ReadOn, WalkedTo, Shared, Erased;
    ss, acts := [State(m, ROOTS, map[], map[])], [];
    ss := Extend(ss, acts, BeginUpdate(2, 1, 0, ERASE), m, Erased(m));
    acts := acts + [BeginUpdate(2, 1, 0, ERASE)];
    StartsAt(1, Updating(ERASE));
    ss, acts := ReadTo(ss, acts, 2, 1, Updating(ERASE), 0, 5, m, Erased(m));
  }

  /** Thread 2 is about to store its PUD. */
  lemma {:induction false} UpdaterLocates(m: Memory) returns (ss: seq<State>, acts: seq<Action>)
    requires Shared(m)
    ensures IsRun(ss, acts, X86_64, NULLS) && Holds(ss, m, Erased(m)) && ss[0] == State(m, ROOTS, map[], map[])
    ensures var s := ss[|acts|];
            && s.mem == m && s.threads == map[2 := Storing(1, WalkedTo(1, Updating(ERASE), 5).vm, ERASE, Some(PUD))]
            && !s.SemOf(0).writer
  {
    hide ReadOn, WalkedTo, Shared, Erased;
    ss, acts := UpdaterWalks(m);
    ss := Extend(ss, acts, EndWalk(2), m, Erased(m));
    acts := acts + [EndWalk(2)];
    ss, acts := SkipsLevel(ss, acts, PGD, m);
    ss, acts := SkipsLevel(ss, acts, P4D, m);
  }

  /** A level that the update does not store. */
  lemma {:induction false} SkipsLevel(ss: seq<State>, acts: seq<Action>, l: Level, m: Memory)
      returns (ss': seq<State>, acts': seq<Action>)
    requires IsRun(ss, acts, X86_64, NULLS) && Holds(ss, m, Erased(m)) && l !in ERASE.valid && l != PTE
    requires var s := ss[|acts|];
             && s.mem == m && s.threads == map[2 := Storing(1, WalkedTo(1, Updating(ERASE), 5).vm, ERASE, Some(l))]
             && !s.SemOf(0).writer
    ensures IsRun(ss', acts', X86_64, NULLS) && Holds(ss', m, Erased(m)) && ss'[0] == ss[0]
    ensures var s := ss'[|acts'|];
            && s.mem == m && !s.SemOf(0).writer
            && s.threads == map[2 := Storing(1, WalkedTo(1, Updating(ERASE), 5).vm, ERASE, Some(Locks.Below(l)))]
  {
    hide WalkedTo, Shared, Erased;
    ss' := Extend(ss, acts, StoreLevel(2), m, Erased(m));
    acts' := acts + [StoreLevel(2)];
  }

  lemma {:induction false} StartsAt(mm: nat, purpose: Purpose)
    requires mm in ROOTS
    ensures WalkedTo(mm, purpose, 0) == Begin(mm, 0, purpose)
  {
  }

  /** Thread 1 has followed the shared table before thread 2 stores to it. */
  lemma {:induction false} WalkerFollows(m: Memory) returns (ss: seq<State>, acts: seq<Action>)
    requires Shared(m)
    ensures IsRun(ss, acts, X86_64, NULLS) && Holds(ss, m, Erased(m)) && ss[0] == State(m, ROOTS, map[], map[])
    ensures var s := ss[|acts|];
            && s.mem == m && 1 in s.threads && s.threads[1] == WalkedTo(0, Resolving, 3)
            && 2 in s.threads && s.threads[2] == Storing(1, WalkedTo(1, Updating(ERASE), 5).vm, ERASE, Some(PUD))
  {
    hide ReadOn, WalkedTo, Shared, Erased;
    ss, acts := UpdaterLocates(m);
    ss := Extend(ss, acts, BeginResolve(1, 0, 0), m, Erased(m));
    acts := acts + [BeginResolve(1, 0, 0)];
    StartsAt(0, Resolving);
    ss, acts := ReadTo(ss, acts, 1, 0, Resolving, 0, 3, m, Erased(m));
  }

  /** The walk after the store to a slot that it has read. */
  function Overtaken(): (p: Phase)
    ensures p.Walking? && p.vm == WalkedTo(0, Resolving, 3).vm && p.mm == 0 && p.addr == 0 && !p.done
  {
    var p := WalkedTo(0, Resolving, 3);
    assert p.Walking?;
    p.(foreign := {0x3000})
  }

  /** The store reaches a slot that thread 1 has read. */
  lemma {:induction false} EraseStep(s: State, m: Memory)
    requires Shared(m) && s.mem == m && 1 in s.threads && s.threads[1] == WalkedTo(0, Resolving, 3)
    requires 2 in s.threads && s.threads[2] == Storing(1, WalkedTo(1, Updating(ERASE), 5).vm, ERASE, Some(PUD))
    ensures Enabled(s, StoreLevel(2))
    ensures var s' := After(s, X86_64, NULLS, StoreLevel(2));
            && s'.mem == Erased(m) && s'.roots == s.roots && 1 in s'.threads
            && s'.threads[1] == Overtaken()
  {
    hide WalkedTo, Put;
    FoundSoFar(1, Updating(ERASE), 5, PUD);
    assert SlotOf(0, 2) == 0x3000;
  }

  /** The walk goes on from the erased entry and stops. */
  lemma {:induction false} StopsBelowErased(m: Memory)
    requires Shared(m)
    ensures var p := ReadOn(Overtaken(), Erased(m), X86_64, NULLS, ROOTS[0]);
            p.Walking? && p.done && p.mm == 0 && p.addr == 0 && p.vm == WalkedTo(0, Resolving, 3).vm
  {
    hide WalkedTo, PfnBase, Definition.Index;
    Pointers();
    FirstIndex(PMD);
    assert SlotOf(0, 2) == 0x3000 && LevelOf(2) == PUD;
    assert KernelSlot(X86_64, Step(PUD, 0x3000, 0), 0, PMD) == 0;
  }

  /** Before the store the walk finds more, and after it less. */
  lemma {:induction false} FoundInNeither(m: Memory)
    requires Shared(m)
    ensures !Found(WalkedTo(0, Resolving, 3).vm, m, X86_64, NULLS, ROOTS[0], 0)
    ensures !Found(WalkedTo(0, Resolving, 3).vm, Erased(m), X86_64, NULLS, ROOTS[0], 0)
  {
    hide WalkedTo, KernelStep, Vm.At;
    FoundSoFar(0, Resolving, 3, PMD);
    FoundSoFar(0, Resolving, 3, PUD);
    StepsOfShared(m, 0, 3);
    ErasedStops(m);
  }

  lemma {:induction false} ErasedStops(m: Memory)
    requires Shared(m)
    ensures KernelStep(Erased(m), X86_64, NULLS, ROOTS[0], 0, PUD).None?
  {
    hide PfnBase, Definition.Index, Slot;
    Pointers();
    FirstIndex(PGD);
    FirstIndex(PUD);
    SmallSlots();
  }

  lemma {:induction false} SmallSlots()
    ensures Slot(0x1000, 0) == 0x1000 && Slot(0x3000, 0) == 0x3000
  {
  }

  lemma {:induction false} ReadStep(s: State, tid: nat)
    requires tid in s.threads && s.threads[tid].Walking? && !s.threads[tid].done && s.threads[tid].mm in s.roots
    ensures Enabled(s, ReadLevel(tid))
    ensures var s', p := After(s, X86_64, NULLS, ReadLevel(tid)), s.threads[tid];
            && s'.mem == s.mem && s'.roots == s.roots && tid in s'.threads
            && s'.threads[tid] == ReadOn(p, s.mem, X86_64, NULLS, s.roots[p.mm])
  {
    hide ReadOn;
  }

  lemma {:induction false} WalkerStops(m: Memory) returns (ss: seq<State>, acts: seq<Action>)
    requires Shared(m)
    ensures IsRun(ss, acts, X86_64, NULLS) && Holds(ss, m, Erased(m)) && ss[0] == State(m, ROOTS, map[], map[])
    ensures var s := ss[|acts|];
            && s.mem == Erased(m) && 1 in s.threads
            && s.threads[1] == ReadOn(Overtaken(), Erased(m), X86_64, NULLS, ROOTS[0])
  {
    hide ReadOn, Overtaken, Shared, Erased, After, Enabled;
    ss, acts := WalkerFollows(m);
    EraseStep(ss[|acts|], m);
    ss := Extend(ss, acts, StoreLevel(2), m, Erased(m));
    acts := acts + [StoreLevel(2)];
    ReadStep(ss[|acts|], 1);
    ss := Extend(ss, acts, ReadLevel(1), m, Erased(m));
    acts := acts + [ReadLevel(1)];
  }

  /**
   * On every memory with such a shared table there is a run in which a locked walk of one address space ends with slots
   * and levels that are those of no memory of the run, because the other one erased a slot that it had followed.
   */
  lemma {:induction false} LockedWalkIsTorn(m: Memory) returns (ss: seq<State>, acts: seq<Action>)
    requires Shared(m)
    ensures IsRun(ss, acts, X86_64, NULLS) && Initial(ss[0]) && acts != [] && acts[|acts| - 1] == EndWalk(1)
    ensures var s := ss[|acts| - 1];
            && 1 in s.threads && s.threads[1].Walking? && s.threads[1].mm == 0 && s.threads[1].addr == 0
            && forall j :: 0 <= j < |ss| ==>
                 ss[j].roots == ROOTS && !Found(s.threads[1].vm, ss[j].mem, X86_64, NULLS, ROOTS[0], 0)
  {
    hide ReadOn, WalkedTo, Shared, Erased, Found, Overtaken;
    ss, acts := WalkerStops(m);
    StopsBelowErased(m);
    ss := Extend(ss, acts, EndWalk(1), m, Erased(m));
    acts := acts + [EndWalk(1)];
    FoundInNeither(m);
  }
}
