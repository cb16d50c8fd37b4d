/** Runs of the module's calls: when a locked walk is a snapshot of the tables, and what calls that run alone do. */
module LockRuns {
  import opened Paging
  import opened Walk
  import opened Unrolled
  import opened Wrappers
  import opened Kernel
  import opened KernelModule
  import opened Locks

  // ---- a condition on the updates of other address spaces ----

  /** If a thread updates another address space, it has located none of the slots that walking `addr` in `mm` reads. */
  ghost predicate LocatesApart(s: State, d: Definition, k: Macros, other: nat, mm: nat, addr: nat) {
    other in s.threads && s.threads[other].Storing? && s.threads[other].mm != mm && mm in s.roots ==>
      forall l :: l in s.threads[other].entry.valid && s.threads[other].found.At(l).Some? ==>
        s.threads[other].found.At(l).value !in SlotsRead(s.mem, d, k, s.roots[mm], addr, PTE)
  }

  predicate WalksUntouched(s: State, tid: nat, mm: nat, addr: nat) {
    tid in s.threads && s.threads[tid].Walking? && s.threads[tid].mm == mm && s.threads[tid].addr == addr ==>
      s.threads[tid].foreign == s.threads[tid].late == {}
  }

  lemma {:induction false} SeenAreRead(p: Phase, m: Memory, d: Definition, k: Macros, root: nat)
    requires p.Walking? && Sees(p, m, d, k, root)
    ensures p.seen <= SlotsRead(m, d, k, root, p.addr, PTE)
  {
    hide SlotsRead, Found, Descended;
    if !p.done && p.at.On? {
      ReadAbove(m, d, k, root, p.addr, PTE, p.at.level);
    }
  }

  lemma {:induction false} StoreLeavesUntouched(s: State, d: Definition, k: Macros, other: nat, tid: nat, mm: nat,
      addr: nat)
    requires Safe(s, d, k) && Enabled(s, StoreLevel(other)) && LocatesApart(s, d, k, other, mm, addr)
    requires WalksUntouched(s, tid, mm, addr)
    ensures WalksUntouched(After(s, d, k, StoreLevel(other)), tid, mm, addr)
  {
    hide Counted, Sees, SlotsRead, Put, Entry.At, Vm.At;
    if tid in s.threads && s.threads[tid].Walking? && s.threads[tid].mm == mm && s.threads[tid].addr == addr {
      assert Snapshot(s, d, k, s.threads[tid]);
      SeenAreRead(s.threads[tid], s.mem, d, k, s.roots[mm]);
    }
  }

  lemma {:induction false} OthersLeaveUntouched(s: State, d: Definition, k: Macros, a: Action, tid: nat, mm: nat,
      addr: nat)
    requires Enabled(s, a) && !a.StoreLevel? && WalksUntouched(s, tid, mm, addr)
    ensures WalksUntouched(After(s, d, k, a), tid, mm, addr)
  {
    hide Slot, KernelSlot, Accepts, WithSlot;
  }

  /** So far no state had an update of another address space that locates a slot of this walk. */
  ghost predicate ApartUntil(ss: seq<State>, d: Definition, k: Macros, mm: nat, addr: nat, i: nat)
    requires i <= |ss|
  {
    forall j, other :: 0 <= j < i ==> LocatesApart(ss[j], d, k, other, mm, addr)
  }

  lemma {:induction false} WalkIsUntouched(ss: seq<State>, acts: seq<Action>, d: Definition, k: Macros, i: nat,
      tid: nat, mm: nat, addr: nat)
    requires IsRun(ss, acts, d, k) && Initial(ss[0]) && i < |ss| && ApartUntil(ss, d, k, mm, addr, i)
    ensures WalksUntouched(ss[i], tid, mm, addr)
    decreases i
  {
    hide Safe, Enabled, After, LocatesApart;
    if i > 0 {
      WalkIsUntouched(ss, acts, d, k, i - 1, tid, mm, addr);
      RunsAreSafe(ss, acts, d, k, i - 1);
      var a := acts[i - 1];
      if a.StoreLevel? {
        StoreLeavesUntouched(ss[i - 1], d, k, a.tid, tid, mm, addr);
      } else {
        OthersLeaveUntouched(ss[i - 1], d, k, a, tid, mm, addr);
      }
    }
  }

  /**
   * With any number of address spaces: if no update of another one locates a slot that the walk reads, the slots and
   * levels that the locked walk has found are those of one memory state.
   */
  lemma {:induction false} LockedWalkIsSnapshotApart(ss: seq<State>, acts: seq<Action>, d: Definition, k: Macros,
      i: nat, tid: nat)
    requires IsRun(ss, acts, d, k) && Initial(ss[0]) && i < |acts| && acts[i] == EndWalk(tid)
    requires tid in ss[i].threads && ss[i].threads[tid].Walking?
    requires ApartUntil(ss, d, k, ss[i].threads[tid].mm, ss[i].threads[tid].addr, i)
    ensures ss[i].threads[tid].mm in ss[i].roots
    ensures Found(ss[i].threads[tid].vm, ss[i].mem, d, k, ss[i].roots[ss[i].threads[tid].mm], ss[i].threads[tid].addr)
  {
    hide Found, After, Enabled, LocatesApart;
    WalkIsUntouched(ss, acts, d, k, i, tid, ss[i].threads[tid].mm, ss[i].threads[tid].addr);
    LockedWalkIsCurrent(ss, acts, d, k, i, tid);
  }

  // ---- a call that runs alone ----

  /** The phases of an update by one thread, in terms of the memory `m` in which it began. */
  ghost predicate UpdateGoesOn(p: Phase, now: Memory, m: Memory, d: Definition, k: Macros, root: nat, mm: nat,
      addr: nat, entry: Entry) {
    match p
    case Walking(mm', addr', purpose, _, _, _, _, _, _) =>
      mm' == mm && addr' == addr && purpose == Updating(entry) && now == m && Sees(p, m, d, k, root)
    case Storing(mm', found, entry', next) =>
      && mm' == mm && entry' == entry && Found(found, m, d, k, root, addr)
      && now == StoredBefore(m, d, k, root, addr, entry, next)
    case _ => false
  }

  /** Memory when the stores from level `next` on are still to do. */
  function StoredBefore(m: Memory, d: Definition, k: Macros, root: nat, addr: nat, entry: Entry,
      next: Option<Level>): Memory {
    match next
    case None => KernelUpdated(m, d, k, root, addr, entry)
    case Some(l) => if l == PGD then m else KernelStored(m, d, k, root, addr, entry, Above(l))
  }

  lemma {:induction false} StoreGoesOn(m: Memory, d: Definition, k: Macros, root: nat, addr: nat, entry: Entry,
      found: Vm, l: Level)
    requires Found(found, m, d, k, root, addr)
    ensures StoredBefore(m, d, k, root, addr, entry, NextLevel(l)) ==
            if l in entry.valid && found.At(l).Some?
            then Put(StoredBefore(m, d, k, root, addr, entry, Some(l)), found.At(l).value, entry.At(l))
            else StoredBefore(m, d, k, root, addr, entry, Some(l))
  {
    hide KernelStep, Vm.At, Entry.At, Put;
  }

  /** One step of the only thread at work. */
  lemma {:induction false} UpdateStep(s: State, d: Definition, k: Macros, a: Action, m: Memory, root: nat, mm: nat,
      addr: nat, entry: Entry)
    requires Enabled(s, a) && (a.ReadLevel? || a.EndWalk? || a.StoreLevel?) && mm in s.roots && s.roots[mm] == root
    requires a.tid in s.threads && UpdateGoesOn(s.threads[a.tid], s.mem, m, d, k, root, mm, addr, entry)
    ensures var s' := After(s, d, k, a);
            && s'.roots == s.roots && a.tid in s'.threads
            && UpdateGoesOn(s'.threads[a.tid], s'.mem, m, d, k, root, mm, addr, entry)
  {
    hide Found, Descended, SlotsRead, Slot, KernelSlot, Accepts, WithSlot, Put, KernelStored, Entry.At, Vm.At;
    var p := s.threads[a.tid];
    if a.ReadLevel? {
      if p.at.Top? {
        ReadFirst(p, m, d, k, root);
      } else {
        ReadNext(p, m, d, k, root);
      }
    } else if a.StoreLevel? {
      StoreGoesOn(m, d, k, root, addr, entry, p.found, p.next.value);
    }
  }

  /** All actions of a run are of one thread, whose call ends with the last action. */
  predicate OneCall(acts: seq<Action>, tid: nat) {
    && |acts| >= 2
    && (forall j :: 0 < j < |acts| - 1 ==>
          acts[j] == ReadLevel(tid) || acts[j] == EndWalk(tid) || acts[j] == StoreLevel(tid))
  }

  lemma {:induction false} UpdateUntil(ss: seq<State>, acts: seq<Action>, d: Definition, k: Macros, tid: nat, mm: nat,
      addr: nat, entry: Entry, i: nat)
    requires IsRun(ss, acts, d, k) && OneCall(acts, tid) && acts[0] == BeginUpdate(tid, mm, addr, entry)
        && 0 < i < |acts|
    ensures mm in ss[0].roots && ss[i].roots == ss[0].roots && tid in ss[i].threads
    ensures UpdateGoesOn(ss[i].threads[tid], ss[i].mem, ss[0].mem, d, k, ss[0].roots[mm], mm, addr, entry)
    decreases i
  {
    hide UpdateGoesOn, After, Enabled;
    if i == 1 {
      assert Enabled(ss[0], acts[0]);
      UpdateBegins(ss[0], d, k, tid, mm, addr, entry);
    } else {
      UpdateUntil(ss, acts, d, k, tid, mm, addr, entry, i - 1);
      UpdateStep(ss[i - 1], d, k, acts[i - 1], ss[0].mem, ss[0].roots[mm], mm, addr, entry);
    }
  }

  lemma {:induction false} UpdateBegins(s: State, d: Definition, k: Macros, tid: nat, mm: nat, addr: nat, entry: Entry)
    requires Enabled(s, BeginUpdate(tid, mm, addr, entry))
    ensures mm in s.roots
    ensures var s' := After(s, d, k, BeginUpdate(tid, mm, addr, entry));
            && s'.roots == s.roots && tid in s'.threads
            && UpdateGoesOn(s'.threads[tid], s'.mem, s.mem, d, k, s.roots[mm], mm, addr, entry)
  {
    hide SlotsRead, Descended, Found;
  }

  /**
   * An update that runs alone through these steps leaves the memory of `update_vm`, the UPDATE call of the class
   * `Device`.
   */
  lemma {:induction false} UpdateAlone(ss: seq<State>, acts: seq<Action>, d: Definition, k: Macros, tid: nat, mm: nat,
      addr: nat, entry: Entry)
    requires IsRun(ss, acts, d, k) && OneCall(acts, tid)
    requires acts[0] == BeginUpdate(tid, mm, addr, entry) && acts[|acts| - 1] == EndUpdate(tid)
    ensures mm in ss[0].roots
    ensures ss[|acts|].mem == KernelUpdated(ss[0].mem, d, k, ss[0].roots[mm], addr, entry)
  {
    hide KernelUpdated, Sees, Found;
    var n := |acts| - 1;
    UpdateUntil(ss, acts, d, k, tid, mm, addr, entry, n);
    assert Enabled(ss[n], acts[n]) && ss[n + 1] == After(ss[n], d, k, acts[n]);
  }

  lemma {:induction false} ResolveUntil(ss: seq<State>, acts: seq<Action>, d: Definition, k: Macros, tid: nat, mm: nat,
      addr: nat, i: nat)
    requires IsRun(ss, acts, d, k) && acts != [] && acts[0] == BeginResolve(tid, mm, addr) && 0 < i < |acts|
    requires forall j :: 0 < j < |acts| - 1 ==> acts[j] == ReadLevel(tid)
    ensures mm in ss[0].roots && ss[i].roots == ss[0].roots && ss[i].mem == ss[0].mem && tid in ss[i].threads
    ensures var p := ss[i].threads[tid];
            p.Walking? && p.mm == mm && p.addr == addr && p.purpose == Resolving
                && Sees(p, ss[0].mem, d, k, ss[0].roots[mm])
    decreases i
  {
    hide Found, Descended, SlotsRead, Slot, KernelSlot, Accepts, WithSlot;
    assert Enabled(ss[i - 1], acts[i - 1]) && ss[i] == After(ss[i - 1], d, k, acts[i - 1]);
    if i > 1 {
      ResolveUntil(ss, acts, d, k, tid, mm, addr, i - 1);
      var p := ss[i - 1].threads[tid];
      if p.at.Top? {
        ReadFirst(p, ss[0].mem, d, k, ss[0].roots[mm]);
      } else {
        ReadNext(p, ss[0].mem, d, k, ss[0].roots[mm]);
      }
    }
  }

  /** A resolve that runs alone finds what `resolve_vm`, in the class `Device`, finds. */
  lemma {:induction false} ResolveAlone(ss: seq<State>, acts: seq<Action>, d: Definition, k: Macros, tid: nat, mm: nat,
      addr: nat)
    requires IsRun(ss, acts, d, k) && |acts| >= 2
    requires acts[0] == BeginResolve(tid, mm, addr) && acts[|acts| - 1] == EndWalk(tid)
    requires forall j :: 0 < j < |acts| - 1 ==> acts[j] == ReadLevel(tid)
    ensures mm in ss[0].roots && ss[|acts|].mem == ss[0].mem
    ensures tid in ss[|acts|].threads && ss[|acts|].threads[tid].Copying?
    ensures Found(ss[|acts|].threads[tid].vm, ss[0].mem, d, k, ss[0].roots[mm], addr)
  {
    hide Found, Descended, SlotsRead;
    var n := |acts| - 1;
    ResolveUntil(ss, acts, d, k, tid, mm, addr, n);
    assert Enabled(ss[n], acts[n]) && ss[n + 1] == After(ss[n], d, k, acts[n]);
  }

  /** A SET_ROOT that runs alone replaces the root of its address space and leaves every semaphore as it was. */
  lemma {:induction false} SetRootAlone(ss: seq<State>, d: Definition, k: Macros, tid: nat, mm: nat, root: nat, x: nat)
    requires IsRun(ss, [BeginSetRoot(tid, mm, root), WriteRoot(tid), EndSetRoot(tid)], d, k)
    ensures mm in ss[0].roots && ss[3].roots == ss[0].roots[mm := root] && ss[3].mem == ss[0].mem
    ensures ss[3].threads == ss[0].threads && ss[3].SemOf(x) == ss[0].SemOf(x)
  {
    var acts := [BeginSetRoot(tid, mm, root), WriteRoot(tid), EndSetRoot(tid)];
    assert Enabled(ss[0], acts[0]) && ss[1] == After(ss[0], d, k, acts[0]);
    assert Enabled(ss[1], acts[1]) && ss[2] == After(ss[1], d, k, acts[1]);
    assert Enabled(ss[2], acts[2]) && ss[3] == After(ss[2], d, k, acts[2]);
    assert ss[3].threads == ss[0].threads;
  }
}
