/**
 * The kernel module's calls interleaved: any number of threads resolve, update, and get and set roots, one table level
 * at a time, under the reader/writer semaphore of each address space. All address spaces share one physical memory.
 * `mm_is_locked` is false throughout. A call for an unknown pid returns at once and is not a step.
 */
module Locks {
  import opened Words
  import opened Paging
  import opened Walk
  import opened Unrolled
  import opened Wrappers
  import opened Kernel
  import opened KernelModule

  datatype Purpose = Resolving | Updating(entry: Entry)

  /** How far down a walk is. */
  datatype Place = Top | On(level: Level, slot: nat)

  datatype Phase =
    /**
     * Inside `resolve_vm`. History that no step depends on: `seen`, the slots read so far, and those of them that an
     * update of another address space has changed after they were read, before (`foreign`) and after (`late`) the
     * walk's last read.
     */
    | Walking(mm: nat, addr: nat, purpose: Purpose, vm: Vm, at: Place, done: bool, seen: set<nat>, foreign: set<nat>,
        late: set<nat>)
    /** Inside `update_vm`, with the stores from level `next` on still to do. */
    | Storing(mm: nat, found: Vm, entry: Entry, next: Option<Level>)
    /** Inside `vm_to_user`, after the release. */
    | Copying(vm: Vm)
    | GettingRoot(mm: nat)
    | SettingRoot(mm: nat, root: nat)
    | RootSet(mm: nat)
  {
    predicate HoldsRead(m: nat) {
      (Walking? && purpose.Resolving? && mm == m) || (GettingRoot? && mm == m)
    }

    predicate HoldsWrite(m: nat) {
      (Walking? && purpose.Updating? && mm == m) || (Storing? && mm == m) || (SettingRoot? && mm == m)
          || (RootSet? && mm == m)
    }
  }

  /** A reader/writer semaphore. */
  datatype Sem = Sem(readers: nat, writer: bool)

  const FREE := Sem(0, false)

  datatype State = State(mem: Memory, roots: map<nat, nat>, sems: map<nat, Sem>, threads: map<nat, Phase>) {
    function SemOf(mm: nat): Sem {
      if mm in sems then sems[mm] else FREE
    }

    function ReadHolders(mm: nat): set<nat> {
      set tid | tid in threads && threads[tid].HoldsRead(mm)
    }

    function WriteHolders(mm: nat): set<nat> {
      set tid | tid in threads && threads[tid].HoldsWrite(mm)
    }
  }

  datatype Action =
    | BeginResolve(tid: nat, mm: nat, addr: nat)
    | BeginUpdate(tid: nat, mm: nat, addr: nat, entry: Entry)
    | ReadLevel(tid: nat)
    | EndWalk(tid: nat)
    | StoreLevel(tid: nat)
    | EndUpdate(tid: nat)
    | Copy(tid: nat)
    | BeginGetRoot(tid: nat, mm: nat)
    | EndGetRoot(tid: nat)
    | BeginSetRoot(tid: nat, mm: nat, root: nat)
    | WriteRoot(tid: nat)
    | EndSetRoot(tid: nat)

  predicate CanRead(s: State, mm: nat) {
    !s.SemOf(mm).writer
  }

  predicate CanWrite(s: State, mm: nat) {
    s.SemOf(mm) == FREE
  }

  predicate Enabled(s: State, a: Action) {
    match a
    case BeginResolve(tid, mm, _) => tid !in s.threads && mm in s.roots && CanRead(s, mm)
    case BeginUpdate(tid, mm, _, _) => tid !in s.threads && mm in s.roots && CanWrite(s, mm)
    case ReadLevel(tid) => tid in s.threads && s.threads[tid].Walking? && !s.threads[tid].done
        && s.threads[tid].mm in s.roots
    case EndWalk(tid) => tid in s.threads && s.threads[tid].Walking? && s.threads[tid].done
    case StoreLevel(tid) => tid in s.threads && s.threads[tid].Storing? && s.threads[tid].next.Some?
    case EndUpdate(tid) => tid in s.threads && s.threads[tid].Storing? && s.threads[tid].next.None?
    case Copy(tid) => tid in s.threads && s.threads[tid].Copying?
    case BeginGetRoot(tid, mm) => tid !in s.threads && mm in s.roots && CanRead(s, mm)
    case EndGetRoot(tid) => tid in s.threads && s.threads[tid].GettingRoot?
    case BeginSetRoot(tid, mm, _) => tid !in s.threads && mm in s.roots && CanWrite(s, mm)
    case WriteRoot(tid) => tid in s.threads && s.threads[tid].SettingRoot?
    case EndSetRoot(tid) => tid in s.threads && s.threads[tid].RootSet?
  }

  // ---- one step of each kind ----

  function DownRead(s: State, mm: nat): map<nat, Sem> {
    s.sems[mm := s.SemOf(mm).(readers := s.SemOf(mm).readers + 1)]
  }

  /** `up_read`; the count never is 0 here, see `EndsHold`. */
  function UpRead(s: State, mm: nat): map<nat, Sem> {
    s.sems[mm := s.SemOf(mm).(readers := if s.SemOf(mm).readers == 0 then 0 else s.SemOf(mm).readers - 1)]
  }

  function DownWrite(s: State, mm: nat): map<nat, Sem> {
    s.sems[mm := s.SemOf(mm).(writer := true)]
  }

  function UpWrite(s: State, mm: nat): map<nat, Sem> {
    s.sems[mm := s.SemOf(mm).(writer := false)]
  }

  function Below(l: Level): Level {
    match l
    case PGD => P4D
    case P4D => PUD
    case PUD => PMD
    case PMD => PTE
    case PTE => PTE
  }

  /** The walk reads an entry and accepts it or stops. The entry above is read again from memory, as the macros do. */
  function ReadOn(p: Phase, m: Memory, d: Definition, k: Macros, root: nat): Phase
    requires p.Walking?
  {
    match p.at
    case Top =>
      var slot := Slot(root, d.Index(p.addr, PGD));
      Read(p, PGD, slot, Accepts(k, PGD, m[slot], 0))
    case On(l, above) =>
      var next := Below(l);
      var slot := KernelSlot(d, Step(l, above, m[above]), p.addr, next);
      Read(p, next, slot, Accepts(k, next, m[slot], m[above]))
  }

  function Read(p: Phase, l: Level, slot: nat, accepted: bool): Phase
    requires p.Walking?
  {
    if accepted then p.(vm := WithSlot(p.vm, l, slot), at := On(l, slot), done := l == PTE, seen := p.seen + {slot})
    else p.(done := true, seen := p.seen + {slot})
  }

  /** Another walk's history after a store for address space `mm` that may change the word at `slot`. */
  function Notice(p: Phase, mm: nat, slot: nat, changed: bool): Phase {
    if p.Walking? && p.mm != mm && changed && slot in p.seen then
      if p.done then p.(late := p.late + {slot}) else p.(foreign := p.foreign + {slot})
    else p
  }

  function Begin(mm: nat, addr: nat, purpose: Purpose): Phase {
    Walking(mm, addr, purpose, NOTHING, Top, false, {}, {}, {})
  }

  function NextLevel(l: Level): Option<Level> {
    if l == PTE then None else Some(Below(l))
  }

  function After(s: State, d: Definition, k: Macros, a: Action): State
    requires Enabled(s, a)
  {
    match a
    case BeginResolve(tid, mm, addr) => s.(sems := DownRead(s, mm),
        threads := s.threads[tid := Begin(mm, addr, Resolving)])
    case BeginUpdate(tid, mm, addr, entry) => s.(sems := DownWrite(s, mm),
        threads := s.threads[tid := Begin(mm, addr, Updating(entry))])
    case ReadLevel(tid) =>
      var p := s.threads[tid];
      s.(threads := s.threads[tid := ReadOn(p, s.mem, d, k, s.roots[p.mm])])
    case EndWalk(tid) =>
      var p := s.threads[tid];
      (match p.purpose
       case Resolving => s.(sems := UpRead(s, p.mm), threads := s.threads[tid := Copying(p.vm)])
       case Updating(entry) => s.(threads := s.threads[tid := Storing(p.mm, p.vm, entry, Some(PGD))]))
    case StoreLevel(tid) =>
      var p := s.threads[tid];
      var l := p.next.value;
      var moved := s.threads[tid := p.(next := NextLevel(l))];
      if l in p.entry.valid && p.found.At(l).Some? then
        var slot, w := p.found.At(l).value, p.entry.At(l);
        s.(mem := Put(s.mem, slot, w), threads := map t | t in moved :: Notice(moved[t], p.mm, slot, s.mem[slot] != w))
      else s.(threads := moved)
    case EndUpdate(tid) => s.(sems := UpWrite(s, s.threads[tid].mm), threads := s.threads - {tid})
    case Copy(tid) => s.(threads := s.threads - {tid})
    case BeginGetRoot(tid, mm) => s.(sems := DownRead(s, mm), threads := s.threads[tid := GettingRoot(mm)])
    case EndGetRoot(tid) => s.(sems := UpRead(s, s.threads[tid].mm), threads := s.threads - {tid})
    case BeginSetRoot(tid, mm, root) => s.(sems := DownWrite(s, mm), threads := s.threads[tid := SettingRoot(mm, root)])
    case WriteRoot(tid) =>
      var p := s.threads[tid];
      s.(roots := s.roots[p.mm := p.root], threads := s.threads[tid := RootSet(p.mm)])
    case EndSetRoot(tid) => s.(sems := UpWrite(s, s.threads[tid].mm), threads := s.threads - {tid})
  }

  // ---- the semaphores count their holders ----

  ghost predicate Counted(s: State, mm: nat) {
    && |s.ReadHolders(mm)| == s.SemOf(mm).readers
    && |s.WriteHolders(mm)| == (if s.SemOf(mm).writer then 1 else 0)
    && (s.SemOf(mm).writer ==> s.SemOf(mm).readers == 0)
  }

  predicate Reader(s: State, mm: nat, tid: nat) {
    tid in s.threads && s.threads[tid].HoldsRead(mm)
  }

  predicate Writer(s: State, mm: nat, tid: nat) {
    tid in s.threads && s.threads[tid].HoldsWrite(mm)
  }

  function Count(b: bool): nat {
    if b then 1 else 0
  }

  /** The holds of every thread but `tid` stay as they are. */
  ghost predicate OthersKeep(s: State, s': State, mm: nat, tid: nat) {
    forall t :: t != tid ==> Reader(s', mm, t) == Reader(s, mm, t) && Writer(s', mm, t) == Writer(s, mm, t)
  }

  lemma {:induction false} SetCount(a: set<nat>, b: set<nat>, x: nat)
    requires forall t :: t != x ==> (t in a <==> t in b)
    ensures |b| == |a| - Count(x in a) + Count(x in b)
  {
    assert a - {x} == b - {x};
    assert a == if x in a then (a - {x}) + {x} else a - {x};
    assert b == if x in b then (b - {x}) + {x} else b - {x};
  }

  lemma {:induction false} OnlyOne(a: set<nat>, x: nat, y: nat)
    requires |a| <= 1 && x in a && y in a
    ensures x == y
  {
    assert |a - {x}| == |a| - 1;
    assert a - {x} == {};
  }

  lemma {:induction false} SetsChange(s: State, s': State, mm: nat, tid: nat)
    requires OthersKeep(s, s', mm, tid)
    ensures |s'.ReadHolders(mm)| == |s.ReadHolders(mm)| - Count(Reader(s, mm, tid)) + Count(Reader(s', mm, tid))
    ensures |s'.WriteHolders(mm)| == |s.WriteHolders(mm)| - Count(Writer(s, mm, tid)) + Count(Writer(s', mm, tid))
  {
    HoldersAre(s, mm);
    HoldersAre(s', mm);
    hide Reader, Writer, State.ReadHolders, State.WriteHolders;
    SetCount(s.ReadHolders(mm), s'.ReadHolders(mm), tid);
    SetCount(s.WriteHolders(mm), s'.WriteHolders(mm), tid);
  }

  lemma {:induction false} HoldersAre(s: State, mm: nat)
    ensures forall t :: t in s.ReadHolders(mm) <==> Reader(s, mm, t)
    ensures forall t :: t in s.WriteHolders(mm) <==> Writer(s, mm, t)
  {
    hide Phase.HoldsRead, Phase.HoldsWrite;
  }

  /** The semaphore follows the holds of the acting thread. */
  lemma {:induction false} CountsFollow(s: State, s': State, mm: nat, tid: nat)
    requires Counted(s, mm) && OthersKeep(s, s', mm, tid)
    requires s'.SemOf(mm).readers == s.SemOf(mm).readers - Count(Reader(s, mm, tid)) + Count(Reader(s', mm, tid))
    requires Count(s'.SemOf(mm).writer) == Count(s.SemOf(mm).writer) - Count(Writer(s, mm, tid))
        + Count(Writer(s', mm, tid))
    requires s'.SemOf(mm).writer ==> s'.SemOf(mm).readers == 0
    ensures Counted(s', mm)
  {
    hide Reader, Writer, State.ReadHolders, State.WriteHolders, State.SemOf;
    SetsChange(s, s', mm, tid);
  }

  /** A thread that holds a semaphore is counted, so releasing it never underflows; a writer is alone. */
  lemma {:induction false} HoldersCount(s: State, mm: nat, tid: nat)
    requires Counted(s, mm)
    ensures Reader(s, mm, tid) ==> s.SemOf(mm).readers >= 1 && !s.SemOf(mm).writer
    ensures Writer(s, mm, tid) ==> s.SemOf(mm).readers == 0 && s.SemOf(mm).writer
    ensures forall t :: Writer(s, mm, t) && Writer(s, mm, tid) ==> t == tid
    ensures forall t :: Reader(s, mm, t) ==> !Writer(s, mm, tid)
  {
    HoldersAre(s, mm);
    hide Reader, Writer, State.ReadHolders, State.WriteHolders, State.SemOf;
    var r, w := s.ReadHolders(mm), s.WriteHolders(mm);
    if tid in r {
      assert |r - {tid}| == |r| - 1;
    }
    if tid in w {
      assert |w - {tid}| == |w| - 1;
      forall t | t in w ensures t == tid {
        OnlyOne(w, t, tid);
      }
    }
  }

  lemma {:induction false} NoticeKeepsHolds(p: Phase, mm: nat, slot: nat, changed: bool, m: nat)
    ensures Notice(p, mm, slot, changed).HoldsRead(m) == p.HoldsRead(m)
    ensures Notice(p, mm, slot, changed).HoldsWrite(m) == p.HoldsWrite(m)
  {
  }

  lemma {:induction false} ReadOnKeepsHolds(p: Phase, m: Memory, d: Definition, k: Macros, root: nat, mm: nat)
    requires p.Walking?
    ensures ReadOn(p, m, d, k, root).HoldsRead(mm) == p.HoldsRead(mm)
    ensures ReadOn(p, m, d, k, root).HoldsWrite(mm) == p.HoldsWrite(mm)
  {
    hide Slot, KernelSlot, Accepts, WithSlot;
  }

  lemma {:induction false} WriterExcludes(s: State, mm: nat)
    requires Counted(s, mm)
    ensures s.SemOf(mm).writer ==> s.SemOf(mm).readers == 0
  {
  }

  lemma {:induction false} AcquireReadCounts(s: State, d: Definition, k: Macros, a: Action, mm: nat)
    requires Enabled(s, a) && Counted(s, mm)
    requires a.BeginResolve? || a.BeginGetRoot?
    ensures Counted(After(s, d, k, a), mm)
  {
    hide Counted;
    var s' := After(s, d, k, a);
    WriterExcludes(s, mm);
    assert OthersKeep(s, s', mm, a.tid);
    CountsFollow(s, s', mm, a.tid);
  }

  lemma {:induction false} AcquireWriteCounts(s: State, d: Definition, k: Macros, a: Action, mm: nat)
    requires Enabled(s, a) && Counted(s, mm)
    requires a.BeginUpdate? || a.BeginSetRoot?
    ensures Counted(After(s, d, k, a), mm)
  {
    hide Counted;
    var s' := After(s, d, k, a);
    WriterExcludes(s, mm);
    assert OthersKeep(s, s', mm, a.tid);
    CountsFollow(s, s', mm, a.tid);
  }

  lemma {:induction false} ReleaseReadCounts(s: State, d: Definition, k: Macros, a: Action, mm: nat)
    requires Enabled(s, a) && Counted(s, mm)
    requires a.EndWalk? || a.EndGetRoot?
    ensures Counted(After(s, d, k, a), mm)
  {
    hide Counted;
    var s' := After(s, d, k, a);
    HoldersCount(s, mm, a.tid);
    WriterExcludes(s, mm);
    assert OthersKeep(s, s', mm, a.tid);
    CountsFollow(s, s', mm, a.tid);
  }

  lemma {:induction false} ReleaseWriteCounts(s: State, d: Definition, k: Macros, a: Action, mm: nat)
    requires Enabled(s, a) && Counted(s, mm)
    requires a.EndUpdate? || a.EndSetRoot? || a.WriteRoot? || a.Copy?
    ensures Counted(After(s, d, k, a), mm)
  {
    hide Counted;
    var s' := After(s, d, k, a);
    HoldersCount(s, mm, a.tid);
    WriterExcludes(s, mm);
    assert OthersKeep(s, s', mm, a.tid);
    CountsFollow(s, s', mm, a.tid);
  }

  lemma {:induction false} WorkCounts(s: State, d: Definition, k: Macros, a: Action, mm: nat)
    requires Enabled(s, a) && Counted(s, mm)
    requires a.ReadLevel? || a.StoreLevel?
    ensures Counted(After(s, d, k, a), mm)
  {
    hide Counted, ReadOn, Notice, Put, Vm.At, Entry.At;
    var s' := After(s, d, k, a);
    WriterExcludes(s, mm);
    if a.ReadLevel? {
      ReadOnKeepsHolds(s.threads[a.tid], s.mem, d, k, s.roots[s.threads[a.tid].mm], mm);
    } else {
      forall p: Phase, m: nat, slot: nat, changed: bool
        ensures Notice(p, m, slot, changed).HoldsRead(mm) == p.HoldsRead(mm)
        ensures Notice(p, m, slot, changed).HoldsWrite(mm) == p.HoldsWrite(mm)
      {
        NoticeKeepsHolds(p, m, slot, changed, mm);
      }
    }
    assert OthersKeep(s, s', mm, a.tid);
    CountsFollow(s, s', mm, a.tid);
  }

  lemma {:induction false} ActionCounts(s: State, d: Definition, k: Macros, a: Action, mm: nat)
    requires Enabled(s, a) && Counted(s, mm)
    ensures Counted(After(s, d, k, a), mm)
  {
    hide *;
    if a.ReadLevel? || a.StoreLevel? {
      WorkCounts(s, d, k, a, mm);
    } else if a.BeginResolve? || a.BeginGetRoot? {
      AcquireReadCounts(s, d, k, a, mm);
    } else if a.BeginUpdate? || a.BeginSetRoot? {
      AcquireWriteCounts(s, d, k, a, mm);
    } else if a.EndWalk? || a.EndGetRoot? {
      ReleaseReadCounts(s, d, k, a, mm);
    } else {
      ReleaseWriteCounts(s, d, k, a, mm);
    }
  }

  // ---- what a walk has seen ----

  /** The slots a kernel walk reads down to level `l`: every accepted one and the one it stops at. */
  function SlotsRead(m: Memory, d: Definition, k: Macros, root: nat, addr: nat, l: Level): set<nat>
    decreases Rank(l)
  {
    if l == PGD then {Slot(root, d.Index(addr, PGD))}
    else SlotsRead(m, d, k, root, addr, Above(l))
         + match KernelStep(m, d, k, root, addr, Above(l))
           case Some(above) => {KernelSlot(d, above, addr, l)}
           case None => {}
  }

  lemma {:induction false} StepIsRead(m: Memory, d: Definition, k: Macros, root: nat, addr: nat, l: Level)
    requires KernelStep(m, d, k, root, addr, l).Some?
    ensures KernelStep(m, d, k, root, addr, l).value.slot in SlotsRead(m, d, k, root, addr, l)
  {
    hide Slot, KernelSlot, Accepts;
    if l != PGD {
      KernelAbove(m, d, k, root, addr, l);
    }
  }

  lemma {:induction false} ReadBelow(m: Memory, d: Definition, k: Macros, root: nat, addr: nat, l: Level, above: Step)
    requires l != PGD && KernelStep(m, d, k, root, addr, Above(l)) == Some(above)
    ensures var slot := KernelSlot(d, above, addr, l);
            && SlotsRead(m, d, k, root, addr, l) == SlotsRead(m, d, k, root, addr, Above(l)) + {slot}
            && KernelStep(m, d, k, root, addr, l) == if Accepts(k, l, m[slot], above.word)
                then Some(Step(l, slot, m[slot])) else None
  {
    hide KernelSlot, Slot, Accepts;
  }

  lemma {:induction false} NoneBelow(m: Memory, d: Definition, k: Macros, root: nat, addr: nat, l: Level)
    requires l != PGD && KernelStep(m, d, k, root, addr, Above(l)).None?
    ensures SlotsRead(m, d, k, root, addr, l) == SlotsRead(m, d, k, root, addr, Above(l))
    ensures KernelStep(m, d, k, root, addr, l).None?
  {
    hide KernelSlot, Slot, Accepts;
  }

  lemma {:induction false} UnreadRoot(m: Memory, d: Definition, k: Macros, root: nat, addr: nat, x: nat, w: Word)
    requires x !in SlotsRead(m, d, k, root, addr, PGD)
    ensures KernelStep(Put(m, x, w), d, k, root, addr, PGD) == KernelStep(m, d, k, root, addr, PGD)
    ensures SlotsRead(Put(m, x, w), d, k, root, addr, PGD) == SlotsRead(m, d, k, root, addr, PGD)
  {
    hide Slot, Accepts;
  }

  /** A store to a slot the walk has not read changes nothing of it. */
  lemma {:induction false} UnreadStore(m: Memory, d: Definition, k: Macros, root: nat, addr: nat, x: nat, w: Word,
      l: Level)
    requires x !in SlotsRead(m, d, k, root, addr, l)
    ensures KernelStep(Put(m, x, w), d, k, root, addr, l) == KernelStep(m, d, k, root, addr, l)
    ensures SlotsRead(Put(m, x, w), d, k, root, addr, l) == SlotsRead(m, d, k, root, addr, l)
    decreases Rank(l)
  {
    hide KernelStep, SlotsRead, KernelSlot, Accepts, Put;
    var m' := Put(m, x, w);
    if l == PGD {
      UnreadRoot(m, d, k, root, addr, x, w);
    } else {
      RankAbove(l);
      ReadAbove(m, d, k, root, addr, l, Above(l));
      UnreadStore(m, d, k, root, addr, x, w, Above(l));
      match KernelStep(m, d, k, root, addr, Above(l))
      case None =>
        NoneBelow(m, d, k, root, addr, l);
        NoneBelow(m', d, k, root, addr, l);
      case Some(above) =>
        ReadBelow(m, d, k, root, addr, l, above);
        ReadBelow(m', d, k, root, addr, l, above);
        OtherSlot(m, x, w, KernelSlot(d, above, addr, l));
    }
  }

  lemma {:induction false} ReadAbove(m: Memory, d: Definition, k: Macros, root: nat, addr: nat, l: Level, l': Level)
    requires Rank(l') <= Rank(l)
    ensures SlotsRead(m, d, k, root, addr, l') <= SlotsRead(m, d, k, root, addr, l)
    decreases Rank(l)
  {
    hide KernelStep, KernelSlot, Slot;
    if l' != l {
      assert l != PGD;
      ReadAbove(m, d, k, root, addr, Above(l), l');
    }
  }

  /** The walk so far is the walk of memory `m`: what it has found, and what it has read to find it. */
  ghost predicate Sees(p: Phase, m: Memory, d: Definition, k: Macros, root: nat)
    requires p.Walking?
  {
    if p.done then Found(p.vm, m, d, k, root, p.addr) && p.seen == SlotsRead(m, d, k, root, p.addr, PTE)
    else match p.at
      case Top => p.vm == NOTHING && p.seen == {}
      case On(l, slot) =>
        && l != PTE && p.seen == SlotsRead(m, d, k, root, p.addr, l)
        && Descended(p.vm, Step(l, slot, m[slot]), l, m, d, k, root, p.addr)
  }

  lemma {:induction false} BelowIsNext(l: Level)
    requires l != PTE
    ensures Above(Below(l)) == l && Below(l) != PGD && Rank(Below(l)) == Rank(l) + 1
  {
  }

  /** A walk that stops at level `l` has read all it ever will. */
  lemma {:induction false} NothingReadBelow(m: Memory, d: Definition, k: Macros, root: nat, addr: nat, l: Level,
      l': Level)
    requires KernelStep(m, d, k, root, addr, l).None? && Rank(l) <= Rank(l')
    ensures KernelStep(m, d, k, root, addr, l').None?
    ensures SlotsRead(m, d, k, root, addr, l') == SlotsRead(m, d, k, root, addr, l)
    decreases Rank(l')
  {
    hide KernelStep, SlotsRead;
    if l' != l {
      assert l' != PGD && Rank(l) <= Rank(Above(l'));
      NothingReadBelow(m, d, k, root, addr, l, Above(l'));
      NoneBelow(m, d, k, root, addr, l');
    }
  }

  lemma {:induction false} ReadFirst(p: Phase, m: Memory, d: Definition, k: Macros, root: nat)
    requires p.Walking? && !p.done && p.at.Top? && Sees(p, m, d, k, root)
    ensures Sees(ReadOn(p, m, d, k, root), m, d, k, root)
  {
    hide Slot, Accepts, Descended, Found, WithSlot;
    var slot := Slot(root, d.Index(p.addr, PGD));
    DescendedToPgd(slot, m[slot], m, d, k, root, p.addr);
    if !Accepts(k, PGD, m[slot], 0) {
      NothingReadBelow(m, d, k, root, p.addr, PGD, PTE);
    }
  }

  lemma {:induction false} ReadNext(p: Phase, m: Memory, d: Definition, k: Macros, root: nat)
    requires p.Walking? && !p.done && p.at.On? && Sees(p, m, d, k, root)
    ensures Sees(ReadOn(p, m, d, k, root), m, d, k, root)
  {
    hide Slot, KernelSlot, Accepts, Found, WithSlot, Descended, KernelStep;
    var l, above := p.at.level, Step(p.at.level, p.at.slot, m[p.at.slot]);
    var next := Below(l);
    var slot := KernelSlot(d, above, p.addr, next);
    BelowIsNext(l);
    Descend(p.vm, above, next, slot, m[slot], m, d, k, root, p.addr);
    AtDescended(p.vm, above, l, m, d, k, root, p.addr);
    assert SlotsRead(m, d, k, root, p.addr, next) == p.seen + {slot};
    if Accepts(k, next, m[slot], above.word) {
      if next == PTE {
        DescendedToPte(WithSlot(p.vm, next, slot), Step(next, slot, m[slot]), m, d, k, root, p.addr);
      }
    } else {
      Rejected(m, d, k, root, p.addr, next, above);
      NothingReadBelow(m, d, k, root, p.addr, next, PTE);
    }
  }

  lemma {:induction false} AtDescended(vm: Vm, at: Step, l: Level, m: Memory, d: Definition, k: Macros, root: nat,
      addr: nat)
    requires Descended(vm, at, l, m, d, k, root, addr)
    ensures KernelStep(m, d, k, root, addr, l) == Some(at)
  {
  }

  lemma {:induction false} Rejected(m: Memory, d: Definition, k: Macros, root: nat, addr: nat, l: Level, above: Step)
    requires l != PGD && KernelStep(m, d, k, root, addr, Above(l)) == Some(above)
    requires var slot := KernelSlot(d, above, addr, l); !Accepts(k, l, m[slot], above.word)
    ensures KernelStep(m, d, k, root, addr, l).None?
  {
    hide KernelSlot, Accepts;
  }

  /** A walk goes on seeing a memory in which only slots it has not read are overwritten. */
  lemma {:induction false} SeesAfterStore(p: Phase, m: Memory, d: Definition, k: Macros, root: nat, x: nat, w: Word)
    requires p.Walking? && Sees(p, m, d, k, root) && x !in p.seen
    ensures Sees(p, Put(m, x, w), d, k, root)
  {
    hide KernelStep, SlotsRead, Vm.At, Put;
    if p.done {
      forall l ensures KernelStep(Put(m, x, w), d, k, root, p.addr, l) == KernelStep(m, d, k, root, p.addr, l) {
        ReadAbove(m, d, k, root, p.addr, PTE, l);
        UnreadStore(m, d, k, root, p.addr, x, w, l);
      }
      UnreadStore(m, d, k, root, p.addr, x, w, PTE);
    } else if p.at.On? {
      var l := p.at.level;
      StepIsRead(m, d, k, root, p.addr, l);
      OtherSlot(m, x, w, p.at.slot);
      UnreadStore(m, d, k, root, p.addr, x, w, l);
      forall l' | Rank(l') <= Rank(l)
        ensures KernelStep(Put(m, x, w), d, k, root, p.addr, l') == KernelStep(m, d, k, root, p.addr, l')
      {
        ReadAbove(m, d, k, root, p.addr, l, l');
        UnreadStore(m, d, k, root, p.addr, x, w, l');
      }
    }
  }

  lemma {:induction false} OtherSlot(m: Memory, x: nat, w: Word, y: nat)
    requires x != y
    ensures Put(m, x, w)[y] == m[y]
  {
  }

  // ---- every action keeps the locked walks consistent ----

  /** Unless an update of another address space changed a slot the walk had read, the walk is that of the memory now. */
  ghost predicate Snapshot(s: State, d: Definition, k: Macros, p: Phase) {
    p.Walking? ==>
      && p.mm in s.roots && (!p.done ==> p.late == {})
      && (p.foreign == {} && p.late == {} ==> Sees(p, s.mem, d, k, s.roots[p.mm]))
  }

  ghost predicate Safe(s: State, d: Definition, k: Macros) {
    && (forall mm: nat :: Counted(s, mm))
    && forall tid :: tid in s.threads ==> Snapshot(s, d, k, s.threads[tid])
  }

  /** While a thread walks the tables of an address space, no thread stores to them or sets their root. */
  lemma {:induction false} WalksExcludeStores(s: State, d: Definition, k: Macros, walker: nat, other: nat)
    requires Safe(s, d, k) && walker in s.threads && s.threads[walker].Walking?
    requires other in s.threads && (s.threads[other].Storing? || s.threads[other].SettingRoot?)
    ensures s.threads[other].mm != s.threads[walker].mm
  {
    hide Counted, Snapshot;
    var mm := s.threads[other].mm;
    var held := s.threads[walker].mm;
    assert Reader(s, held, walker) || Writer(s, held, walker);
    assert Writer(s, mm, other);
    HoldersCount(s, mm, other);
  }

  lemma {:induction false} ReadLevelKeeps(s: State, d: Definition, k: Macros, tid: nat, t: nat)
    requires Safe(s, d, k) && Enabled(s, ReadLevel(tid)) && t in s.threads
    ensures Snapshot(After(s, d, k, ReadLevel(tid)), d, k, After(s, d, k, ReadLevel(tid)).threads[t])
  {
    hide Counted, Sees, Slot, KernelSlot, Accepts, WithSlot;
    var p := s.threads[t];
    assert Snapshot(s, d, k, p);
    if t == tid {
      var p', root := ReadOn(p, s.mem, d, k, s.roots[p.mm]), s.roots[p.mm];
      assert p'.Walking? && p'.mm == p.mm && p'.foreign == p.foreign && p'.late == p.late && p.seen <= p'.seen;
      if p'.foreign == {} {
        if p.at.Top? {
          ReadFirst(p, s.mem, d, k, root);
        } else {
          ReadNext(p, s.mem, d, k, root);
        }
      }
    }
  }

  lemma {:induction false} StoreLevelKeeps(s: State, d: Definition, k: Macros, tid: nat, t: nat)
    requires Safe(s, d, k) && Enabled(s, StoreLevel(tid)) && t in s.threads
    ensures Snapshot(After(s, d, k, StoreLevel(tid)), d, k, After(s, d, k, StoreLevel(tid)).threads[t])
  {
    hide Counted, Sees, Put, Entry.At, Vm.At;
    var p, q := s.threads[t], s.threads[tid];
    assert Snapshot(s, d, k, p);
    if p.Walking? {
      WalksExcludeStores(s, d, k, t, tid);
      var l := q.next.value;
      if l in q.entry.valid && q.found.At(l).Some? {
        var slot, w := q.found.At(l).value, q.entry.At(l);
        var p' := Notice(p, q.mm, slot, s.mem[slot] != w);
        if p'.foreign == {} && p'.late == {} {
          assert p' == p;
          if s.mem[slot] == w {
            SameWord(s.mem, slot);
          } else {
            SeesAfterStore(p, s.mem, d, k, s.roots[p.mm], slot, w);
          }
        }
      }
    }
  }

  lemma {:induction false} SameWord(m: Memory, slot: nat)
    ensures Put(m, slot, m[slot]) == m
  {
  }

  lemma {:induction false} WriteRootKeeps(s: State, d: Definition, k: Macros, tid: nat, t: nat)
    requires Safe(s, d, k) && Enabled(s, WriteRoot(tid)) && t in s.threads
    ensures Snapshot(After(s, d, k, WriteRoot(tid)), d, k, After(s, d, k, WriteRoot(tid)).threads[t])
  {
    hide Counted, Sees;
    assert Snapshot(s, d, k, s.threads[t]);
    if s.threads[t].Walking? {
      WalksExcludeStores(s, d, k, t, tid);
    }
  }

  lemma {:induction false} BeginSees(mm: nat, addr: nat, purpose: Purpose, m: Memory, d: Definition, k: Macros,
      root: nat)
    ensures Sees(Begin(mm, addr, purpose), m, d, k, root)
  {
  }

  lemma {:induction false} OtherActionKeeps(s: State, d: Definition, k: Macros, a: Action, t: nat)
    requires Safe(s, d, k) && Enabled(s, a) && !a.ReadLevel? && !a.StoreLevel? && !a.WriteRoot?
    requires t in After(s, d, k, a).threads
    ensures Snapshot(After(s, d, k, a), d, k, After(s, d, k, a).threads[t])
  {
    hide Counted, Sees;
    if t in s.threads {
      assert Snapshot(s, d, k, s.threads[t]);
    }
    if a.BeginResolve? {
      BeginSees(a.mm, a.addr, Resolving, s.mem, d, k, s.roots[a.mm]);
    } else if a.BeginUpdate? {
      BeginSees(a.mm, a.addr, Updating(a.entry), s.mem, d, k, s.roots[a.mm]);
    }
  }

  lemma {:induction false} ActionKeepsSafe(s: State, d: Definition, k: Macros, a: Action)
    requires Safe(s, d, k) && Enabled(s, a)
    ensures Safe(After(s, d, k, a), d, k)
  {
    hide Counted, Snapshot, After, Enabled;
    var s' := After(s, d, k, a);
    forall mm: nat ensures Counted(s', mm) {
      ActionCounts(s, d, k, a, mm);
    }
    forall t | t in s'.threads ensures Snapshot(s', d, k, s'.threads[t]) {
      if a.ReadLevel? || a.StoreLevel? || a.WriteRoot? {
        SameThreads(s, d, k, a);
      }
      if a.ReadLevel? {
        ReadLevelKeeps(s, d, k, a.tid, t);
      } else if a.StoreLevel? {
        StoreLevelKeeps(s, d, k, a.tid, t);
      } else if a.WriteRoot? {
        WriteRootKeeps(s, d, k, a.tid, t);
      } else {
        OtherActionKeeps(s, d, k, a, t);
      }
    }
  }

  lemma {:induction false} SameThreads(s: State, d: Definition, k: Macros, a: Action)
    requires Enabled(s, a) && (a.ReadLevel? || a.StoreLevel? || a.WriteRoot?)
    ensures After(s, d, k, a).threads.Keys == s.threads.Keys
  {
    hide ReadOn, Notice, Put;
  }

  // ---- runs ----

  ghost predicate IsRun(ss: seq<State>, acts: seq<Action>, d: Definition, k: Macros) {
    && |ss| == |acts| + 1
    && forall i :: 0 <= i < |acts| ==> Enabled(ss[i], acts[i]) && ss[i + 1] == After(ss[i], d, k, acts[i])
  }

  /** No call is running and every semaphore is free. */
  ghost predicate Initial(s: State) {
    s.threads == map[] && s.sems == map[]
  }

  lemma {:induction false} InitialIsSafe(s: State, d: Definition, k: Macros)
    requires Initial(s)
    ensures Safe(s, d, k)
  {
    hide Snapshot;
    forall mm: nat ensures Counted(s, mm) {
      assert s.ReadHolders(mm) == {} && s.WriteHolders(mm) == {};
    }
  }

  lemma {:induction false} RunsAreSafe(ss: seq<State>, acts: seq<Action>, d: Definition, k: Macros, i: nat)
    requires IsRun(ss, acts, d, k) && Initial(ss[0]) && i < |ss|
    ensures Safe(ss[i], d, k)
    decreases i
  {
    hide Safe, Enabled, After, Initial;
    if i == 0 {
      InitialIsSafe(ss[0], d, k);
    } else {
      RunsAreSafe(ss, acts, d, k, i - 1);
      ActionKeepsSafe(ss[i - 1], d, k, acts[i - 1]);
    }
  }

  /** While no update of another address space changes a slot after the walk has read it, the walk is that of memory. */
  lemma {:induction false} LockedWalkIsCurrent(ss: seq<State>, acts: seq<Action>, d: Definition, k: Macros, i: nat,
      tid: nat)
    requires IsRun(ss, acts, d, k) && Initial(ss[0]) && i < |acts| && acts[i] == EndWalk(tid)
    requires tid in ss[i].threads && ss[i].threads[tid].Walking?
    requires ss[i].threads[tid].foreign == ss[i].threads[tid].late == {}
    ensures ss[i].threads[tid].mm in ss[i].roots
    ensures Found(ss[i].threads[tid].vm, ss[i].mem, d, k, ss[i].roots[ss[i].threads[tid].mm], ss[i].threads[tid].addr)
  {
    hide Found, After, SlotsRead, Descended, Counted;
    RunsAreSafe(ss, acts, d, k, i);
    assert Enabled(ss[i], acts[i]);
    assert Snapshot(ss[i], d, k, ss[i].threads[tid]);
  }

  /** The thread is inside one walk in all of these states. */
  predicate WalksFrom(ss: seq<State>, tid: nat, j: nat, i: nat)
    requires j <= i < |ss|
  {
    forall h :: j <= h <= i ==> tid in ss[h].threads && ss[h].threads[tid].Walking?
  }

  /** State `j` belongs to the walk that the thread is in at state `i`, and the walk is that of its memory. */
  ghost predicate SawThen(ss: seq<State>, d: Definition, k: Macros, tid: nat, i: nat, j: nat)
    requires i < |ss|
  {
    && j <= i && WalksFrom(ss, tid, j, i)
    && var p := ss[i].threads[tid];
       p.mm in ss[j].roots && Sees(p, ss[j].mem, d, k, ss[j].roots[p.mm])
  }

  /** The same walk, done, but for its late changes. */
  predicate SameDone(p: Phase, p': Phase) {
    p.Walking? && p'.Walking? && p'.done && p' == p.(late := p'.late)
  }

  lemma {:induction false} NoticeOfDone(p: Phase, mm: nat, slot: nat, changed: bool)
    requires Notice(p, mm, slot, changed).Walking? && Notice(p, mm, slot, changed).done
    ensures SameDone(p, Notice(p, mm, slot, changed))
  {
  }

  lemma {:induction false} DoneStaysOverStore(s: State, d: Definition, k: Macros, other: nat, tid: nat)
    requires Enabled(s, StoreLevel(other)) && tid in s.threads
    requires var p' := After(s, d, k, StoreLevel(other)).threads[tid]; p'.Walking? && p'.done
    ensures SameDone(s.threads[tid], After(s, d, k, StoreLevel(other)).threads[tid])
  {
    hide Notice, Put, Entry.At, Vm.At;
    var p := s.threads[other];
    var l := p.next.value;
    if l in p.entry.valid && p.found.At(l).Some? {
      var slot := p.found.At(l).value;
      NoticeOfDone(if tid == other then p.(next := NextLevel(l)) else s.threads[tid], p.mm, slot,
                   s.mem[slot] != p.entry.At(l));
    }
  }

  /** A done walk stays as it is, but for its late changes. */
  lemma {:induction false} DoneStays(s: State, d: Definition, k: Macros, a: Action, tid: nat)
    requires Enabled(s, a) && a != ReadLevel(tid) && tid in After(s, d, k, a).threads
    requires After(s, d, k, a).threads[tid].Walking? && After(s, d, k, a).threads[tid].done
    ensures tid in s.threads && SameDone(s.threads[tid], After(s, d, k, a).threads[tid])
  {
    if a.StoreLevel? {
      hide Notice, Put, Entry.At, Vm.At;
      assert tid in s.threads;
      DoneStaysOverStore(s, d, k, a.tid, tid);
    } else {
      hide ReadOn;
    }
  }

  lemma {:induction false} LateIsHistory(p: Phase, late: set<nat>, m: Memory, d: Definition, k: Macros, root: nat)
    requires p.Walking?
    ensures Sees(p.(late := late), m, d, k, root) == Sees(p, m, d, k, root)
  {
    hide Found, Descended, SlotsRead;
  }

  /** The last read of a walk. */
  lemma {:induction false} LastReadSees(s: State, d: Definition, k: Macros, tid: nat)
    requires Safe(s, d, k) && Enabled(s, ReadLevel(tid)) && s.threads[tid].foreign == {}
    ensures var p, s' := s.threads[tid], After(s, d, k, ReadLevel(tid));
            && tid in s'.threads && s'.threads[tid].Walking? && s'.threads[tid].mm == p.mm && s'.mem == s.mem
            && s'.roots == s.roots && Sees(s'.threads[tid], s.mem, d, k, s.roots[p.mm])
  {
    hide Counted, Sees, Slot, KernelSlot, Accepts, WithSlot;
    var p := s.threads[tid];
    assert Snapshot(s, d, k, p);
    if p.at.Top? {
      ReadFirst(p, s.mem, d, k, s.roots[p.mm]);
    } else {
      ReadNext(p, s.mem, d, k, s.roots[p.mm]);
    }
  }

  lemma {:induction false} WalkSawOnce(ss: seq<State>, acts: seq<Action>, d: Definition, k: Macros, i: nat, tid: nat)
      returns (j: nat)
    requires IsRun(ss, acts, d, k) && Initial(ss[0]) && i < |ss|
    requires tid in ss[i].threads && ss[i].threads[tid].Walking? && ss[i].threads[tid].foreign == {}
    ensures SawThen(ss, d, k, tid, i, j)
    decreases i
  {
    hide Sees, After, Counted;
    RunsAreSafe(ss, acts, d, k, i);
    assert Snapshot(ss[i], d, k, ss[i].threads[tid]);
    j := i;
    if ss[i].threads[tid].done {
      assert i > 0;
      RunsAreSafe(ss, acts, d, k, i - 1);
      if acts[i - 1] == ReadLevel(tid) {
        assert Enabled(ss[i - 1], ReadLevel(tid)) && tid in ss[i - 1].threads && ss[i - 1].threads[tid].Walking?;
        ReadKeepsHistory(ss[i - 1], d, k, tid);
        LastReadSees(ss[i - 1], d, k, tid);
      } else {
        DoneStays(ss[i - 1], d, k, acts[i - 1], tid);
        var p, p' := ss[i - 1].threads[tid], ss[i].threads[tid];
        j := WalkSawOnce(ss, acts, d, k, i - 1, tid);
        LateIsHistory(p, p'.late, ss[j].mem, d, k, ss[j].roots[p'.mm]);
      }
    }
  }

  lemma {:induction false} ReadKeepsHistory(s: State, d: Definition, k: Macros, tid: nat)
    requires Enabled(s, ReadLevel(tid))
    ensures After(s, d, k, ReadLevel(tid)).threads[tid].Walking?
    ensures After(s, d, k, ReadLevel(tid)).threads[tid].foreign == s.threads[tid].foreign
  {
    hide Slot, KernelSlot, Accepts, WithSlot;
  }

  /**
   * In every run, the slots and levels that a locked walk has found when it ends are those of one memory state that the
   * run was in during the walk, unless an update of another address space changed a slot between the walk's read of it
   * and its last read.
   */
  lemma {:induction false} LockedWalkIsSnapshot(ss: seq<State>, acts: seq<Action>, d: Definition, k: Macros, i: nat,
      tid: nat) returns (j: nat)
    requires IsRun(ss, acts, d, k) && Initial(ss[0]) && i < |acts| && acts[i] == EndWalk(tid)
    requires tid in ss[i].threads && ss[i].threads[tid].Walking? && ss[i].threads[tid].foreign == {}
    ensures j <= i && WalksFrom(ss, tid, j, i)
    ensures var p := ss[i].threads[tid];
            p.mm in ss[j].roots && Found(p.vm, ss[j].mem, d, k, ss[j].roots[p.mm], p.addr)
  {
    hide Found, After, SlotsRead, Descended;
    assert Enabled(ss[i], acts[i]);
    j := WalkSawOnce(ss, acts, d, k, i, tid);
  }

  /** In every run, an update never stores to the tables of an address space while another thread walks them. */
  lemma {:induction false} NoStoreDuringWalk(ss: seq<State>, acts: seq<Action>, d: Definition, k: Macros, i: nat,
      walker: nat)
    requires IsRun(ss, acts, d, k) && Initial(ss[0]) && i < |acts| && (acts[i].StoreLevel? || acts[i].WriteRoot?)
    requires walker in ss[i].threads && ss[i].threads[walker].Walking?
    ensures acts[i].tid in ss[i].threads && ss[i].threads[acts[i].tid].mm != ss[i].threads[walker].mm
  {
    hide After, Safe;
    RunsAreSafe(ss, acts, d, k, i);
    assert Enabled(ss[i], acts[i]);
    WalksExcludeStores(ss[i], d, k, walker, acts[i].tid);
  }

  /** In every run, once all calls have returned every semaphore is free again, whatever paths they took. */
  lemma {:induction false} AllReleased(ss: seq<State>, acts: seq<Action>, d: Definition, k: Macros, i: nat, mm: nat)
    requires IsRun(ss, acts, d, k) && Initial(ss[0]) && i < |ss|
    requires forall tid :: tid in ss[i].threads ==> ss[i].threads[tid].Copying?
    ensures ss[i].SemOf(mm) == FREE
  {
    hide After, Enabled, Snapshot;
    RunsAreSafe(ss, acts, d, k, i);
    assert Counted(ss[i], mm);
    assert ss[i].ReadHolders(mm) == {} && ss[i].WriteHolders(mm) == {};
  }

  // ---- one address space ----

  predicate OnlyUses(a: Action, mm: nat) {
    a.BeginResolve? || a.BeginUpdate? ==> a.mm == mm
  }

  ghost predicate OneSpace(s: State, mm: nat) {
    forall tid :: tid in s.threads ==>
      && (s.threads[tid].Walking? ==> s.threads[tid].mm == mm && s.threads[tid].foreign == s.threads[tid].late == {})
      && (s.threads[tid].Storing? ==> s.threads[tid].mm == mm)
  }

  lemma {:induction false} ActionKeepsOneSpace(s: State, d: Definition, k: Macros, a: Action, mm: nat)
    requires OneSpace(s, mm) && Enabled(s, a) && OnlyUses(a, mm)
    ensures OneSpace(After(s, d, k, a), mm)
  {
    hide Slot, KernelSlot, Accepts, WithSlot, Put, Vm.At, Entry.At;
  }

  lemma {:induction false} OneSpaceRuns(ss: seq<State>, acts: seq<Action>, d: Definition, k: Macros, mm: nat, i: nat)
    requires IsRun(ss, acts, d, k) && Initial(ss[0]) && i < |ss| && forall a :: a in acts ==> OnlyUses(a, mm)
    ensures OneSpace(ss[i], mm)
    decreases i
  {
    hide After, Enabled, OnlyUses;
    if i > 0 {
      OneSpaceRuns(ss, acts, d, k, mm, i - 1);
      assert acts[i - 1] in acts;
      ActionKeepsOneSpace(ss[i - 1], d, k, acts[i - 1], mm);
    }
  }

  /** With one address space in use, every locked walk is a snapshot, without exception. */
  lemma {:induction false} LockedWalkIsSnapshotAlone(ss: seq<State>, acts: seq<Action>, d: Definition, k: Macros,
      i: nat, tid: nat, mm: nat)
    requires IsRun(ss, acts, d, k) && Initial(ss[0]) && i < |acts| && acts[i] == EndWalk(tid)
    requires forall a :: a in acts ==> OnlyUses(a, mm)
    ensures tid in ss[i].threads && ss[i].threads[tid].Walking? && mm in ss[i].roots
    ensures Found(ss[i].threads[tid].vm, ss[i].mem, d, k, ss[i].roots[mm], ss[i].threads[tid].addr)
  {
    hide Found, After, OnlyUses;
    OneSpaceRuns(ss, acts, d, k, mm, i);
    assert Enabled(ss[i], acts[i]);
    LockedWalkIsCurrent(ss, acts, d, k, i, tid);
  }
}
