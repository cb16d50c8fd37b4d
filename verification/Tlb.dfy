/**
 * The TLB of one address space as a cache of walk results, over every interleaving of PTE edits with fills, evictions
 * and stores of data. An edit is split where the source makes separate calls: the first resolve, the second walk of
 * the updater, the store, and the two flushes.
 */
module Tlb {
  import opened Words
  import opened Radix
  import opened Paging
  import opened Walk
  import opened Unrolled
  import opened PteEdits
  import opened Tree
  import opened Frames

  /** How far a thread has come with an edit; a thread without a phase is not editing. */
  datatype Phase =
    // resolved and edited its copy of the PTE
    | Resolved(addr: nat, edit: Edit, word: Word)
    // the updater has walked again and found the slot
    | Located(addr: nat, edit: Edit, slot: nat, word: Word)
    // the PTE is written, its flush is pending
    | Stored(addr: nat)
    // flushed once, about to flush again and return
    | Flushed(addr: nat)

  datatype State = State(mem: Memory, tlb: map<nat, Entry>, threads: map<nat, Phase>)

  datatype Action =
    | Fill(addr: nat)                            // the CPU caches the walk of an address
    | Evict(pages: set<nat>)                     // the CPU drops cached pages
    | Data(slot: nat, word: Word)                // any other store: by a program, or by the CPU to an entry
    | Begin(tid: nat, addr: nat, edit: Edit)
    | Locate(tid: nat)
    | Store(tid: nat)
    | Flush(tid: nat)
    | Finish(tid: nat)

  /** The word at `x` is an entry of one of the tables that the walk can reach. */
  ghost predicate InTable(m: Memory, d: Definition, root: nat, x: nat) {
    exists p: seq<nat>, i: nat :: Reached(m, d, root, p) && EntryOfTable(d, p, i) && EntryAt(m, d, root, p, i) == x
  }

  predicate EntryOfTable(d: Definition, p: seq<nat>, i: nat) {
    |p| < |d.Levels()| && i < Pow2(d.Bits(d.Levels()[|p|]))
  }

  ghost predicate Enabled(s: State, d: Definition, root: nat, a: Action) {
    match a
    case Fill(_) => true
    case Evict(_) => true
    case Data(_, _) => true
    case Begin(tid, addr, _) => tid !in s.threads && PTE in Resolve(s.mem, d, root, addr).valid
    case Locate(tid) => tid in s.threads && s.threads[tid].Resolved?
    case Store(tid) => tid in s.threads && s.threads[tid].Located?
    case Flush(tid) => tid in s.threads && s.threads[tid].Stored?
    case Finish(tid) => tid in s.threads && s.threads[tid].Flushed?
  }

  /** Stores of data stay outside the tables that the walk can reach. */
  ghost predicate SparesTables(s: State, d: Definition, root: nat, a: Action) {
    a.Data? ==> !InTable(s.mem, d, root, a.slot)
  }

  function After(s: State, d: Definition, root: nat, a: Action): State
    requires Enabled(s, d, root, a)
  {
    match a
    case Fill(addr) => s.(tlb := s.tlb[d.Page(addr) := Resolve(s.mem, d, root, addr)])
    case Evict(pages) => s.(tlb := s.tlb - pages)
    case Data(slot, word) => s.(mem := Put(s.mem, slot, word))
    case Begin(tid, addr, edit) =>
      s.(threads := s.threads[tid := Resolved(addr, edit, edit.Apply(d.arch, Resolve(s.mem, d, root, addr).pte))])
    case Locate(tid) =>
      var p := s.threads[tid];
      s.(threads := s.threads[tid :=
        if PTE in Resolve(s.mem, d, root, p.addr).valid
            then Located(p.addr, p.edit, PteSlot(s.mem, d, root, p.addr), p.word)
        else Stored(p.addr)])
    case Store(tid) =>
      State(Put(s.mem, s.threads[tid].slot, s.threads[tid].word), s.tlb, s.threads[tid := Stored(s.threads[tid].addr)])
    case Flush(tid) =>
      s.(tlb := s.tlb - {d.Page(s.threads[tid].addr)}, threads := s.threads[tid := Flushed(s.threads[tid].addr)])
    case Finish(tid) =>
      s.(tlb := s.tlb - {d.Page(s.threads[tid].addr)}, threads := s.threads - {tid})
  }

  /** Some thread has written a PTE of the page and not yet flushed it. */
  predicate Pending(s: State, d: Definition, page: nat) {
    exists tid :: tid in s.threads && s.threads[tid].Stored? && d.Page(s.threads[tid].addr) == page
  }

  /** The slot an updater has located is the slot of its PTE. */
  predicate Knows(m: Memory, d: Definition, root: nat, phase: Phase) {
    phase.Located? ==> PTE in Resolve(m, d, root, phase.addr).valid && phase.slot == PteSlot(m, d, root, phase.addr)
  }

  /** The cached walk of an address is its current walk, unless a flush of its page is pending. */
  predicate Agrees(s: State, d: Definition, root: nat, addr: nat) {
    d.Page(addr) in s.tlb && !Pending(s, d, d.Page(addr)) ==> s.tlb[d.Page(addr)] == Resolve(s.mem, d, root, addr)
  }

  ghost predicate Coherent(s: State, d: Definition, root: nat) {
    && TreeShaped(s.mem, d, root)
    && (forall tid :: tid in s.threads ==> Knows(s.mem, d, root, s.threads[tid]))
    && forall addr: nat :: Agrees(s, d, root, addr)
  }

  // ---- every action keeps the TLB coherent ----

  lemma {:induction false} FillKeeps(s: State, d: Definition, root: nat, a: nat)
    requires d.Consistent() && Coherent(s, d, root)
    ensures Coherent(After(s, d, root, Fill(a)), d, root)
  {
    hide Resolve, TreeShaped, Definition.Page, Definition.Consistent, PteSlot;
    var s' := After(s, d, root, Fill(a));
    forall addr: nat ensures Agrees(s', d, root, addr) {
      assert Agrees(s, d, root, addr);
      assert Pending(s', d, d.Page(addr)) == Pending(s, d, d.Page(addr));
      if d.Page(addr) == d.Page(a) {
        SamePageSameWalk(s.mem, d, root, addr, a);
      }
    }
  }

  lemma {:induction false} StoreFrames(m: Memory, d: Definition, root: nat, a: nat, w: Word, b: nat)
    requires d.Consistent() && TreeShaped(m, d, root)
    requires PTE in Resolve(m, d, root, a).valid && d.Page(b) != d.Page(a)
    ensures var m' := Put(m, PteSlot(m, d, root, a), w);
            && Walked(m', d, root, b) == Walked(m, d, root, b)
            && Resolve(m', d, root, b) == Resolve(m, d, root, b)
  {
    hide Resolve, Walked, TreeShaped, Definition.Page, Definition.Consistent, PteSlot;
    var m' := Put(m, PteSlot(m, d, root, a), w);
    forall j | 0 <= j < |Walked(m, d, root, b)| ensures Walked(m, d, root, b)[j].slot != PteSlot(m, d, root, a) {
      PteIsOfOnePage(m, d, root, a, b, j);
    }
    SameWalkIffSameWords(m, m', d, root, b);
    SameWalkSameEntry(m, m', d, root, b);
  }

  lemma {:induction false} SameWalkSamePteSlot(m: Memory, m': Memory, d: Definition, root: nat, a: nat, b: nat)
    requires PTE in Resolve(m, d, root, a).valid && Trace(m', d, root, b) == Trace(m, d, root, a)
    ensures PTE in Resolve(m', d, root, b).valid && PteSlot(m', d, root, b) == PteSlot(m, d, root, a)
  {
    hide Trace, EntryOf;
  }

  lemma {:induction false} SameWalkedSameTrace(m: Memory, m': Memory, d: Definition, root: nat, b: nat)
    requires Walked(m', d, root, b) == Walked(m, d, root, b)
    ensures Trace(m', d, root, b) == Trace(m, d, root, b)
  {
    hide Steps, Present, Definition.Levels;
  }

  /** A store through one located slot leaves every located slot right. */
  lemma {:induction false} StoreKeepsKnowledge(m: Memory, d: Definition, root: nat, a: nat, w: Word, phase: Phase)
    requires d.Consistent() && TreeShaped(m, d, root)
    requires PTE in Resolve(m, d, root, a).valid && Knows(m, d, root, phase)
    ensures Knows(Put(m, PteSlot(m, d, root, a), w), d, root, phase)
  {
    hide Resolve, Trace, Walked, TreeShaped, Definition.Page, Definition.Consistent, PteSlot, PteApart;
    if phase.Located? {
      var m', b := Put(m, PteSlot(m, d, root, a), w), phase.addr;
      if d.Page(b) == d.Page(a) {
        WalkSlotsAreDistinct(m, d, root, a);
        ResolveAfterPteStore(m, d, root, a, w);
        SamePageSameWalk(m, d, root, b, a);
        SamePageSameWalk(m', d, root, b, a);
        SameWalkSamePteSlot(m, m, d, root, a, b);
        SameWalkSamePteSlot(m', m', d, root, a, b);
      } else {
        StoreFrames(m, d, root, a, w, b);
        SameWalkedSameTrace(m, m', d, root, b);
        SameWalkSamePteSlot(m, m', d, root, b, b);
      }
    }
  }

  lemma {:induction false} StoreKeeps(s: State, d: Definition, root: nat, tid: nat)
    requires d.Consistent() && Coherent(s, d, root) && Enabled(s, d, root, Store(tid))
    ensures Coherent(After(s, d, root, Store(tid)), d, root)
  {
    hide Resolve, TreeShaped, Definition.Page, Definition.Consistent, PteSlot, InTable, Knows, TableAt, InRange,
        Definition.Levels;
    var s', a, w := After(s, d, root, Store(tid)), s.threads[tid].addr, s.threads[tid].word;
    assert Knows(s.mem, d, root, s.threads[tid]);
    assert PTE in Resolve(s.mem, d, root, a).valid && s.threads[tid].slot == PteSlot(s.mem, d, root, a) by {
      KnowsSlot(s.mem, d, root, s.threads[tid]);
    }
    PteStoreKeepsTree(s.mem, d, root, a, w);
    forall t | t in s'.threads ensures Knows(s'.mem, d, root, s'.threads[t]) {
      if t == tid {
        StoredKnowsNothing(s'.mem, d, root, a);
      } else {
        StoreKeepsKnowledge(s.mem, d, root, a, w, s.threads[t]);
      }
    }
    forall addr: nat ensures Agrees(s', d, root, addr) {
      assert Agrees(s, d, root, addr);
      if d.Page(addr) == d.Page(a) {
        assert s'.threads[tid].Stored?;
        assert Pending(s', d, d.Page(addr));
      } else {
        StoreFrames(s.mem, d, root, a, w, addr);
        if t :| t in s.threads && s.threads[t].Stored? && d.Page(s.threads[t].addr) == d.Page(addr) {
          assert t in s'.threads && s'.threads[t] == s.threads[t];
        }
      }
    }
  }

  lemma {:induction false} KnowsSlot(m: Memory, d: Definition, root: nat, phase: Phase)
    requires Knows(m, d, root, phase) && phase.Located?
    ensures PTE in Resolve(m, d, root, phase.addr).valid && phase.slot == PteSlot(m, d, root, phase.addr)
  {
  }

  lemma {:induction false} StoredKnowsNothing(m: Memory, d: Definition, root: nat, addr: nat)
    ensures Knows(m, d, root, Stored(addr))
  {
  }

  lemma {:induction false} WalkedSlotIsInTable(m: Memory, d: Definition, root: nat, addr: nat, k: nat)
    requires k < |Walked(m, d, root, addr)|
    ensures InTable(m, d, root, Walked(m, d, root, addr)[k].slot)
  {
    hide Walked, TableAt, InRange, Definition.Levels, Definition.Bits, Pow2, Definition.Index, Slot;
    WalkedStep(m, d, root, addr, k);
    WalkedLength(m, d, root, addr);
    EntryInRange(d, addr, k);
    var p, i := d.Indices(addr)[..k], d.Indices(addr)[k];
    assert |p| == k;
    assert EntryOfTable(d, p, i) && EntryAt(m, d, root, p, i) == Walked(m, d, root, addr)[k].slot;
  }

  /** A store outside the tables changes no walk and no table. */
  lemma {:induction false} DataStoreFrames(m: Memory, d: Definition, root: nat, x: nat, w: Word)
    requires TreeShaped(m, d, root) && !InTable(m, d, root, x)
    ensures TreeShaped(Put(m, x, w), d, root)
    ensures forall addr: nat :: Walked(Put(m, x, w), d, root, addr) == Walked(m, d, root, addr)
    ensures forall addr: nat :: Resolve(Put(m, x, w), d, root, addr) == Resolve(m, d, root, addr)
  {
    hide Walked, Resolve, TreeShaped, InTable, Alike, Reached, EntryAt, Definition.Levels;
    var m' := Put(m, x, w);
    forall addr: nat
      ensures Walked(m', d, root, addr) == Walked(m, d, root, addr)
          && Resolve(m', d, root, addr) == Resolve(m, d, root, addr)
    {
      forall k | 0 <= k < |Walked(m, d, root, addr)|
        ensures m'[Walked(m, d, root, addr)[k].slot] == Walked(m, d, root, addr)[k].word
      {
        WalkedSlotIsInTable(m, d, root, addr, k);
        WalkedStep(m, d, root, addr, k);
      }
      SameWordsSameWalk(m, m', d, root, addr);
    }
    forall p: seq<nat>, i: nat | Reached(m, d, root, p) && AbovePte(d, p, i)
      ensures Alike(d, d.Levels()[|p|], m[EntryAt(m, d, root, p, i)], m'[EntryAt(m, d, root, p, i)])
    {
      EntryIsInTable(m, d, root, p, i);
      AlikeReflexive(d, d.Levels()[|p|], m[EntryAt(m, d, root, p, i)]);
    }
    LookAlikeKeepsTree(m, m', d, root);
  }

  lemma {:induction false} EntryIsInTable(m: Memory, d: Definition, root: nat, p: seq<nat>, i: nat)
    requires Reached(m, d, root, p) && AbovePte(d, p, i)
    ensures InTable(m, d, root, EntryAt(m, d, root, p, i))
  {
    hide Definition.Levels, Definition.Bits, Pow2, EntryAt, Reached;
    assert EntryOfTable(d, p, i);
  }

  lemma {:induction false} DataKeeps(s: State, d: Definition, root: nat, x: nat, w: Word)
    requires Coherent(s, d, root) && SparesTables(s, d, root, Data(x, w))
    ensures Coherent(After(s, d, root, Data(x, w)), d, root)
  {
    hide Resolve, Trace, Walked, TreeShaped, Definition.Page, PteSlot, InTable;
    var s' := After(s, d, root, Data(x, w));
    DataStoreFrames(s.mem, d, root, x, w);
    forall t | t in s'.threads ensures Knows(s'.mem, d, root, s'.threads[t]) {
      assert Knows(s.mem, d, root, s.threads[t]);
      if s.threads[t].Located? {
        SameWalkedSameTrace(s.mem, s'.mem, d, root, s.threads[t].addr);
        SameWalkSamePteSlot(s.mem, s'.mem, d, root, s.threads[t].addr, s.threads[t].addr);
      }
    }
    forall addr: nat ensures Agrees(s', d, root, addr) {
      assert Agrees(s, d, root, addr);
      assert Pending(s', d, d.Page(addr)) == Pending(s, d, d.Page(addr));
    }
  }

  /** Dropping cached pages and moving a thread on, as long as no page loses its pending flush while it is cached. */
  lemma {:induction false} QuietKeeps(s: State, s': State, d: Definition, root: nat)
    requires Coherent(s, d, root) && s'.mem == s.mem
    requires forall page :: page in s'.tlb ==> page in s.tlb && s'.tlb[page] == s.tlb[page]
    requires forall page :: page in s'.tlb && Pending(s, d, page) ==> Pending(s', d, page)
    requires forall t :: t in s'.threads ==> Knows(s.mem, d, root, s'.threads[t])
    ensures Coherent(s', d, root)
  {
    hide Resolve, TreeShaped, Definition.Page, PteSlot, Pending, Knows;
    forall addr: nat ensures Agrees(s', d, root, addr) {
      assert Agrees(s, d, root, addr);
    }
  }

  /** A flush pending for another thread, or of a page that stays pending, is pending still. */
  lemma {:induction false} PendingStays(s: State, s': State, d: Definition, page: nat, tid: nat)
    requires Pending(s, d, page)
    requires forall t :: t in s.threads && t != tid ==> t in s'.threads && s'.threads[t] == s.threads[t]
    requires tid in s.threads && s.threads[tid].Stored? ==> d.Page(s.threads[tid].addr) != page
    ensures Pending(s', d, page)
  {
    hide Definition.Page;
    var t :| t in s.threads && s.threads[t].Stored? && d.Page(s.threads[t].addr) == page;
    assert t in s'.threads && s'.threads[t].Stored?;
  }

  lemma {:induction false} OtherActionsKeep(s: State, d: Definition, root: nat, a: Action)
    requires Coherent(s, d, root) && Enabled(s, d, root, a)
    requires a.Evict? || a.Begin? || a.Locate? || a.Flush? || a.Finish?
    ensures Coherent(After(s, d, root, a), d, root)
  {
    hide Resolve, TreeShaped, Definition.Page, PteSlot, InTable, Edit.Apply, Agrees;
    var s' := After(s, d, root, a);
    if !a.Evict? {
      forall page | page in s'.tlb && Pending(s, d, page) ensures Pending(s', d, page) {
        PendingStays(s, s', d, page, a.tid);
      }
    }
    QuietKeeps(s, s', d, root);
  }

  lemma {:induction false} ActionKeeps(s: State, d: Definition, root: nat, a: Action)
    requires d.Consistent() && Coherent(s, d, root) && Enabled(s, d, root, a) && SparesTables(s, d, root, a)
    ensures Coherent(After(s, d, root, a), d, root)
  {
    hide *;
    match a
    case Fill(addr) => FillKeeps(s, d, root, addr);
    case Data(x, w) => DataKeeps(s, d, root, x, w);
    case Store(tid) => StoreKeeps(s, d, root, tid);
    case _ => OtherActionsKeep(s, d, root, a);
  }

  // ---- runs ----

  /** A finite run with any stores of data: each state is the one after the next action. */
  ghost predicate IsFreeRun(ss: seq<State>, acts: seq<Action>, d: Definition, root: nat) {
    && |ss| == |acts| + 1
    && forall i :: 0 <= i < |acts| ==> Enabled(ss[i], d, root, acts[i]) && ss[i + 1] == After(ss[i], d, root, acts[i])
  }

  /** A finite run whose stores of data stay outside the tables. */
  ghost predicate IsRun(ss: seq<State>, acts: seq<Action>, d: Definition, root: nat) {
    IsFreeRun(ss, acts, d, root) && forall i :: 0 <= i < |acts| ==> SparesTables(ss[i], d, root, acts[i])
  }

  /** Tree-shaped tables, nothing cached, and nobody editing. */
  ghost predicate Initial(s: State, d: Definition, root: nat) {
    TreeShaped(s.mem, d, root) && s.tlb == map[] && s.threads == map[]
  }

  /**
   * In every state of every run the tables are tree-shaped and every cached walk is current unless its flush is
   * pending.
   */
  lemma {:induction false} RunsAreCoherent(ss: seq<State>, acts: seq<Action>, d: Definition, root: nat, i: nat)
    requires d.Consistent() && IsRun(ss, acts, d, root) && Initial(ss[0], d, root) && i < |ss|
    ensures Coherent(ss[i], d, root)
    decreases i
  {
    hide TreeShaped, Enabled, After, Resolve, Definition.Consistent, Definition.Page;
    if i > 0 {
      RunsAreCoherent(ss, acts, d, root, i - 1);
      ActionKeeps(ss[i - 1], d, root, acts[i - 1]);
    }
  }

  /** Once no flush of a page is pending, as when every edit of it has returned, a cached walk of it is never stale. */
  lemma {:induction false} NoneStaleAfterReturn(ss: seq<State>, acts: seq<Action>, d: Definition, root: nat, i: nat,
      addr: nat)
    requires d.Consistent() && IsRun(ss, acts, d, root) && Initial(ss[0], d, root) && i < |ss|
    requires d.Page(addr) in ss[i].tlb
    requires forall tid :: tid in ss[i].threads && ss[i].threads[tid].Stored? ==>
        d.Page(ss[i].threads[tid].addr) != d.Page(addr)
    ensures ss[i].tlb[d.Page(addr)] == Resolve(ss[i].mem, d, root, addr)
  {
    hide TreeShaped, Enabled, After, Resolve, Definition.Consistent, Definition.Page, Initial, IsRun, Knows;
    RunsAreCoherent(ss, acts, d, root, i);
    assert Agrees(ss[i], d, root, addr);
  }

  /** The exception is needed: right after a store, the page's cached walk is stale exactly when the word changed. */
  lemma {:induction false} StoreMakesStale(s: State, d: Definition, root: nat, tid: nat)
    requires d.Consistent() && Coherent(s, d, root) && Enabled(s, d, root, Store(tid))
    requires var page := d.Page(s.threads[tid].addr); page in s.tlb && !Pending(s, d, page)
    ensures var s', addr := After(s, d, root, Store(tid)), s.threads[tid].addr;
            s'.tlb[d.Page(addr)] != Resolve(s'.mem, d, root, addr)
            <==> s.threads[tid].word != Resolve(s.mem, d, root, addr).pte
  {
    hide Resolve, TreeShaped, Definition.Page, Definition.Consistent, PteSlot, InTable, PteApart;
    var addr := s.threads[tid].addr;
    assert Agrees(s, d, root, addr);
    assert Knows(s.mem, d, root, s.threads[tid]);
    WalkSlotsAreDistinct(s.mem, d, root, addr);
    ResolveAfterPteStore(s.mem, d, root, addr, s.threads[tid].word);
  }

  lemma {:induction false} Latches(s: State, d: Definition, root: nat, tid: nat, addr: nat, edit: Edit)
    requires Enabled(s, d, root, Begin(tid, addr, edit))
    ensures var s1 := After(s, d, root, Begin(tid, addr, edit));
            && Enabled(s1, d, root, Locate(tid))
            && After(s1, d, root, Locate(tid)) == s.(threads := s.threads[tid :=
                 Located(addr, edit, PteSlot(s.mem, d, root, addr),
                     edit.Apply(d.arch, Resolve(s.mem, d, root, addr).pte))])
  {
    hide Resolve, Definition.Page, PteSlot, InTable, Edit.Apply;
    var s2 := After(After(s, d, root, Begin(tid, addr, edit)), d, root, Locate(tid));
    assert s2.threads == s.threads[tid := Located(addr, edit, PteSlot(s.mem, d, root, addr),
        edit.Apply(d.arch, Resolve(s.mem, d, root, addr).pte))];
  }

  lemma {:induction false} StoresAndFlushes(s: State, d: Definition, root: nat, tid: nat)
    requires Enabled(s, d, root, Store(tid))
    ensures var addr := s.threads[tid].addr;
            var s1 := After(s, d, root, Store(tid));
            && Enabled(s1, d, root, Flush(tid)) && Enabled(After(s1, d, root, Flush(tid)), d, root, Finish(tid))
            && After(After(s1, d, root, Flush(tid)), d, root, Finish(tid)) ==
               State(Put(s.mem, s.threads[tid].slot, s.threads[tid].word), s.tlb - {d.Page(addr)}, s.threads - {tid})
  {
    hide Resolve, Definition.Page, InTable, Put;
    var s3 := After(After(After(s, d, root, Store(tid)), d, root, Flush(tid)), d, root, Finish(tid));
    assert s3.threads == s.threads - {tid};
    assert s3.tlb == s.tlb - {d.Page(s.threads[tid].addr)};
  }

  /** An edit that runs alone does to memory and TLB what the class methods `PteSetBit` and its kin do. */
  lemma {:induction false} EditAlone(ss: seq<State>, d: Definition, root: nat, tid: nat, addr: nat, edit: Edit)
    requires IsRun(ss, [Begin(tid, addr, edit), Locate(tid), Store(tid), Flush(tid), Finish(tid)], d, root)
    ensures ss[5] == State(PteEdited(ss[0].mem, d, root, addr, edit), ss[0].tlb - {d.Page(addr)}, ss[0].threads)
  {
    hide Resolve, Definition.Page, PteSlot, InTable, Edit.Apply, PteEdited, After, Enabled, IsRun;
    var acts := [Begin(tid, addr, edit), Locate(tid), Store(tid), Flush(tid), Finish(tid)];
    FiveSteps(ss, acts, d, root);
    Latches(ss[0], d, root, tid, addr, edit);
    StoresAndFlushes(ss[2], d, root, tid);
    PteEditedBy(ss[0], d, root, tid, addr, edit);
    assert ss[2].threads - {tid} == ss[0].threads;
  }

  lemma {:induction false} FiveSteps(ss: seq<State>, acts: seq<Action>, d: Definition, root: nat)
    requires IsRun(ss, acts, d, root) && |acts| == 5
    ensures |ss| == 6
    ensures Enabled(ss[0], d, root, acts[0]) && ss[1] == After(ss[0], d, root, acts[0])
    ensures Enabled(ss[1], d, root, acts[1]) && ss[2] == After(ss[1], d, root, acts[1])
    ensures Enabled(ss[2], d, root, acts[2]) && ss[3] == After(ss[2], d, root, acts[2])
    ensures Enabled(ss[3], d, root, acts[3]) && ss[4] == After(ss[3], d, root, acts[3])
    ensures Enabled(ss[4], d, root, acts[4]) && ss[5] == After(ss[4], d, root, acts[4])
  {
    hide Enabled, After;
  }

  lemma {:induction false} PteEditedBy(s: State, d: Definition, root: nat, tid: nat, addr: nat, edit: Edit)
    requires Enabled(s, d, root, Begin(tid, addr, edit))
    ensures tid !in s.threads && PTE in Resolve(s.mem, d, root, addr).valid
    ensures PteEdited(s.mem, d, root, addr, edit) ==
            Put(s.mem, PteSlot(s.mem, d, root, addr), edit.Apply(d.arch, Resolve(s.mem, d, root, addr).pte))
  {
    hide Resolve, Definition.Page, PteSlot, InTable, Edit.Apply, PteEdited, After;
    PteEditedIsOneStore(s.mem, d, root, addr, edit);
  }

  // ---- what the edits of a run add up to ----

  /** What one action does to memory: a store of data, or a whole call of a PTE edit. */
  datatype Effect = Wrote(slot: nat, word: Word) | Called(addr: nat, edit: Edit)

  function EffectOf(s: State, d: Definition, root: nat, a: Action): seq<Effect>
    requires Enabled(s, d, root, a)
  {
    match a
    case Data(slot, word) => [Wrote(slot, word)]
    case Store(tid) => [Called(s.threads[tid].addr, s.threads[tid].edit)]
    case _ => []
  }

  function Applied(m: Memory, d: Definition, root: nat, effect: Effect): Memory {
    match effect
    case Wrote(slot, word) => Put(m, slot, word)
    case Called(addr, edit) => PteEdited(m, d, root, addr, edit)
  }

  function Replayed(m: Memory, d: Definition, root: nat, log: seq<Effect>): Memory {
    if log == [] then m else Applied(Replayed(m, d, root, log[..|log| - 1]), d, root, log[|log| - 1])
  }

  /** The effects of the first `i` actions of a run, in order. */
  ghost function Log(ss: seq<State>, acts: seq<Action>, d: Definition, root: nat, i: nat): seq<Effect>
    requires IsRun(ss, acts, d, root) && i < |ss|
  {
    if i == 0 then [] else Log(ss, acts, d, root, i - 1) + EffectOf(ss[i - 1], d, root, acts[i - 1])
  }

  /** Memory is what the data stores and the whole edit calls so far leave when they are made one after the other. */
  ghost predicate Serial(ss: seq<State>, acts: seq<Action>, d: Definition, root: nat, i: nat)
    requires IsRun(ss, acts, d, root) && i < |ss|
  {
    ss[i].mem == Replayed(ss[0].mem, d, root, Log(ss, acts, d, root, i))
  }

  /** If the action is a store, its word is the thread's edit of the PTE as it is now. */
  predicate StoresEdit(s: State, d: Definition, root: nat, a: Action)
    requires Enabled(s, d, root, a)
  {
    a.Store? ==>
      var p := s.threads[a.tid];
      p.word == p.edit.Apply(d.arch, Resolve(s.mem, d, root, p.addr).pte)
  }

  lemma {:induction false} SameStore(m: Memory, slot: nat, v: Word, w: Word)
    ensures Put(m, slot, v) == Put(m, slot, w) <==> v == w
  {
    assert Put(m, slot, v)[slot] == v && Put(m, slot, w)[slot] == w;
  }

  /** A store makes memory that of the whole call exactly when it stores the edit of the PTE as it is. */
  lemma {:induction false} StoreIsCall(s: State, d: Definition, root: nat, tid: nat)
    requires Coherent(s, d, root) && Enabled(s, d, root, Store(tid))
    ensures After(s, d, root, Store(tid)).mem
            == PteEdited(s.mem, d, root, s.threads[tid].addr, s.threads[tid].edit)
            <==> StoresEdit(s, d, root, Store(tid))
  {
    hide Resolve, TreeShaped, Definition.Page, PteSlot, InTable, Put, Edit.Apply, PteEdited, Agrees;
    var p := s.threads[tid];
    assert Knows(s.mem, d, root, p);
    PteEditedIsOneStore(s.mem, d, root, p.addr, p.edit);
    SameStore(s.mem, p.slot, p.word, p.edit.Apply(d.arch, Resolve(s.mem, d, root, p.addr).pte));
  }

  lemma {:induction false} NothingReplayed(m: Memory, d: Definition, root: nat)
    ensures Replayed(m, d, root, []) == m
  {
  }

  lemma {:induction false} ReplayedSnoc(m: Memory, d: Definition, root: nat, log: seq<Effect>, effect: Effect)
    ensures Replayed(m, d, root, log + [effect]) == Applied(Replayed(m, d, root, log), d, root, effect)
  {
    hide Applied;
    assert (log + [effect])[..|log|] == log;
  }

  lemma {:induction false} ActionIsEffect(s: State, d: Definition, root: nat, a: Action, m: Memory, log: seq<Effect>)
    requires Coherent(s, d, root) && Enabled(s, d, root, a) && s.mem == Replayed(m, d, root, log)
    ensures After(s, d, root, a).mem == Replayed(m, d, root, log + EffectOf(s, d, root, a))
            <==> StoresEdit(s, d, root, a)
  {
    hide Coherent, Resolve, Replayed, Definition.Page, PteSlot, InTable, Put, Edit.Apply, PteEdited;
    match a
    case Data(slot, word) =>
      ReplayedSnoc(m, d, root, log, Wrote(slot, word));
    case Store(tid) =>
      ReplayedSnoc(m, d, root, log, Called(s.threads[tid].addr, s.threads[tid].edit));
      StoreIsCall(s, d, root, tid);
    case _ =>
      assert log + [] == log;
  }

  lemma {:induction false} SerialStep(ss: seq<State>, acts: seq<Action>, d: Definition, root: nat, i: nat)
    requires d.Consistent() && IsRun(ss, acts, d, root) && Initial(ss[0], d, root) && i < |acts|
    requires Serial(ss, acts, d, root, i)
    ensures Serial(ss, acts, d, root, i + 1) <==> StoresEdit(ss[i], d, root, acts[i])
  {
    hide Coherent, Enabled, After, Definition.Consistent, Initial, EffectOf, StoresEdit, Replayed;
    RunsAreCoherent(ss, acts, d, root, i);
    ActionIsEffect(ss[i], d, root, acts[i], ss[0].mem, Log(ss, acts, d, root, i));
  }

  lemma {:induction false} SerialIfCurrent(ss: seq<State>, acts: seq<Action>, d: Definition, root: nat, i: nat)
    requires d.Consistent() && IsRun(ss, acts, d, root) && Initial(ss[0], d, root) && i < |ss|
    requires forall j :: 0 <= j < i ==> StoresEdit(ss[j], d, root, acts[j])
    ensures Serial(ss, acts, d, root, i)
    decreases i
  {
    hide Enabled, After, Definition.Consistent, Initial, EffectOf, StoresEdit;
    if i > 0 {
      hide Serial;
      SerialIfCurrent(ss, acts, d, root, i - 1);
      SerialStep(ss, acts, d, root, i - 1);
    }
  }

  /**
   * In every run, memory is serial all along exactly when every store is of the edit of the PTE as it is then: no other
   * store has come between an edit's resolve and its own store, or none that matters to the edit.
   */
  lemma {:induction false} SerialExactly(ss: seq<State>, acts: seq<Action>, d: Definition, root: nat, i: nat)
    requires d.Consistent() && IsRun(ss, acts, d, root) && Initial(ss[0], d, root) && i < |ss|
    ensures (forall j :: 0 <= j <= i ==> Serial(ss, acts, d, root, j))
            <==> forall j :: 0 <= j < i ==> StoresEdit(ss[j], d, root, acts[j])
  {
    hide Enabled, After, Definition.Consistent, Initial, Serial, StoresEdit;
    if forall j :: 0 <= j <= i ==> Serial(ss, acts, d, root, j) {
      forall j | 0 <= j < i ensures StoresEdit(ss[j], d, root, acts[j]) {
        assert Serial(ss, acts, d, root, j + 1);
        SerialStep(ss, acts, d, root, j);
      }
    }
    if forall j :: 0 <= j < i ==> StoresEdit(ss[j], d, root, acts[j]) {
      forall j | 0 <= j <= i ensures Serial(ss, acts, d, root, j) {
        SerialIfCurrent(ss, acts, d, root, j);
      }
    }
  }

  // ---- a guard that makes runs serial ----

  /** Resolved and not yet stored. */
  predicate InFlight(p: Phase) {
    p.Resolved? || p.Located?
  }

  /** No two threads are between the resolve and the store of an edit of one page. */
  ghost predicate Exclusive(s: State, d: Definition) {
    forall t, u :: t in s.threads && u in s.threads && t != u && InFlight(s.threads[t]) && InFlight(s.threads[u]) ==>
      d.Page(s.threads[t].addr) != d.Page(s.threads[u].addr)
  }

  /** The word a thread is about to store is its edit of the PTE as it is now. */
  predicate Current(m: Memory, d: Definition, root: nat, p: Phase) {
    InFlight(p) ==>
      var e := Resolve(m, d, root, p.addr);
      PTE in e.valid && p.word == p.edit.Apply(d.arch, e.pte)
  }

  ghost predicate AllCurrent(s: State, d: Definition, root: nat) {
    forall t :: t in s.threads ==> Current(s.mem, d, root, s.threads[t])
  }

  lemma {:induction false} StoreKeepsCurrent(s: State, d: Definition, root: nat, tid: nat)
    requires d.Consistent() && Coherent(s, d, root) && Exclusive(s, d) && AllCurrent(s, d, root)
    requires Enabled(s, d, root, Store(tid))
    ensures AllCurrent(After(s, d, root, Store(tid)), d, root)
  {
    hide Resolve, Walked, TreeShaped, Definition.Page, Definition.Consistent, PteSlot, InTable, Put, Edit.Apply;
    var s', p := After(s, d, root, Store(tid)), s.threads[tid];
    assert Knows(s.mem, d, root, p);
    forall t | t in s'.threads ensures Current(s'.mem, d, root, s'.threads[t]) {
      assert Current(s.mem, d, root, s.threads[t]);
      if t != tid && InFlight(s.threads[t]) {
        StoreFrames(s.mem, d, root, p.addr, p.word, s.threads[t].addr);
      }
    }
  }

  lemma {:induction false} OthersKeepCurrent(s: State, d: Definition, root: nat, a: Action)
    requires Coherent(s, d, root) && AllCurrent(s, d, root) && Enabled(s, d, root, a) && !a.Store?
    requires SparesTables(s, d, root, a)
    ensures AllCurrent(After(s, d, root, a), d, root)
  {
    hide Resolve, Walked, TreeShaped, Definition.Page, PteSlot, InTable, Put, Edit.Apply;
    var s' := After(s, d, root, a);
    if a.Data? {
      DataStoreFrames(s.mem, d, root, a.slot, a.word);
    }
    forall t | t in s'.threads ensures Current(s'.mem, d, root, s'.threads[t]) {
      if t in s.threads {
        assert Current(s.mem, d, root, s.threads[t]);
      }
    }
  }

  lemma {:induction false} RunIsCurrent(ss: seq<State>, acts: seq<Action>, d: Definition, root: nat, i: nat)
    requires d.Consistent() && IsRun(ss, acts, d, root) && Initial(ss[0], d, root) && i < |ss|
    requires forall j :: 0 <= j < i ==> Exclusive(ss[j], d)
    ensures AllCurrent(ss[i], d, root)
    decreases i
  {
    hide TreeShaped, Enabled, After, Resolve, Definition.Consistent, Definition.Page, Exclusive, Edit.Apply;
    if i > 0 {
      RunIsCurrent(ss, acts, d, root, i - 1);
      RunsAreCoherent(ss, acts, d, root, i - 1);
      if acts[i - 1].Store? {
        StoreKeepsCurrent(ss[i - 1], d, root, acts[i - 1].tid);
      } else {
        OthersKeepCurrent(ss[i - 1], d, root, acts[i - 1]);
      }
    }
  }

  lemma {:induction false} CurrentStores(s: State, d: Definition, root: nat, a: Action)
    requires AllCurrent(s, d, root) && Enabled(s, d, root, a)
    ensures StoresEdit(s, d, root, a)
  {
    hide Resolve, Edit.Apply, InTable;
    if a.Store? {
      assert Current(s.mem, d, root, s.threads[a.tid]);
    }
  }

  /**
   * So a run is serial in which no two threads are between the resolve and the store of an edit of one page: each call
   * takes effect where its store is.
   */
  lemma {:induction false} RunsAreSerial(ss: seq<State>, acts: seq<Action>, d: Definition, root: nat, i: nat)
    requires d.Consistent() && IsRun(ss, acts, d, root) && Initial(ss[0], d, root) && i < |ss|
    requires forall j :: 0 <= j < i ==> Exclusive(ss[j], d)
    ensures Serial(ss, acts, d, root, i)
  {
    hide Enabled, After, Definition.Consistent, Exclusive, AllCurrent, Initial, StoresEdit, Serial;
    forall j | 0 <= j < i ensures StoresEdit(ss[j], d, root, acts[j]) {
      RunIsCurrent(ss, acts, d, root, j);
      CurrentStores(ss[j], d, root, acts[j]);
    }
    SerialIfCurrent(ss, acts, d, root, i);
  }

  // ---- edits of one page at the same time ----

  /** Two threads resolve the same page before either of them stores. */
  function Overlapping(addr: nat, first: Edit, second: Edit): seq<Action> {
    [Begin(1, addr, first), Begin(2, addr, second), Locate(1), Locate(2), Store(1), Store(2)]
  }

  lemma {:induction false} TwoCalls(m: Memory, d: Definition, root: nat, addr: nat, first: Edit, second: Edit)
    requires PTE in Resolve(m, d, root, addr).valid && PteApart(m, d, root, addr)
    ensures var pte := Resolve(m, d, root, addr).pte;
            PteEdited(PteEdited(m, d, root, addr, first), d, root, addr, second)
            == Put(m, PteSlot(m, d, root, addr), second.Apply(d.arch, first.Apply(d.arch, pte)))
  {
    hide Resolve, PteEdited, PteApart, PteSlot, Edit.Apply;
    PteEditedIsOneStore(m, d, root, addr, first);
    var m' := PteEdited(m, d, root, addr, first);
    ResolveAfterPteStore(m, d, root, addr, first.Apply(d.arch, Resolve(m, d, root, addr).pte));
    PteEditedIsOneStore(m', d, root, addr, second);
  }

  lemma {:induction false} OverlappingRun(m: Memory, d: Definition, root: nat, addr: nat, first: Edit, second: Edit)
      returns (ss: seq<State>)
    requires PTE in Resolve(m, d, root, addr).valid
    ensures IsRun(ss, Overlapping(addr, first, second), d, root) && ss[0] == State(m, map[], map[])
    ensures ss[6].mem == Put(m, PteSlot(m, d, root, addr), second.Apply(d.arch, Resolve(m, d, root, addr).pte))
  {
    hide Resolve, Definition.Page, PteSlot, Edit.Apply, InTable, Put;
    var acts := Overlapping(addr, first, second);
    var s0 := State(m, map[], map[]);
    var s1 := After(s0, d, root, acts[0]);
    var s2 := After(s1, d, root, acts[1]);
    var s3 := After(s2, d, root, acts[2]);
    var s4 := After(s3, d, root, acts[3]);
    var s5 := After(s4, d, root, acts[4]);
    ss := [s0, s1, s2, s3, s4, s5, After(s5, d, root, acts[5])];
    LastStoreStays(m, PteSlot(m, d, root, addr), s4.threads[1].word, s5.threads[2].word);
  }

  lemma {:induction false} LastStoreStays(m: Memory, slot: nat, v: Word, w: Word)
    ensures Put(Put(m, slot, v), slot, w) == Put(m, slot, w)
  {
  }

  /**
   * Without that guard an edit can be lost: two overlapping edits of a page leave what the second one alone leaves, and
   * so the memory of the two calls in either order exactly when that order gives the PTE the same word.
   */
  lemma {:induction false} OverlappingEditIsLost(m: Memory, d: Definition, root: nat, addr: nat, first: Edit,
      second: Edit) returns (ss: seq<State>)
    requires d.Consistent() && TreeShaped(m, d, root) && PTE in Resolve(m, d, root, addr).valid
    ensures IsRun(ss, Overlapping(addr, first, second), d, root) && Initial(ss[0], d, root) && ss[0].mem == m
    ensures ss[6].mem == PteEdited(m, d, root, addr, second)
    ensures var pte := Resolve(m, d, root, addr).pte;
            && (ss[6].mem == PteEdited(PteEdited(m, d, root, addr, first), d, root, addr, second)
                <==> second.Apply(d.arch, first.Apply(d.arch, pte)) == second.Apply(d.arch, pte))
            && (ss[6].mem == PteEdited(PteEdited(m, d, root, addr, second), d, root, addr, first)
                <==> first.Apply(d.arch, second.Apply(d.arch, pte)) == second.Apply(d.arch, pte))
  {
    hide Resolve, PteEdited, PteApart, PteSlot, Edit.Apply, TreeShaped, Definition.Consistent, IsRun;
    WalkSlotsAreDistinct(m, d, root, addr);
    ss := OverlappingRun(m, d, root, addr, first, second);
    PteEditedIsOneStore(m, d, root, addr, second);
    TwoCalls(m, d, root, addr, first, second);
    TwoCalls(m, d, root, addr, second, first);
  }

  // ---- one edit of a cached page, with the CPU walking the page again between the two flushes ----

  function Interrupted(addr: nat, edit: Edit): seq<Action> {
    [Fill(addr), Begin(1, addr, edit), Locate(1), Store(1), Flush(1), Fill(addr), Finish(1)]
  }

  lemma {:induction false} UpToStore(m: Memory, d: Definition, root: nat, addr: nat, edit: Edit)
      returns (ss: seq<State>)
    requires PTE in Resolve(m, d, root, addr).valid
    ensures IsRun(ss, [Fill(addr), Begin(1, addr, edit), Locate(1), Store(1)], d, root)
    ensures ss[0] == State(m, map[], map[])
    ensures ss[4] == State(PteEdited(m, d, root, addr, edit), map[d.Page(addr) := Resolve(m, d, root, addr)],
                map[1 := Stored(addr)])
  {
    hide Resolve, Definition.Page, PteSlot, Edit.Apply, InTable, PteEdited, Put;
    var s0 := State(m, map[], map[]);
    var s1 := After(s0, d, root, Fill(addr));
    var s2 := After(s1, d, root, Begin(1, addr, edit));
    PteEditedIsOneStore(m, d, root, addr, edit);
    var s3 := After(s2, d, root, Locate(1));
    ss := [s0, s1, s2, s3, After(s3, d, root, Store(1))];
    assert ss[4].threads == map[1 := Stored(addr)];
  }

  lemma {:induction false} FromStore(m: Memory, d: Definition, root: nat, addr: nat, walk: Entry)
      returns (ss: seq<State>)
    ensures IsRun(ss, [Flush(1), Fill(addr), Finish(1)], d, root)
    ensures ss[0] == State(m, map[d.Page(addr) := walk], map[1 := Stored(addr)])
    ensures d.Page(addr) !in ss[1].tlb && ss[2].tlb == map[d.Page(addr) := Resolve(m, d, root, addr)]
    ensures ss[1].mem == ss[2].mem == m && ss[3] == State(m, map[], map[])
  {
    hide Resolve, Definition.Page, InTable;
    var s0 := State(m, map[d.Page(addr) := walk], map[1 := Stored(addr)]);
    var s1 := After(s0, d, root, Flush(1));
    var s2 := After(s1, d, root, Fill(addr));
    ss := [s0, s1, s2, After(s2, d, root, Finish(1))];
  }

  lemma {:induction false} InterruptedRun(m: Memory, d: Definition, root: nat, addr: nat, edit: Edit)
      returns (ss: seq<State>)
    requires PTE in Resolve(m, d, root, addr).valid
    ensures IsRun(ss, Interrupted(addr, edit), d, root) && ss[0] == State(m, map[], map[])
    ensures var page, m' := d.Page(addr), PteEdited(m, d, root, addr, edit);
            && ss[4].mem == m' && ss[4].tlb == map[page := Resolve(m, d, root, addr)]
            && page !in ss[5].tlb && ss[6].mem == m' && ss[6].tlb == map[page := Resolve(m', d, root, addr)]
            && ss[7] == State(m', map[], map[])
  {
    hide Resolve, Definition.Page, PteEdited, Enabled, After, SparesTables;
    var ss1 := UpToStore(m, d, root, addr, edit);
    var ss2 := FromStore(PteEdited(m, d, root, addr, edit), d, root, addr, Resolve(m, d, root, addr));
    ss := ss1 + ss2[1..];
    var acts, first := Interrupted(addr, edit), [Fill(addr), Begin(1, addr, edit), Locate(1), Store(1)];
    assert acts == first + [Flush(1), Fill(addr), Finish(1)];
    forall i | 0 <= i < 7
      ensures Enabled(ss[i], d, root, acts[i]) && ss[i + 1] == After(ss[i], d, root, acts[i])
      ensures SparesTables(ss[i], d, root, acts[i])
    {
      if i < 4 {
        assert acts[i] == first[i];
      } else {
        assert ss[i] == ss2[i - 4] && ss[i + 1] == ss2[i - 3];
      }
    }
  }

  /**
   * On every tree-shaped memory the cached walk is there and stale after the store, exactly when the edit changes the
   * PTE; it is gone after the first flush; cached again, it is the new walk; and it is gone after the second flush.
   */
  lemma {:induction false} BothFlushesDrop(m: Memory, d: Definition, root: nat, addr: nat, edit: Edit)
      returns (ss: seq<State>)
    requires d.Consistent() && TreeShaped(m, d, root) && PTE in Resolve(m, d, root, addr).valid
    ensures IsRun(ss, Interrupted(addr, edit), d, root) && Initial(ss[0], d, root) && ss[0].mem == m
    ensures var page, pte := d.Page(addr), Resolve(m, d, root, addr).pte;
            && page in ss[4].tlb && page !in ss[5].tlb && page in ss[6].tlb && page !in ss[7].tlb
            && (ss[4].tlb[page] != Resolve(ss[4].mem, d, root, addr) <==> edit.Apply(d.arch, pte) != pte)
            && ss[6].tlb[page] == Resolve(PteEdited(m, d, root, addr, edit), d, root, addr)
  {
    hide Resolve, PteEdited, PteApart, PteSlot, Edit.Apply, TreeShaped, Definition.Consistent, Definition.Page, IsRun;
    ss := InterruptedRun(m, d, root, addr, edit);
    WalkSlotsAreDistinct(m, d, root, addr);
    PteEditedIsOneStore(m, d, root, addr, edit);
    ResolveAfterPteStore(m, d, root, addr, edit.Apply(d.arch, Resolve(m, d, root, addr).pte));
  }
}
