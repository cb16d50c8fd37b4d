/** When cached walks stay right on any tables, self-mapped ones and stores to entries included. */
module Coherence {
  import opened Words
  import opened Paging
  import opened Walk
  import opened Unrolled
  import opened PteEdits
  import opened Frames
  import opened Tlb

  /** Every cached walk is the current one unless a flush of its page is pending. */
  ghost predicate Agreeing(s: State, d: Definition, root: nat) {
    forall addr: nat :: Agrees(s, d, root, addr)
  }

  /** Storing `w` at `x` leaves what `addr` resolves to alone. */
  ghost predicate Misses(m: Memory, d: Definition, root: nat, addr: nat, x: nat, w: Word) {
    var u := Walked(m, d, root, addr);
    || w == m[x]
    || (forall j :: 0 <= j < |u| ==> u[j].slot != x)
    || (Trace(m, d, root, addr) == [] && !Present(d.arch, w))
  }

  /** The page's walk is cached and no flush of it is pending. */
  predicate Trusted(s: State, d: Definition, page: nat) {
    page in s.tlb && !Pending(s, d, page)
  }

  /** The action's store, if it makes one, misses the cached walks; an edit may hit those of its own page. */
  ghost predicate Spares(s: State, d: Definition, root: nat, a: Action)
    requires Enabled(s, d, root, a)
  {
    match a
    case Data(x, w) =>
      forall addr: nat :: Trusted(s, d, d.Page(addr)) ==> Misses(s.mem, d, root, addr, x, w)
    case Store(tid) =>
      var p := s.threads[tid];
      forall addr: nat :: Trusted(s, d, d.Page(addr)) && d.Page(addr) != d.Page(p.addr) ==>
        Misses(s.mem, d, root, addr, p.slot, p.word)
    case _ => true
  }

  lemma {:induction false} MissesExactly(m: Memory, d: Definition, root: nat, addr: nat, x: nat, w: Word)
    ensures Resolve(Put(m, x, w), d, root, addr) == Resolve(m, d, root, addr) <==> Misses(m, d, root, addr, x, w)
  {
    hide Resolve, Walked, Trace, Present, Slot;
    SameEntryIffSameWords(m, Put(m, x, w), d, root, addr);
    TraceIsAbsent(m, d, root, addr);
    if Trace(m, d, root, addr) == [] {
      OnlyPgdRead(m, d, root, addr);
    }
  }

  lemma {:induction false} TraceIsAbsent(m: Memory, d: Definition, root: nat, addr: nat)
    ensures Trace(m, d, root, addr) == [] <==>
              RootBase(root) == 0 || !Present(d.arch, m[PgdSlot(d, root, addr)])
  {
    hide IsWalk, Present, Slot;
    TraceIsWalk(m, d, root, addr);
  }

  lemma {:induction false} DataAgrees(s: State, d: Definition, root: nat, x: nat, w: Word)
    requires Agreeing(s, d, root)
    ensures Agreeing(After(s, d, root, Data(x, w)), d, root) <==> Spares(s, d, root, Data(x, w))
  {
    hide Resolve, Misses, Definition.Page, Put;
    var s' := After(s, d, root, Data(x, w));
    forall addr: nat
      ensures Agrees(s', d, root, addr)
          <==> (Trusted(s, d, d.Page(addr)) ==> Misses(s.mem, d, root, addr, x, w))
    {
      MissesExactly(s.mem, d, root, addr, x, w);
      assert Agrees(s, d, root, addr);
      assert Pending(s', d, d.Page(addr)) == Pending(s, d, d.Page(addr));
    }
  }

  lemma {:induction false} StoreAgrees(s: State, d: Definition, root: nat, tid: nat)
    requires Agreeing(s, d, root) && Enabled(s, d, root, Store(tid))
    ensures Agreeing(After(s, d, root, Store(tid)), d, root) <==> Spares(s, d, root, Store(tid))
  {
    hide Resolve, Misses, Definition.Page, Put;
    var s', p := After(s, d, root, Store(tid)), s.threads[tid];
    forall addr: nat
      ensures Agrees(s', d, root, addr) <==> (Trusted(s, d, d.Page(addr)) && d.Page(addr) != d.Page(p.addr) ==>
          Misses(s.mem, d, root, addr, p.slot, p.word))
    {
      MissesExactly(s.mem, d, root, addr, p.slot, p.word);
      assert Agrees(s, d, root, addr);
      StorePends(s, d, root, tid, d.Page(addr));
    }
  }

  lemma {:induction false} StorePends(s: State, d: Definition, root: nat, tid: nat, page: nat)
    requires Enabled(s, d, root, Store(tid))
    ensures Pending(After(s, d, root, Store(tid)), d, page)
            <==> (Pending(s, d, page) || page == d.Page(s.threads[tid].addr))
  {
    hide Resolve, Definition.Page, Put;
    var s' := After(s, d, root, Store(tid));
    assert s'.threads[tid] == Stored(s.threads[tid].addr);
    if t :| t in s.threads && s.threads[t].Stored? && d.Page(s.threads[t].addr) == page {
      assert t in s'.threads && s'.threads[t].Stored?;
    }
  }

  lemma {:induction false} OthersAgree(s: State, d: Definition, root: nat, a: Action)
    requires Agreeing(s, d, root) && Enabled(s, d, root, a) && !a.Data? && !a.Store?
    ensures Agreeing(After(s, d, root, a), d, root)
  {
    hide Resolve, Definition.Page, PteSlot, Edit.Apply, Pending;
    var s' := After(s, d, root, a);
    forall addr: nat ensures Agrees(s', d, root, addr) {
      assert Agrees(s, d, root, addr);
      if a.Fill? {
        SamePendings(s, s', d, d.Page(addr));
        if d.Page(addr) == d.Page(a.addr) {
          SamePageSameWalk(s.mem, d, root, addr, a.addr);
        }
      } else if a.Evict? {
        SamePendings(s, s', d, d.Page(addr));
      } else if d.Page(addr) in s'.tlb && Pending(s, d, d.Page(addr)) {
        PendingStays(s, s', d, d.Page(addr), a.tid);
      }
    }
  }

  lemma {:induction false} SamePendings(s: State, s': State, d: Definition, page: nat)
    requires s'.threads == s.threads
    ensures Pending(s', d, page) == Pending(s, d, page)
  {
  }

  /**
   * One action on any tables: the cached walks stay right exactly when its store, to an entry or not, misses them,
   * except that an edit may hit those of its own page.
   */
  lemma {:induction false} ActionAgreesExactly(s: State, d: Definition, root: nat, a: Action)
    requires Agreeing(s, d, root) && Enabled(s, d, root, a)
    ensures Agreeing(After(s, d, root, a), d, root) <==> Spares(s, d, root, a)
  {
    hide Agreeing, Resolve;
    match a
    case Data(x, w) => DataAgrees(s, d, root, x, w);
    case Store(tid) => StoreAgrees(s, d, root, tid);
    case _ => OthersAgree(s, d, root, a);
  }

  /** Whatever the cached walks are, dropping them all makes the cache right, and keeps memory and threads. */
  lemma {:induction false} EvictAllAgrees(s: State, d: Definition, root: nat)
    ensures var s' := After(s, d, root, Evict(s.tlb.Keys));
            Agreeing(s', d, root) && s'.mem == s.mem && s'.threads == s.threads
  {
    hide Resolve, Definition.Page;
  }

  lemma {:induction false} AgreesWhileSpared(ss: seq<State>, acts: seq<Action>, d: Definition, root: nat, i: nat)
    requires IsFreeRun(ss, acts, d, root) && Agreeing(ss[0], d, root) && i < |ss|
    requires forall j :: 0 <= j < i ==> Spares(ss[j], d, root, acts[j])
    ensures Agreeing(ss[i], d, root)
    decreases i
  {
    hide Agreeing, Enabled, After, Spares;
    if i > 0 {
      AgreesWhileSpared(ss, acts, d, root, i - 1);
      ActionAgreesExactly(ss[i - 1], d, root, acts[i - 1]);
    }
  }

  /** In every run on any tables, the cached walks are right all along exactly when every store spares them. */
  lemma {:induction false} RunsAgreeExactly(ss: seq<State>, acts: seq<Action>, d: Definition, root: nat, i: nat)
    requires IsFreeRun(ss, acts, d, root) && Agreeing(ss[0], d, root) && i < |ss|
    ensures (forall j :: 0 <= j <= i ==> Agreeing(ss[j], d, root))
            <==> forall j :: 0 <= j < i ==> Spares(ss[j], d, root, acts[j])
  {
    hide Agreeing, Enabled, After, Spares;
    if forall j :: 0 <= j <= i ==> Agreeing(ss[j], d, root) {
      forall j | 0 <= j < i ensures Spares(ss[j], d, root, acts[j]) {
        assert Agreeing(ss[j + 1], d, root);
        ActionAgreesExactly(ss[j], d, root, acts[j]);
      }
    }
    if forall j :: 0 <= j < i ==> Spares(ss[j], d, root, acts[j]) {
      forall j | 0 <= j <= i ensures Agreeing(ss[j], d, root) {
        AgreesWhileSpared(ss, acts, d, root, j);
      }
    }
  }

  /** On tree-shaped tables every action spares them whose data stay outside the tables. */
  lemma {:induction false} TreesSpare(s: State, d: Definition, root: nat, a: Action)
    requires d.Consistent() && Coherent(s, d, root) && Enabled(s, d, root, a) && SparesTables(s, d, root, a)
    ensures Spares(s, d, root, a)
  {
    hide Enabled, SparesTables, After, Spares, Agrees, Definition.Consistent;
    ActionKeeps(s, d, root, a);
    ActionAgreesExactly(s, d, root, a);
  }
}
