/** The enumeration of a whole address space by demos/memmap.c (x86), against the pointwise walk. */
module Memmap {
  import opened Words
  import opened Radix
  import opened Paging
  import opened Walk
  import opened Wrappers

  /** One printed line: a page at `start`, and the bytes it adds to `mem_usage`. */
  datatype Range = Range(start: nat, size: nat)

  const SMALL := 4096
  const LARGE := 2 * 1024 * 1024

  /** The bytes an entry covers, by how many tables lie below it: PT, PD, PDPT, PML4. */
  function Span(depth: nat): (n: nat)
    ensures n > 0
  {
    if depth == 0 then 4096 else 512 * Span(depth - 1)
  }

  /** The loop bounds: the upper half of the PML4 is the kernel's and is not visited. */
  function Limit(depth: nat): nat {
    if depth == 3 then 256 else 512
  }

  /** What the loops print for the entries from `i` on of the table at `base` that maps addresses from `va` on. */
  function Pages(m: Memory, depth: nat, base: nat, va: nat, i: nat): seq<Range>
    requires i <= Limit(depth)
    decreases depth, Limit(depth) - i, 1
  {
    if i == Limit(depth) then [] else OfEntry(m, depth, base, va, i) + Pages(m, depth, base, va, i + 1)
  }

  /** What one loop iteration prints. */
  function OfEntry(m: Memory, depth: nat, base: nat, va: nat, i: nat): seq<Range>
    requires i < Limit(depth)
    decreases depth, Limit(depth) - i, 0
  {
    var w, v := m[base + 8 * i], va + i * Span(depth);
    if !Present(X86, w) then []
    else if depth == 0 then [Range(v, SMALL)]
    else if depth == 1 && MapsLarge(X86, w) then [Range(v, LARGE)]
    else Pages(m, depth - 1, PfnBase(X86, w), v, 0)
  }

  function Total(rs: seq<Range>): nat {
    if rs == [] then 0 else rs[0].size + Total(rs[1..])
  }

  // ---- increasing, disjoint, and bounded ----

  /** The ranges lie in [lo, hi), in strictly increasing order and without overlap. */
  ghost predicate Increasing(rs: seq<Range>, lo: nat, hi: nat) {
    && (forall i :: 0 <= i < |rs| ==> rs[i].size > 0 && lo <= rs[i].start && rs[i].start + rs[i].size <= hi)
    && (forall i, j :: 0 <= i < j < |rs| ==> rs[i].start + rs[i].size <= rs[j].start)
  }

  lemma {:induction false} IncreasingJoins(a: seq<Range>, b: seq<Range>, lo: nat, mid: nat, hi: nat)
    requires lo <= mid <= hi && Increasing(a, lo, mid) && Increasing(b, mid, hi)
    ensures Increasing(a + b, lo, hi)
  {
  }

  lemma {:induction false} PagesIncrease(m: Memory, depth: nat, base: nat, va: nat, i: nat)
    requires i <= Limit(depth)
    ensures Increasing(Pages(m, depth, base, va, i), va + i * Span(depth), va + Limit(depth) * Span(depth))
    decreases depth, Limit(depth) - i, 1
  {
    hide Increasing, Span;
    if i == Limit(depth) {
      NothingIncreases(va + i * Span(depth), va + Limit(depth) * Span(depth));
    } else {
      EntryIncreases(m, depth, base, va, i);
      PagesIncrease(m, depth, base, va, i + 1);
      NextFits(i, Limit(depth), Span(depth));
      IncreasingJoins(OfEntry(m, depth, base, va, i), Pages(m, depth, base, va, i + 1),
        va + i * Span(depth), va + (i + 1) * Span(depth), va + Limit(depth) * Span(depth));
    }
  }

  lemma {:induction false} NothingIncreases(lo: nat, hi: nat)
    ensures Increasing([], lo, hi)
  {
  }

  lemma {:induction false} NextFits(i: nat, n: nat, size: nat)
    requires i < n
    ensures i * size + size == (i + 1) * size <= n * size
  {
    NextStart(0, i, size);
    TimesGrows(n, i + 1, size);
  }

  lemma {:induction false} EntryIncreases(m: Memory, depth: nat, base: nat, va: nat, i: nat)
    requires i < Limit(depth)
    ensures Increasing(OfEntry(m, depth, base, va, i), va + i * Span(depth), va + (i + 1) * Span(depth))
    decreases depth, Limit(depth) - i, 0
  {
    hide Present, MapsLarge, PfnBase, Pages, Increasing, Span;
    var w, v := m[base + 8 * i], va + i * Span(depth);
    NextStart(va, i, Span(depth));
    NothingIncreases(v, v + Span(depth));
    if depth == 0 {
      Spans();
      OneRange(v, SMALL);
    } else if depth == 1 && MapsLarge(X86, w) {
      Spans();
      OneRange(v, LARGE);
    } else if Present(X86, w) {
      PagesIncrease(m, depth - 1, PfnBase(X86, w), v, 0);
      TableSpan(depth - 1);
      IncreasingWidens(Pages(m, depth - 1, PfnBase(X86, w), v, 0), v, v + Limit(depth - 1) * Span(depth - 1), v
          + Span(depth));
    }
  }

  lemma {:induction false} NextStart(va: nat, i: nat, size: nat)
    ensures va + i * size + size == va + (i + 1) * size
  {
  }

  lemma {:induction false} OneRange(v: nat, size: nat)
    requires size > 0
    ensures Increasing([Range(v, size)], v, v + size)
  {
  }

  lemma {:induction false} TableSpan(depth: nat)
    ensures Limit(depth) * Span(depth) <= Span(depth + 1)
  {
  }

  lemma {:induction false} IncreasingWidens(rs: seq<Range>, lo: nat, hi: nat, hi': nat)
    requires Increasing(rs, lo, hi) && hi <= hi'
    ensures Increasing(rs, lo, hi')
  {
  }

  lemma {:induction false} IncreasingFits(rs: seq<Range>, lo: nat, hi: nat)
    requires Increasing(rs, lo, hi) && lo <= hi
    ensures Total(rs) <= hi - lo
  {
    if rs != [] {
      IncreasingFits(rs[1..], rs[0].start + rs[0].size, hi);
    }
  }

  lemma {:induction false} Spans()
    ensures Span(0) == 4096 && Span(1) == 0x20_0000 && Span(2) == 0x4000_0000 && Span(3) == 0x80_0000_0000
    ensures Span(4) == 0x1_0000_0000_0000
  {
  }

  /** What memmap prints is strictly increasing and disjoint, and the sizes add up to at most 2^47. */
  lemma {:induction false} PrintedIsIncreasing(m: Memory, base: nat)
    ensures Increasing(Pages(m, 3, base, 0, 0), 0, 0x8000_0000_0000)
    ensures Total(Pages(m, 3, base, 0, 0)) <= 0x8000_0000_0000
  {
    hide Pages, Increasing;
    Spans();
    PagesIncrease(m, 3, base, 0, 0);
    IncreasingFits(Pages(m, 3, base, 0, 0), 0, 0x8000_0000_0000);
  }

  // ---- what is printed ----

  /** The index the loops give an address at a depth. */
  function LoopIndex(v: nat, depth: nat): nat {
    v / Span(depth) % 512
  }

  /** The size of the page the loops find for one address, if they find one. */
  function Lookup(m: Memory, depth: nat, base: nat, v: nat): Option<nat> {
    var w := m[base + 8 * LoopIndex(v, depth)];
    if !Present(X86, w) then None
    else if depth == 0 then Some(SMALL)
    else if depth == 1 && MapsLarge(X86, w) then Some(LARGE)
    else Lookup(m, depth - 1, PfnBase(X86, w), v)
  }

  lemma {:induction false} InSomeEntry(m: Memory, depth: nat, base: nat, va: nat, i: nat, r: Range) returns (j: nat)
    requires i <= Limit(depth) && r in Pages(m, depth, base, va, i)
    ensures i <= j < Limit(depth) && r in OfEntry(m, depth, base, va, j)
    decreases Limit(depth) - i
  {
    hide OfEntry, Limit;
    if r in OfEntry(m, depth, base, va, i) {
      j := i;
    } else {
      j := InSomeEntry(m, depth, base, va, i + 1, r);
    }
  }

  lemma {:induction false} EntryInPages(m: Memory, depth: nat, base: nat, va: nat, i: nat, j: nat, r: Range)
    requires i <= j < Limit(depth) && r in OfEntry(m, depth, base, va, j)
    ensures r in Pages(m, depth, base, va, i)
    decreases j - i
  {
    hide OfEntry, Limit;
    if i < j {
      EntryInPages(m, depth, base, va, i + 1, j, r);
    }
  }

  /** A range that starts in the part of an entry is printed by that entry if by any. */
  lemma {:induction false} OnlyOneEntry(m: Memory, depth: nat, base: nat, va: nat, j: nat, i: nat, r: Range)
    requires j < Limit(depth) && r in OfEntry(m, depth, base, va, j)
    requires va + i * Span(depth) <= r.start < va + (i + 1) * Span(depth)
    ensures j == i
  {
    hide OfEntry, Span;
    EntryIncreases(m, depth, base, va, j);
    SameMultiple(j, i, Span(depth), r.start - va);
  }

  lemma {:induction false} SameMultiple(j: nat, i: nat, size: nat, x: int)
    requires j * size <= x < (j + 1) * size && i * size <= x < (i + 1) * size
    ensures i == j
  {
    NextStart(0, i, size);
    NextStart(0, j, size);
    QuotientIsUnique(size, j, x - j * size, i, x - i * size);
  }

  /** The part of an aligned table that an address lies in is the one its index names. */
  lemma {:induction false} PartOfIndex(depth: nat, va: nat, v: nat)
    requires va % Span(depth + 1) == 0 && va <= v < va + Span(depth + 1)
    ensures var i := LoopIndex(v, depth);
            va + i * Span(depth) <= v < va + (i + 1) * Span(depth) && (va + i * Span(depth)) % Span(depth) == 0
  {
    hide Span;
    SpanGrows(depth);
    PartOf(va / Span(depth + 1), v - va, v, Span(depth));
  }

  lemma {:induction false} SpanGrows(depth: nat)
    ensures Span(depth + 1) == 512 * Span(depth)
  {
  }

  lemma {:induction false} PartOf(q: nat, x: nat, v: nat, size: nat)
    requires size > 0 && x < 512 * size && v == q * (512 * size) + x
    ensures var i := v / size % 512;
            q * (512 * size) + i * size <= v < q * (512 * size) + (i + 1) * size
            && (q * (512 * size) + i * size) % size == 0
  {
    var i := x / size;
    Regroup(q, i, size);
    ModIgnoresMultiples(x, size, q * 512);
    QuotientBelow(x, size);
    DivAndMod(q * 512 + i, 512, q, i);
    DivAndMod((q * 512 + i) * size, size, q * 512 + i, 0);
    NextStart(0, i, size);
  }

  lemma {:induction false} Regroup(q: nat, i: nat, size: nat)
    ensures q * (512 * size) == (q * 512) * size
    ensures q * (512 * size) + i * size == (q * 512 + i) * size
  {
  }

  lemma {:induction false} QuotientBelow(x: nat, size: nat)
    requires size > 0 && x < 512 * size
    ensures x / size < 512
  {
  }

  /** Only the entry an address lies in prints a range that starts there. */
  lemma {:induction false} PrintedByEntry(m: Memory, depth: nat, base: nat, va: nat, r: Range)
    requires va % Span(depth + 1) == 0 && va <= r.start < va + Span(depth + 1)
    requires LoopIndex(r.start, depth) < Limit(depth)
    ensures r in Pages(m, depth, base, va, 0) <==> r in OfEntry(m, depth, base, va, LoopIndex(r.start, depth))
  {
    hide Span, Pages, OfEntry, LoopIndex, Limit;
    var i := LoopIndex(r.start, depth);
    PartOfIndex(depth, va, r.start);
    if r in Pages(m, depth, base, va, 0) {
      var j := InSomeEntry(m, depth, base, va, 0, r);
      OnlyOneEntry(m, depth, base, va, j, i, r);
    }
    if r in OfEntry(m, depth, base, va, i) {
      EntryInPages(m, depth, base, va, 0, i, r);
    }
  }

  /** A single page is found at its start only, which is aligned to its size. */
  lemma {:induction false} OnePageFound(v: nat, r: Range, size: nat)
    requires size > 0 && v % size == 0 && v <= r.start < v + size
    ensures r in [Range(v, size)] <==> size == r.size && r.size > 0 && r.start % r.size == 0
  {
    AlignedIn(v, r.start, size);
  }

  /** The loops print a range exactly when they find its size at its start, which is aligned to it. */
  lemma {:induction false} PrintedIffFound(m: Memory, depth: nat, base: nat, va: nat, r: Range)
    requires depth <= 3 && va % Span(depth + 1) == 0 && va <= r.start < va + Span(depth + 1)
    requires LoopIndex(r.start, depth) < Limit(depth)
    ensures r in Pages(m, depth, base, va, 0) <==>
              Lookup(m, depth, base, r.start) == Some(r.size) && r.size > 0 && r.start % r.size == 0
    decreases depth
  {
    hide Span, Present, MapsLarge, PfnBase, Pages, LoopIndex;
    var i := LoopIndex(r.start, depth);
    var w, v := m[base + 8 * i], va + i * Span(depth);
    PrintedByEntry(m, depth, base, va, r);
    PartOfIndex(depth, va, r.start);
    NextStart(va, i, Span(depth));
    Spans();
    if Present(X86, w) {
      if depth == 0 {
        OnePageFound(v, r, SMALL);
      } else if depth == 1 && MapsLarge(X86, w) {
        OnePageFound(v, r, LARGE);
      } else {
        IndexInTable(r.start, depth - 1);
        PrintedIffFound(m, depth - 1, PfnBase(X86, w), v, r);
      }
    }
  }

  lemma {:induction false} IndexInTable(v: nat, depth: nat)
    requires depth < 3
    ensures LoopIndex(v, depth) < Limit(depth)
  {
    hide Span;
  }

  lemma {:induction false} AlignedIn(v: nat, x: nat, size: nat)
    requires size > 0 && v % size == 0 && v <= x < v + size
    ensures x % size == 0 <==> x == v
  {
    var q := v / size;
    DivAndMod(x, size, q, x - v);
  }

  // ---- agreement with the walk ----

  /** The levels of the x86 walk from a depth on. */
  function LevelsFrom(depth: nat): (ls: seq<Level>)
    ensures |ls| == depth + 1 || depth > 3
  {
    match depth
    case 0 => [PTE]
    case 1 => [PMD, PTE]
    case 2 => [PUD, PMD, PTE]
    case _ => [PGD, PUD, PMD, PTE]
  }

  /** The size of the page a walk ends in, if it ends in a present PTE or a present PMD with the size bit. */
  function PageOf(t: seq<Step>): Option<nat>
    requires t != []
  {
    var s := t[|t| - 1];
    if !Present(X86, s.word) then None
    else if s.level == PTE then Some(SMALL)
    else if s.level == PMD && MapsLarge(X86, s.word) then Some(LARGE)
    else None
  }

  /** Every entry the walk follows has bits 40 to 51 clear. */
  ghost predicate NarrowWalk(t: seq<Step>) {
    forall k :: 0 <= k < |t| - 1 ==> NarrowFrame(X86, t[k].word)
  }

  lemma {:induction false} SpansArePowers(depth: nat)
    requires depth <= 3
    ensures Span(depth) == Pow2(12 + 9 * depth)
    ensures Pow2(9) == 512 && Pow2(12) == 4096
  {
    Powers();
    hide Pow2;
    if depth > 0 {
      SpansArePowers(depth - 1);
      Pow2Adds(9, 12 + 9 * (depth - 1));
    }
  }

  lemma {:induction false} SameIndex(v: nat, depth: nat)
    requires depth <= 3
    ensures X86_64.Index(v, LevelsFrom(depth)[0]) == LoopIndex(v, depth)
  {
    SpansArePowers(depth);
    hide Pow2, Span;
    DigitIsRemainder(v, 12 + 9 * depth, 9);
  }

  lemma {:induction false} SameSlot(base: nat, v: nat, depth: nat)
    requires depth <= 3 && base % 4096 == 0 && base < 0x1_0000_0000_0000_0000
    ensures Slot(base, LoopIndex(v, depth)) == base + 8 * LoopIndex(v, depth)
  {
    hide Span;
  }

  lemma {:induction false} StepsHead(m: Memory, depth: nat, base: nat, v: nat)
    requires depth <= 3 && base % 4096 == 0 && base < 0x1_0000_0000_0000_0000
    ensures var slot := base + 8 * LoopIndex(v, depth);
            var w := m[slot];
            Steps(m, X86_64, v, base, LevelsFrom(depth)) ==
            [Step(LevelsFrom(depth)[0], slot, w)]
            + if depth > 0 && Present(X86, w) && !(depth == 1 && MapsLarge(X86, w))
              then Steps(m, X86_64, v, Frame(X86, w), LevelsFrom(depth - 1)) else []
  {
    hide Span, Present, MapsLarge, Frame, Slot, LoopIndex, Definition.Index;
    SameIndex(v, depth);
    SameSlot(base, v, depth);
    if depth > 0 {
      assert LevelsFrom(depth)[1..] == LevelsFrom(depth - 1);
    }
  }

  lemma {:induction false} PageOfTail(s: Step, u: seq<Step>)
    requires u != [] && NarrowWalk([s] + u)
    ensures PageOf([s] + u) == PageOf(u) && NarrowWalk(u) && NarrowFrame(X86, s.word)
  {
    hide Present, MapsLarge, NarrowFrame;
    var t := [s] + u;
    assert forall k :: 0 <= k < |u| ==> u[k] == t[k + 1];
    assert t[0] == s;
  }

  /** The loops find at an address the page its walk ends in. */
  lemma {:induction false} FoundIsWalked(m: Memory, depth: nat, base: nat, v: nat)
    requires depth <= 3 && base % 4096 == 0 && base < 0x1_0000_0000_0000_0000
    requires NarrowWalk(Steps(m, X86_64, v, base, LevelsFrom(depth)))
    ensures Lookup(m, depth, base, v) == PageOf(Steps(m, X86_64, v, base, LevelsFrom(depth)))
    decreases depth
  {
    hide Span, Present, MapsLarge, PfnBase, Frame, NarrowFrame, LoopIndex, Steps, NarrowWalk;
    var slot := base + 8 * LoopIndex(v, depth);
    var w := m[slot];
    StepsHead(m, depth, base, v);
    if depth > 0 && Present(X86, w) && !(depth == 1 && MapsLarge(X86, w)) {
      PageOfTail(Step(LevelsFrom(depth)[0], slot, w), Steps(m, X86_64, v, Frame(X86, w), LevelsFrom(depth - 1)));
      FramesAgree(X86, w);
      FrameIsPageAligned(X86, w);
      FoundIsWalked(m, depth - 1, Frame(X86, w), v);
    }
  }

  /** What resolving an address shows: the size of the present page it ends in. */
  function ResolvedPage(e: Entry): Option<nat> {
    if PTE in e.valid then (if Present(X86, e.pte) then Some(SMALL) else None)
    else if PMD in e.valid && Present(X86, e.pmd) && MapsLarge(X86, e.pmd) then Some(LARGE)
    else None
  }

  lemma {:induction false} X86Levels()
    ensures X86_64.Levels() == LevelsFrom(3)
  {
  }

  lemma {:induction false} NotPresentEnds(m: Memory, root: nat, v: nat)
    requires Trace(m, X86_64, root, v) == [] && RootBase(root) == root != 0
    ensures PageOf(Steps(m, X86_64, v, root, LevelsFrom(3))).None?
  {
    hide Present, MapsLarge, Frame, Slot, Steps;
    X86Levels();
    var u := Steps(m, X86_64, v, root, LevelsFrom(3));
    StepsIsWalk(m, X86_64, v, root, LevelsFrom(3));
    assert StepAt(u, 0, m, X86_64, v, root, LevelsFrom(3));
    if |u| > 1 {
      SecondStep(u, m, v, root);
    }
  }

  lemma {:induction false} SecondStep(u: seq<Step>, m: Memory, v: nat, root: nat)
    requires IsWalk(u, m, X86_64, v, root, LevelsFrom(3)) && |u| > 1
    ensures Present(X86, u[0].word)
  {
    hide Present, MapsLarge, Frame, Slot;
    assert StepAt(u, 1, m, X86_64, v, root, LevelsFrom(3));
  }

  lemma {:induction false} EntryPage(t: seq<Step>)
    requires OnLevels(t, X86_64) && t != []
    ensures ResolvedPage(EntryOf(X86_64, t)) == PageOf(t)
  {
    hide Present, MapsLarge, EntryOf, Definition.Levels;
    X86Levels();
    PteIsLast(X86_64, t);
    EntryShowsSteps(X86_64, t);
    var last := t[|t| - 1];
    assert last.level == LevelsFrom(3)[|t| - 1];
    if |t| == 3 {
      assert last.level in EntryOf(X86_64, t).valid && EntryOf(X86_64, t).At(PMD) == last.word;
    } else if |t| < 3 {
      assert forall k :: 0 <= k < |t| ==> t[k].level == LevelsFrom(3)[k] != PMD;
    }
  }

  lemma {:induction false} ResolvedIsWalked(m: Memory, root: nat, v: nat)
    requires RootBase(root) == root != 0
    ensures ResolvedPage(Resolve(m, X86_64, root, v)) == PageOf(Steps(m, X86_64, v, root, LevelsFrom(3)))
  {
    hide Present, MapsLarge, EntryOf, Steps, Frame, Slot, ResolvedPage, PageOf, Definition.Levels;
    X86Levels();
    var t := Trace(m, X86_64, root, v);
    TraceIsWalk(m, X86_64, root, v);
    if t == [] {
      NotPresentEnds(m, root, v);
      NoPage();
    } else {
      EntryPage(t);
    }
  }

  lemma {:induction false} NoPage()
    ensures ResolvedPage(EntryOf(X86_64, [])).None?
  {
  }

  /**
   * For a page-aligned root, and an address whose followed entries have bits 40 to 51 clear: memmap prints the address
   * with a size exactly when it lies in the lower half, is aligned to the size, and resolves to a present page of that
   * size, that is to a present PTE (4096) or to a present PMD with the size bit (2 MB).
   */
  lemma {:induction false} PrintedIffResolved(m: Memory, root: nat, r: Range)
    requires root % 4096 == 0 && 0 < root < 0x1_0000_0000_0000_0000
    requires NarrowWalk(Steps(m, X86_64, r.start, root, X86_64.Levels()))
    ensures r in Pages(m, 3, root, 0, 0) <==>
            && r.start < 0x8000_0000_0000
            && ResolvedPage(Resolve(m, X86_64, root, r.start)) == Some(r.size)
            && r.start % r.size == 0
  {
    hide Pages, Resolve, Steps, ResolvedPage, NarrowWalk;
    X86Levels();
    EvenRoot(root);
    FoundIsWalked(m, 3, root, r.start);
    ResolvedIsWalked(m, root, r.start);
    SizesOf(Steps(m, X86_64, r.start, root, X86_64.Levels()));
    PrintedIsIncreasing(m, root);
    if r.start < 0x8000_0000_0000 {
      Spans();
      LowerHalf(r.start);
      PrintedIffFound(m, 3, root, 0, r);
    }
  }

  lemma {:induction false} EvenRoot(root: nat)
    requires root % 4096 == 0
    ensures RootBase(root) == root
  {
    hide Even;
    EvenIsDivisible(root);
    EvenMultiple(root);
  }

  lemma {:induction false} EvenMultiple(n: nat)
    requires n % 4096 == 0
    ensures n % 2 == 0
  {
    assert n == 2 * (2048 * (n / 4096));
  }

  lemma {:induction false} SizesOf(t: seq<Step>)
    requires t != []
    ensures PageOf(t).Some? ==> PageOf(t).value == SMALL || PageOf(t).value == LARGE
  {
    hide Present, MapsLarge;
  }

  lemma {:induction false} LowerHalf(v: nat)
    requires v < 0x8000_0000_0000
    ensures LoopIndex(v, 3) < 256
  {
    Spans();
    hide Span;
  }
}
