/** Where an edit of one page reaches another: a page-global directory whose first entry maps the directory itself. */
module SelfMap {
  import opened Words
  import opened Radix
  import opened Paging
  import opened Walk
  import opened Unrolled
  import opened PteEdits

  const ROOT := 4096

  /** The root table is also the table below it at every level: entry 0 is present and its frame is the root's. */
  predicate Looped(m: Memory) {
    m[ROOT] == 0x1001
  }

  lemma {:induction false} LoopedEntry()
    ensures Present(X86, 0x1001) && !MapsLarge(X86, 0x1001) && Frame(X86, 0x1001) == ROOT
    ensures ClearBit(0x1001, 0) == 0x1000 && !Present(X86, 0x1000) && !Present(X86, 0)
  {
    assert FieldPfn(X86, 0x1001) == 1;
    assert AsNat(1) == 1;
  }

  /** The first page, and the one after it, which shares every index but the last. */
  lemma {:induction false} FirstIndices()
    ensures X86_64.Index(0, PGD) == X86_64.Index(0, PUD) == X86_64.Index(0, PMD) == X86_64.Index(0, PTE) == 0
    ensures X86_64.Index(4096, PGD) == X86_64.Index(4096, PUD) == X86_64.Index(4096, PMD) == 0
  {
    forall x: nat, s: nat | x == 0 || (x == 4096 && s >= 13) ensures Digit(x, s, 9) == 0 {
      SmallDigit(x, s);
    }
  }

  lemma {:induction false} SmallDigit(x: nat, s: nat)
    requires x == 0 || (x == 4096 && s >= 13)
    ensures Digit(x, s, 9) == 0
  {
    Powers();
    if x == 4096 {
      Pow2Adds(13, s - 13);
      hide Pow2;
      TimesGrows(Pow2(s - 13), 1, 8192);
    }
    hide Pow2;
    DigitIsRemainder(x, s, 9);
    DivAndMod(x, Pow2(s), 0, x);
    DivAndMod(0, Pow2(9), 0, 0);
  }

  lemma {:induction false} RootSlot()
    ensures Slot(ROOT, 0) == ROOT && RootBase(ROOT) == ROOT
  {
    EvenIsDivisible(ROOT);
  }

  lemma {:induction false} FourLevels()
    ensures X86_64.Levels() == [PGD, PUD, PMD, PTE]
  {
  }

  /** An address whose indices above the PTE are 0 is walked through the root three times. */
  lemma {:induction false} LoopedTrace(m: Memory, addr: nat)
    requires Looped(m)
    requires X86_64.Index(addr, PGD) == X86_64.Index(addr, PUD) == X86_64.Index(addr, PMD) == 0
    ensures var slot := Slot(ROOT, X86_64.Index(addr, PTE));
            Trace(m, X86_64, ROOT, addr)
            == [Step(PGD, ROOT, 0x1001), Step(PUD, ROOT, 0x1001), Step(PMD, ROOT, 0x1001), Step(PTE, slot, m[slot])]
  {
    hide Slot, Present, MapsLarge, Frame, Definition.Index, Definition.Levels;
    LoopedEntry();
    RootSlot();
    FourLevels();
    var slot := Slot(ROOT, X86_64.Index(addr, PTE));
    var t := [Step(PGD, ROOT, 0x1001), Step(PUD, ROOT, 0x1001), Step(PMD, ROOT, 0x1001), Step(PTE, slot, m[slot])];
    WalkIsUnique(t, m, X86_64, addr, ROOT, X86_64.Levels());
  }

  lemma {:induction false} LoopedEnds(m: Memory, addr: nat)
    requires X86_64.Index(addr, PGD) == 0 && m[ROOT] == 0x1000
    ensures Resolve(m, X86_64, ROOT, addr).valid == {}
  {
    hide Slot, Present, MapsLarge, Frame, Definition.Index, Definition.Levels;
    LoopedEntry();
    RootSlot();
    FourLevels();
    TraceIsWalk(m, X86_64, ROOT, addr);
    EntryValid(X86_64, Trace(m, X86_64, ROOT, addr));
  }

  lemma {:induction false} TwoPages()
    ensures X86_64.Page(0) != X86_64.Page(4096)
  {
    Powers();
    FiveWidths(X86_64);
    hide Pow2, Digit, Drop, Low, Sum;
    Pow2Adds(9, 27);
    TimesGrows(Pow2(27), 1, 512);
    DigitIsRemainder(0, 12, 36);
    DigitIsRemainder(4096, 12, 36);
    SmallRemainders(Pow2(36));
  }

  lemma {:induction false} SmallRemainders(n: nat)
    requires n > 1
    ensures 0 / 4096 % n == 0 && 4096 / 4096 % n == 1
  {
    DivAndMod(0, n, 0, 0);
    DivAndMod(1, n, 0, 1);
  }

  /**
   * On such a table the PTE of page 0 is the root entry itself: the PTE is not apart from its parents, and clearing its
   * present bit, an edit of page 0 alone, ends the walk of the next page too.
   */
  lemma {:induction false} EditReachesOtherPage(m: Memory)
    requires Looped(m)
    ensures !PteApart(m, X86_64, ROOT, 0) && X86_64.Page(0) != X86_64.Page(4096)
    ensures PTE in Resolve(m, X86_64, ROOT, 0).valid && PTE in Resolve(m, X86_64, ROOT, 4096).valid
    ensures Resolve(PteEdited(m, X86_64, ROOT, 0, ClearingBit(0)), X86_64, ROOT, 4096).valid == {}
  {
    hide Slot, Present, MapsLarge, Frame, Definition.Index, Definition.Levels, PteEdited, Definition.Page, Resolve,
        Trace, ClearBit;
    FirstIndices();
    TwoPages();
    LoopedTrace(m, 0);
    LoopedTrace(m, 4096);
    RootSlot();
    FourLevels();
    LoopedEntry();
    PteIsRead(m, X86_64, ROOT, 0);
    PteIsRead(m, X86_64, ROOT, 4096);
    var t := Trace(m, X86_64, ROOT, 0);
    assert t[0].slot == t[3].slot == ROOT;
    assert PteSlot(m, X86_64, ROOT, 0) == ROOT && Resolve(m, X86_64, ROOT, 0).pte == 0x1001;
    PteEditedIsOneStore(m, X86_64, ROOT, 0, ClearingBit(0));
    LoopedEnds(PteEdited(m, X86_64, ROOT, 0, ClearingBit(0)), 4096);
  }
}
