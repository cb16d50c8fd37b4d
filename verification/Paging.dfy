/** Paging definitions: which levels exist, how wide their indices are, and how an address splits into them. */
module Paging {
  import opened Words
  import opened Radix

  datatype Level = PGD | P4D | PUD | PMD | PTE

  /** `ptedit_paging_definition_t`. `has_pt` is never read by the library and is left out. */
  datatype Definition = Definition(
    arch: Arch,
    hasPgd: bool, hasP4d: bool, hasPud: bool, hasPmd: bool,
    pgdBits: nat, p4dBits: nat, pudBits: nat, pmdBits: nat, ptBits: nat,
    pageOffset: nat)
  {
    predicate Has(l: Level) {
      match l
      case PGD => hasPgd
      case P4D => hasP4d
      case PUD => hasPud
      case PMD => hasPmd
      case PTE => true
    }

    function Bits(l: Level): nat {
      match l
      case PGD => pgdBits
      case P4D => p4dBits
      case PUD => pudBits
      case PMD => pmdBits
      case PTE => ptBits
    }

    /** The shift that brings a level's index to the bottom of an address. */
    function Shift(l: Level): nat {
      match l
      case PGD => pageOffset + ptBits + pmdBits + pudBits + p4dBits
      case P4D => pageOffset + ptBits + pmdBits + pudBits
      case PUD => pageOffset + ptBits + pmdBits
      case PMD => pageOffset + ptBits
      case PTE => pageOffset
    }

    function Index(addr: nat, l: Level): nat {
      Digit(addr, Shift(l), Bits(l))
    }

    /** The levels the walk reads, root first; the walk reads the PGD and the PTE in every definition. */
    function Levels(): seq<Level> {
      [PGD] + BelowPgd()
    }

    function BelowPgd(): seq<Level> {
      (if hasP4d then [P4D] else []) + BelowP4d()
    }

    function BelowP4d(): seq<Level> {
      (if hasPud then [PUD] else []) + BelowPud()
    }

    function BelowPud(): seq<Level> {
      (if hasPmd then [PMD] else []) + BelowPmd()
    }

    function BelowPmd(): seq<Level> {
      [PTE]
    }

    /** The level just above the PTE, the only one whose size bit the walk looks at. */
    function LastTable(): Level {
      if hasPmd then PMD else if hasPud then PUD else if hasP4d then P4D else PGD
    }

    /** The index of every level the walk reads, root first. */
    function Indices(addr: nat): seq<nat> {
      var levels := Levels();
      seq(|levels|, k requires 0 <= k < |levels| => Index(addr, levels[k]))
    }

    function PageBytes(): nat {
      Pow2(pageOffset)
    }

    /** The widths of all five indices, root first. */
    function Widths(): seq<nat> {
      [pgdBits, p4dBits, pudBits, pmdBits, ptBits]
    }

    /** All five indices of an address, root first; a missing level of a consistent definition has index 0. */
    function FiveIndices(addr: nat): seq<nat> {
      [Index(addr, PGD), Index(addr, P4D), Index(addr, PUD), Index(addr, PMD), Index(addr, PTE)]
    }

    /** The virtual page of an address; bits above the ones the walk uses are ignored, as in the source. */
    function Page(addr: nat): nat {
      Digit(addr, pageOffset, Sum(Widths()))
    }

    /** Missing levels have no index bits, and a table of 8-byte entries fits one page. */
    predicate Consistent() {
      && (!hasP4d ==> p4dBits == 0)
      && (!hasPud ==> pudBits == 0)
      && (!hasPmd ==> pmdBits == 0)
      && pageOffset <= 64
      && forall l: Level :: Bits(l) + 3 <= pageOffset
    }
  }

  const X86_64 := Definition(X86, true, false, true, true, 9, 0, 9, 9, 9, 12)
  const ARM_4K := Definition(Arm, true, false, false, true, 9, 0, 0, 9, 9, 12)
  const ARM_16K := Definition(Arm, true, false, true, true, 11, 0, 11, 11, 11, 14)

  lemma {:induction false} RealDefinitionsAreConsistent()
    ensures X86_64.Consistent() && ARM_4K.Consistent() && ARM_16K.Consistent()
  {
    assert forall d: Definition, l: Level :: d.Bits(l) in [d.pgdBits, d.p4dBits, d.pudBits, d.pmdBits, d.ptBits];
  }

  lemma {:induction false} RealShifts()
    ensures Pow2(21) == 0x20_0000 && Pow2(25) == 0x200_0000 && Pow2(30) == 0x4000_0000
    ensures Pow2(36) == 0x10_0000_0000 && Pow2(39) == 0x80_0000_0000
  {
    Powers();
    hide Pow2;
    Pow2Adds(9, 12);
    Pow2Adds(11, 14);
    Pow2Adds(9, 21);
    Pow2Adds(11, 25);
    Pow2Adds(9, 30);
  }

  lemma {:induction false} IndexOf(d: Definition, addr: nat, l: Level)
    ensures d.Index(addr, l) == addr / Pow2(d.Shift(l)) % Pow2(d.Bits(l))
  {
    DigitIsRemainder(addr, d.Shift(l), d.Bits(l));
  }

  /** What `ptedit_init` selects: the levels, the page size, and how an address splits, in numbers. */
  lemma {:induction false} RealIndices(addr: nat)
    ensures X86_64.Levels() == [PGD, PUD, PMD, PTE] && X86_64.PageBytes() == 4096 && X86_64.arch == X86
    ensures X86_64.Index(addr, PGD) == addr / 0x80_0000_0000 % 512
    ensures X86_64.Index(addr, PUD) == addr / 0x4000_0000 % 512
    ensures X86_64.Index(addr, PMD) == addr / 0x20_0000 % 512 && X86_64.Index(addr, PTE) == addr / 4096 % 512
    ensures ARM_4K.Levels() == [PGD, PMD, PTE] && ARM_4K.PageBytes() == 4096 && ARM_4K.arch == Arm
    ensures ARM_4K.Index(addr, PGD) == addr / 0x4000_0000 % 512
    ensures ARM_4K.Index(addr, PMD) == addr / 0x20_0000 % 512 && ARM_4K.Index(addr, PTE) == addr / 4096 % 512
    ensures ARM_16K.Levels() == [PGD, PUD, PMD, PTE] && ARM_16K.PageBytes() == 16384 && ARM_16K.arch == Arm
    ensures ARM_16K.Index(addr, PGD) == addr / 0x8000_0000_0000 % 2048
    ensures ARM_16K.Index(addr, PUD) == addr / 0x10_0000_0000 % 2048
    ensures ARM_16K.Index(addr, PMD) == addr / 0x200_0000 % 2048 && ARM_16K.Index(addr, PTE) == addr / 16384 % 2048
    ensures X86_64.hasPgd && ARM_4K.hasPgd && ARM_16K.hasPgd
  {
    hide Pow2, Digit, Definition.Index;
    Powers();
    RealShifts();
    Pow2Adds(11, 36);
    forall l: Level
      ensures X86_64.Index(addr, l) == addr / Pow2(X86_64.Shift(l)) % Pow2(X86_64.Bits(l))
      ensures ARM_4K.Index(addr, l) == addr / Pow2(ARM_4K.Shift(l)) % Pow2(ARM_4K.Bits(l))
      ensures ARM_16K.Index(addr, l) == addr / Pow2(ARM_16K.Shift(l)) % Pow2(ARM_16K.Bits(l))
    {
      IndexOf(X86_64, addr, l);
      IndexOf(ARM_4K, addr, l);
      IndexOf(ARM_16K, addr, l);
    }
  }

  // ---- index split and address rebuild ----

  lemma {:induction false} FiveWidths(d: Definition)
    ensures Sum(d.Widths()) == d.pgdBits + d.p4dBits + d.pudBits + d.pmdBits + d.ptBits
    ensures Sum(d.Widths()[1..]) == d.p4dBits + d.pudBits + d.pmdBits + d.ptBits
    ensures Sum(d.Widths()[1..][1..]) == d.pudBits + d.pmdBits + d.ptBits
    ensures Sum(d.Widths()[1..][1..][1..]) == d.pmdBits + d.ptBits
    ensures Sum(d.Widths()[1..][1..][1..][1..]) == d.ptBits
    ensures Sum(d.Widths()[1..][1..][1..][1..][1..]) == 0
  {
    var ws := d.Widths();
    assert Sum(ws[1..][1..][1..][1..]) == d.ptBits;
    assert Sum(ws[1..][1..][1..]) == d.pmdBits + d.ptBits;
    assert Sum(ws[1..][1..]) == d.pudBits + d.pmdBits + d.ptBits;
    assert Sum(ws[1..]) == d.p4dBits + d.pudBits + d.pmdBits + d.ptBits;
  }

  lemma {:induction false} DigitOfQuotient(x: nat, p: nat, s: nat, w: nat)
    ensures Digit(Drop(x, p), s, w) == Digit(x, p + s, w)
  {
    hide Pow2, Digit, Drop;
    Pow2Adds(s, p);
    DropAndLow(x, p);
    DigitIsRemainder(Drop(x, p), s, w);
    DigitIsRemainder(x, p + s, w);
    DivMod2(x, Pow2(s), Pow2(p));
  }

  /** The five indices are the digits of the page number. */
  lemma {:induction false} IndicesAreDigits(d: Definition, addr: nat)
    ensures Split(d.Widths(), Drop(addr, d.pageOffset)) == d.FiveIndices(addr)
  {
    hide Digit, Sum;
    FiveWidths(d);
    var n := Drop(addr, d.pageOffset);
    var ws := d.Widths();
    DigitOfQuotient(addr, d.pageOffset, Sum(ws[1..]), d.pgdBits);
    DigitOfQuotient(addr, d.pageOffset, Sum(ws[1..][1..]), d.p4dBits);
    DigitOfQuotient(addr, d.pageOffset, Sum(ws[1..][1..][1..]), d.pudBits);
    DigitOfQuotient(addr, d.pageOffset, Sum(ws[1..][1..][1..][1..]), d.pmdBits);
    DigitOfQuotient(addr, d.pageOffset, Sum(ws[1..][1..][1..][1..][1..]), d.ptBits);
    assert Split(ws[1..][1..][1..][1..], n) == [d.Index(addr, PTE)];
    assert Split(ws[1..][1..][1..], n) == [d.Index(addr, PMD), d.Index(addr, PTE)];
    assert Split(ws[1..][1..], n) == [d.Index(addr, PUD), d.Index(addr, PMD), d.Index(addr, PTE)];
  }

  /** Index tuples correspond one-to-one with virtual pages. */
  lemma {:induction false} SameIndicesSamePage(d: Definition, a: nat, b: nat)
    ensures d.FiveIndices(a) == d.FiveIndices(b) <==> d.Page(a) == d.Page(b)
  {
    hide Split, Sum, Drop, Low;
    IndicesAreDigits(d, a);
    IndicesAreDigits(d, b);
    SplitIsInjective(d.Widths(), Drop(a, d.pageOffset), Drop(b, d.pageOffset));
  }

  lemma {:induction false} LevelsCoverFive(d: Definition, a: nat, b: nat)
    requires d.Consistent()
    ensures d.Indices(a) == d.Indices(b) <==> d.FiveIndices(a) == d.FiveIndices(b)
  {
    hide Digit;
    var levels := d.Levels();
    forall l: Level ensures d.Bits(l) == 0 ==> d.Index(a, l) == 0 == d.Index(b, l) {
      ZeroWidth(a, d.Shift(l));
      ZeroWidth(b, d.Shift(l));
    }
    if d.Indices(a) == d.Indices(b) {
      forall k | 0 <= k < |levels| ensures d.Index(a, levels[k]) == d.Index(b, levels[k]) {
        assert d.Indices(a)[k] == d.Indices(b)[k];
      }
      forall l: Level ensures d.Index(a, l) == d.Index(b, l) {
        assert d.Bits(l) != 0 && l != PGD ==> l in levels;
        assert levels[0] == PGD;
      }
    }
    if d.FiveIndices(a) == d.FiveIndices(b) {
      forall l: Level ensures d.Index(a, l) == d.Index(b, l) {
        assert d.FiveIndices(a)[match l case PGD => 0 case P4D => 1 case PUD => 2 case PMD => 3 case PTE => 4]
            == d.Index(a, l);
        assert d.FiveIndices(b)[match l case PGD => 0 case P4D => 1 case PUD => 2 case PMD => 3 case PTE => 4]
            == d.Index(b, l);
      }
      assert d.Indices(a) == d.Indices(b);
    }
  }

  lemma {:induction false} ZeroWidth(x: nat, s: nat)
    ensures Digit(x, s, 0) == 0
  {
  }

  /** The levels the walk reads tell pages apart. */
  lemma {:induction false} WalkedIndicesNamePages(d: Definition, a: nat, b: nat)
    requires d.Consistent()
    ensures d.Indices(a) == d.Indices(b) <==> d.Page(a) == d.Page(b)
  {
    LevelsCoverFive(d, a, b);
    SameIndicesSamePage(d, a, b);
  }

  /** Indices put back at their shifts with `|`, lowest first. */
  function Rebuild(d: Definition, ds: seq<nat>): nat
    requires |ds| == 5
  {
    Or(Or(Or(Or(Shl(ds[4], d.Shift(PTE)), Shl(ds[3], d.Shift(PMD))), Shl(ds[2], d.Shift(PUD))),
        Shl(ds[1], d.Shift(P4D))),
      Shl(ds[0], d.Shift(PGD)))
  }

  /** Five digits, each set above the lower ones. */
  lemma {:induction false} OrFive(d: Definition, a: nat, b: nat, c: nat, e: nat, f: nat)
    requires a < Pow2(d.pgdBits) && b < Pow2(d.p4dBits) && c < Pow2(d.pudBits) && e < Pow2(d.pmdBits)
    requires f < Pow2(d.ptBits)
    ensures Or(Or(Or(Or(Shl(f, d.Shift(PTE)), Shl(e, d.Shift(PMD))), Shl(c, d.Shift(PUD))), Shl(b, d.Shift(P4D))),
              Shl(a, d.Shift(PGD)))
            == Shl(a, d.Shift(PGD)) + Shl(b, d.Shift(P4D)) + Shl(c, d.Shift(PUD)) + Shl(e, d.Shift(PMD))
               + Shl(f, d.Shift(PTE))
  {
    hide Pow2, Or, Shl;
    OrDigit(0, f, d.ptBits, d.Shift(PTE));
    var low := Shl(f, d.Shift(PTE));
    OrDigit(low, e, d.pmdBits, d.Shift(PMD));
    low := Shl(e, d.Shift(PMD)) + low;
    OrDigit(low, c, d.pudBits, d.Shift(PUD));
    low := Shl(c, d.Shift(PUD)) + low;
    OrDigit(low, b, d.p4dBits, d.Shift(P4D));
    OrDigit(Shl(b, d.Shift(P4D)) + low, a, d.pgdBits, d.Shift(PGD));
  }

  /** In-range indices share no bits at their shifts, so the `|` of the parts is their sum. */
  lemma {:induction false} RebuildIsSum(d: Definition, ds: seq<nat>)
    requires Digits(d.Widths(), ds)
    ensures Rebuild(d, ds) == ds[0] * Pow2(d.Shift(PGD)) + ds[1] * Pow2(d.Shift(P4D)) + ds[2] * Pow2(d.Shift(PUD))
                              + ds[3] * Pow2(d.Shift(PMD)) + ds[4] * Pow2(d.Shift(PTE))
  {
    hide Pow2, Or, Shl, Definition.Shift;
    OrFive(d, ds[0], ds[1], ds[2], ds[3], ds[4]);
    ShlIsProduct(ds[0], d.Shift(PGD));
    ShlIsProduct(ds[1], d.Shift(P4D));
    ShlIsProduct(ds[2], d.Shift(PUD));
    ShlIsProduct(ds[3], d.Shift(PMD));
    ShlIsProduct(ds[4], d.Shift(PTE));
  }

  lemma {:induction false} RebuildIsJoin(d: Definition, ds: seq<nat>)
    requires Digits(d.Widths(), ds)
    ensures Rebuild(d, ds) == Join(d.Widths(), ds) * d.PageBytes()
  {
    hide Pow2, Sum, Rebuild;
    FiveWidths(d);
    RebuildIsSum(d, ds);
    var ws, p := d.Widths(), d.pageOffset;
    var s0, s1, s2, s3 := Sum(ws[1..]), Sum(ws[1..][1..]), Sum(ws[1..][1..][1..]), Sum(ws[1..][1..][1..][1..]);
    Pow2Adds(s0, p);
    Pow2Adds(s1, p);
    Pow2Adds(s2, p);
    Pow2Adds(s3, p);
    Pow2Adds(0, p);
    assert Join(ws[1..][1..][1..][1..], ds[1..][1..][1..][1..]) == ds[4] * Pow2(0);
    assert Join(ws[1..][1..][1..], ds[1..][1..][1..]) == ds[3] * Pow2(s3) + ds[4] * Pow2(0);
    assert Join(ws[1..][1..], ds[1..][1..]) == ds[2] * Pow2(s2) + (ds[3] * Pow2(s3) + ds[4] * Pow2(0));
    FiveTerms(ds[0], ds[1], ds[2], ds[3], ds[4], Pow2(s0), Pow2(s1), Pow2(s2), Pow2(s3), Pow2(0), Pow2(p));
  }

  lemma {:induction false} FiveTerms(a: nat, b: nat, c: nat, d: nat, e: nat, va: nat, vb: nat, vc: nat, vd: nat,
      ve: nat, p: nat)
    ensures (a * va + (b * vb + (c * vc + (d * vd + e * ve)))) * p
         == a * (va * p) + b * (vb * p) + c * (vc * p) + d * (vd * p) + e * (ve * p)
  {
  }

  lemma {:induction false} IndicesAreInRange(d: Definition, addr: nat)
    ensures Digits(d.Widths(), d.FiveIndices(addr))
  {
    hide Drop, Low;
  }

  /** Rebuilding the indices of an address gives the address with its offset and its unused high bits cleared. */
  lemma {:induction false} RebuildOfIndices(d: Definition, addr: nat)
    ensures Rebuild(d, d.FiveIndices(addr)) == d.Page(addr) * d.PageBytes()
    ensures Rebuild(d, d.FiveIndices(addr)) + addr % d.PageBytes() == addr % Pow2(Sum(d.Widths()) + d.pageOffset)
  {
    hide Digit, Split, Join, Sum, Rebuild;
    IndicesAreInRange(d, addr);
    RebuildIsJoin(d, d.FiveIndices(addr));
    IndicesAreDigits(d, addr);
    JoinOfSplit(d.Widths(), Drop(addr, d.pageOffset));
    Chunk(addr, Sum(d.Widths()), d.pageOffset);
    PageIsRemainder(d, addr);
  }

  lemma {:induction false} PageIsRemainder(d: Definition, addr: nat)
    ensures d.Page(addr) == Drop(addr, d.pageOffset) % Pow2(Sum(d.Widths()))
  {
    hide Drop, Low, Pow2, Sum;
    DropAndLow(Drop(addr, d.pageOffset), Sum(d.Widths()));
  }

  /** Any tuple of in-range indices, with any page offset, is the index tuple of the rebuilt address. */
  lemma {:induction false} IndicesOfRebuild(d: Definition, ds: seq<nat>, offset: nat)
    requires Digits(d.Widths(), ds) && offset < d.PageBytes()
    ensures d.FiveIndices(Rebuild(d, ds) + offset) == ds
  {
    hide Split, Join, Digit, Rebuild;
    var addr := Rebuild(d, ds) + offset;
    RebuildIsJoin(d, ds);
    DropAndLow(addr, d.pageOffset);
    DivAndMod(addr, d.PageBytes(), Join(d.Widths(), ds), offset);
    SplitOfJoin(d.Widths(), ds);
    IndicesAreDigits(d, addr);
  }
}
