/** The program demos/memmap.c on x86: four nested loops over four page buffers, printing ranges and adding up sizes. */
module Enumerator {
  import opened Words
  import opened Radix
  import opened Paging
  import opened Walk
  import opened Memmap

  // ---- loop counters and printed addresses are 64-bit words ----

  lemma {:induction false} CountUp(i: Word)
    requires i < 512
    ensures AsNat(i) < 512 && AsNat(i + 1) == AsNat(i) + 1
  {
  }

  lemma {:induction false} Bounds()
    ensures AsNat(0) == 0 && AsNat(256) == 256 && AsNat(512) == 512
  {
  }

  /** The printed address: the indices shifted into place and OR-ed together. A 2 MB line leaves the last one out. */
  function Address(pml4i: Word, pdpti: Word, pdi: Word, pti: Word): Word {
    (pti << 12) | (pdi << 21) | (pdpti << 30) | (pml4i << 39)
  }

  function Narrow(i: Word): bv9
    requires i < 512
  {
    i as bv9
  }

  lemma {:induction false} NarrowIsSame(i: Word)
    requires i < 512
    ensures Narrow(i) as bv64 == i && Narrow(i) as nat == AsNat(i)
  {
  }

  lemma {:induction false} NarrowAddress(e: bv9, c: bv9, b: bv9, a: bv9)
    ensures AsNat(Address(e as bv64, c as bv64, b as bv64, a as bv64))
         == (a as nat) * 4096 + (b as nat) * 0x20_0000 + (c as nat) * 0x4000_0000 + (e as nat) * 0x80_0000_0000
  {
  }

  /** The shifted indices share no bits, so the `|` of them is their sum and rebuilds the address. */
  lemma {:induction false} AddressIsSum(pml4i: Word, pdpti: Word, pdi: Word, pti: Word)
    requires pml4i < 512 && pdpti < 512 && pdi < 512 && pti < 512
    ensures AsNat(Address(pml4i, pdpti, pdi, pti))
         == AsNat(pti) * 4096 + AsNat(pdi) * 0x20_0000 + AsNat(pdpti) * 0x4000_0000 + AsNat(pml4i) * 0x80_0000_0000
  {
    hide Narrow, AsNat, Address;
    NarrowIsSame(pml4i);
    NarrowIsSame(pdpti);
    NarrowIsSame(pdi);
    NarrowIsSame(pti);
    NarrowAddress(Narrow(pml4i), Narrow(pdpti), Narrow(pdi), Narrow(pti));
  }

  /** The printed address is the one rebuilt from the four counters, and its walk reads the entries they count. */
  lemma {:induction false} AddressIsRebuilt(pml4i: Word, pdpti: Word, pdi: Word, pti: Word)
    requires pml4i < 512 && pdpti < 512 && pdi < 512 && pti < 512
    ensures var ds := [AsNat(pml4i), 0, AsNat(pdpti), AsNat(pdi), AsNat(pti)];
            AsNat(Address(pml4i, pdpti, pdi, pti)) == Rebuild(X86_64, ds)
            && X86_64.FiveIndices(AsNat(Address(pml4i, pdpti, pdi, pti))) == ds
  {
    hide Address, AsNat, Rebuild, Pow2, Digit;
    var ds := [AsNat(pml4i), 0, AsNat(pdpti), AsNat(pdi), AsNat(pti)];
    CountUp(pml4i);
    CountUp(pdpti);
    CountUp(pdi);
    CountUp(pti);
    Powers();
    RealShifts();
    assert Digits(X86_64.Widths(), ds);
    RebuildIsSum(X86_64, ds);
    AddressIsSum(pml4i, pdpti, pdi, pti);
    assert X86_64.FiveIndices(Rebuild(X86_64, ds) + 0) == ds by {
      IndicesOfRebuild(X86_64, ds, 0);
    }
  }

  lemma {:induction false} TotalSnoc(rs: seq<Range>, r: Range)
    ensures Total(rs + [r]) == Total(rs) + r.size
  {
    if rs == [] {
      assert [] + [r] == [r];
    } else {
      assert (rs + [r])[1..] == rs[1..] + [r];
      TotalSnoc(rs[1..], r);
    }
  }

  /** One iteration more of a loop. */
  lemma {:induction false} PagesNext(m: Memory, depth: nat, base: nat, va: nat, i: nat, shown: seq<Range>)
    requires i < Limit(depth)
    ensures shown + Pages(m, depth, base, va, i) == (shown + OfEntry(m, depth, base, va, i))
        + Pages(m, depth, base, va, i + 1)
  {
    hide OfEntry;
  }

  lemma {:induction false} PagesEnd(m: Memory, depth: nat, base: nat, va: nat, shown: seq<Range>)
    ensures shown + Pages(m, depth, base, va, Limit(depth)) == shown
  {
  }

  lemma {:induction false} Counted(i: Word)
    requires i <= 512
    ensures AsNat(i) <= 512 && (i >= 512 ==> AsNat(i) == 512) && (i >= 256 ==> AsNat(i) >= 256)
  {
  }

  class Program {
    const mem: Memory
    const pml4: array<Word>
    const pdpt: array<Word>
    const pd: array<Word>
    const pt: array<Word>
    var printed: seq<Range>
    /** A `size_t`. */
    var memUsage: nat

    constructor (mem: Memory)
      ensures this.mem == mem && Valid() && printed == [] && memUsage == 0
      ensures fresh(pml4) && fresh(pdpt) && fresh(pd) && fresh(pt)
    {
      this.mem := mem;
      pml4, pdpt, pd, pt := new Word[512], new Word[512], new Word[512], new Word[512];
      printed, memUsage := [], 0;
    }

    ghost predicate Valid()
      reads this`memUsage, this`printed
    {
      && pml4.Length == 512 && pdpt.Length == 512 && pd.Length == 512 && pt.Length == 512
      && pml4 != pdpt && pml4 != pd && pml4 != pt && pdpt != pd && pdpt != pt && pd != pt
      && memUsage == Total(printed) % 0x1_0000_0000_0000_0000
    }

    /** A buffer holds the table at `base`. */
    ghost predicate Holds(buffer: array<Word>, base: nat)
      reads buffer
    {
      buffer.Length == 512 && forall i :: 0 <= i < 512 ==> buffer[i] == mem[base + 8 * i]
    }

    method ReadPhysicalPage(pfn: nat, buffer: array<Word>)
      requires buffer.Length == 512
      modifies buffer
      ensures Holds(buffer, pfn * 4096)
    {
      forall i | 0 <= i < 512 {
        buffer[i] := mem[pfn * 4096 + 8 * i];
      }
    }

    method Print(start: nat, size: nat)
      requires Valid()
      modifies this`printed, this`memUsage
      ensures Valid() && printed == old(printed) + [Range(start, size)]
    {
      TotalSnoc(printed, Range(start, size));
      printed := printed + [Range(start, size)];
      memUsage := (memUsage + size) % 0x1_0000_0000_0000_0000;
    }

    /** One entry of the innermost loop. */
    method DumpPtEntry(pml4i: Word, pdpti: Word, pdi: Word, pti: Word, ghost base: nat)
      requires Valid() && Holds(pt, base)
      requires pml4i < 512 && pdpti < 512 && pdi < 512 && pti < 512
      modifies this`printed, this`memUsage
      ensures Valid()
      ensures printed == old(printed) + OfEntry(mem, 0, base, AsNat(Address(pml4i, pdpti, pdi, 0)), AsNat(pti))
    {
      hide Address, AsNat, Present, Total;
      Spans();
      Bounds();
      CountUp(pti);
      AddressIsSum(pml4i, pdpti, pdi, 0);
      AddressIsSum(pml4i, pdpti, pdi, pti);
      var ptEntry := pt[AsNat(pti)];
      if !Present(X86, ptEntry) {
        return;
      }
      Print(AsNat(Address(pml4i, pdpti, pdi, pti)), 4096);
    }

    /** The innermost loop. */
    method DumpPt(pml4i: Word, pdpti: Word, pdi: Word, ghost base: nat)
      requires Valid() && Holds(pt, base)
      requires pml4i < 512 && pdpti < 512 && pdi < 512
      modifies this`printed, this`memUsage
      ensures Valid() && printed == old(printed) + Pages(mem, 0, base, AsNat(Address(pml4i, pdpti, pdi, 0)), 0)
    {
      hide Address, AsNat, Total, Pages, OfEntry;
      Bounds();
      ghost var va := AsNat(Address(pml4i, pdpti, pdi, 0));
      var pti: Word := 0;
      while pti < 512
        invariant pti <= 512 && AsNat(pti) <= 512 && Valid()
        invariant printed + Pages(mem, 0, base, va, AsNat(pti)) == old(printed) + Pages(mem, 0, base, va, 0)
        decreases 512 - AsNat(pti)
      {
        CountUp(pti);
        PagesNext(mem, 0, base, va, AsNat(pti), printed);
        DumpPtEntry(pml4i, pdpti, pdi, pti, base);
        pti := pti + 1;
        Counted(pti);
      }
      Counted(pti);
      PagesEnd(mem, 0, base, va, printed);
    }

    /** One entry of the page-directory loop: a large page, or a page table read into its buffer. */
    method DumpPdEntry(pml4i: Word, pdpti: Word, pdi: Word, ghost base: nat)
      requires Valid() && Holds(pd, base)
      requires pml4i < 512 && pdpti < 512 && pdi < 512
      modifies this`printed, this`memUsage, pt
      ensures Valid() && Holds(pd, base)
      ensures printed == old(printed) + OfEntry(mem, 1, base, AsNat(Address(pml4i, pdpti, 0, 0)), AsNat(pdi))
    {
      hide Address, AsNat, Present, MapsLarge, Total, Pages, GetPfn, Limit;
      Spans();
      Bounds();
      CountUp(pdi);
      AddressIsSum(pml4i, pdpti, 0, 0);
      AddressIsSum(pml4i, pdpti, pdi, 0);
      var pdEntry := pd[AsNat(pdi)];
      if !Present(X86, pdEntry) {
        return;
      }
      if !MapsLarge(X86, pdEntry) {
        ReadPhysicalPage(AsNat(GetPfn(X86, pdEntry)), pt);
        DumpPt(pml4i, pdpti, pdi, PfnBase(X86, pdEntry));
      } else {
        Print(AsNat(Address(pml4i, pdpti, pdi, 0)), 2 * 1024 * 1024);
      }
    }

    /** The page-directory loop. */
    method DumpPd(pml4i: Word, pdpti: Word, ghost base: nat)
      requires Valid() && Holds(pd, base)
      requires pml4i < 512 && pdpti < 512
      modifies this`printed, this`memUsage, pt
      ensures Valid() && printed == old(printed) + Pages(mem, 1, base, AsNat(Address(pml4i, pdpti, 0, 0)), 0)
    {
      hide Address, AsNat, Total, Pages, OfEntry;
      Bounds();
      ghost var va := AsNat(Address(pml4i, pdpti, 0, 0));
      var pdi: Word := 0;
      while pdi < 512
        invariant pdi <= 512 && AsNat(pdi) <= 512 && Valid() && Holds(pd, base)
        invariant printed + Pages(mem, 1, base, va, AsNat(pdi)) == old(printed) + Pages(mem, 1, base, va, 0)
        decreases 512 - AsNat(pdi)
      {
        CountUp(pdi);
        PagesNext(mem, 1, base, va, AsNat(pdi), printed);
        DumpPdEntry(pml4i, pdpti, pdi, base);
        pdi := pdi + 1;
        Counted(pdi);
      }
      Counted(pdi);
      PagesEnd(mem, 1, base, va, printed);
    }

    method DumpPdptEntry(pml4i: Word, pdpti: Word, ghost base: nat)
      requires Valid() && Holds(pdpt, base)
      requires pml4i < 512 && pdpti < 512
      modifies this`printed, this`memUsage, pt, pd
      ensures Valid() && Holds(pdpt, base)
      ensures printed == old(printed) + OfEntry(mem, 2, base, AsNat(Address(pml4i, 0, 0, 0)), AsNat(pdpti))
    {
      hide Address, AsNat, Present, Total, Pages, GetPfn, Limit;
      Spans();
      Bounds();
      CountUp(pdpti);
      AddressIsSum(pml4i, 0, 0, 0);
      AddressIsSum(pml4i, pdpti, 0, 0);
      var pdptEntry := pdpt[AsNat(pdpti)];
      if !Present(X86, pdptEntry) {
        return;
      }
      ReadPhysicalPage(AsNat(GetPfn(X86, pdptEntry)), pd);
      DumpPd(pml4i, pdpti, PfnBase(X86, pdptEntry));
    }

    /** The PDPT loop. */
    method DumpPdpt(pml4i: Word, ghost base: nat)
      requires Valid() && Holds(pdpt, base)
      requires pml4i < 512
      modifies this`printed, this`memUsage, pt, pd
      ensures Valid() && printed == old(printed) + Pages(mem, 2, base, AsNat(Address(pml4i, 0, 0, 0)), 0)
    {
      hide Address, AsNat, Total, Pages, OfEntry;
      Bounds();
      ghost var va := AsNat(Address(pml4i, 0, 0, 0));
      var pdpti: Word := 0;
      while pdpti < 512
        invariant pdpti <= 512 && AsNat(pdpti) <= 512 && Valid() && Holds(pdpt, base)
        invariant printed + Pages(mem, 2, base, va, AsNat(pdpti)) == old(printed) + Pages(mem, 2, base, va, 0)
        decreases 512 - AsNat(pdpti)
      {
        CountUp(pdpti);
        PagesNext(mem, 2, base, va, AsNat(pdpti), printed);
        DumpPdptEntry(pml4i, pdpti, base);
        pdpti := pdpti + 1;
        Counted(pdpti);
      }
      Counted(pdpti);
      PagesEnd(mem, 2, base, va, printed);
    }

    method DumpPml4Entry(pml4i: Word, ghost base: nat)
      requires Valid() && Holds(pml4, base)
      requires pml4i < 256
      modifies this`printed, this`memUsage, pt, pd, pdpt
      ensures Valid() && Holds(pml4, base) && AsNat(pml4i) < 256
      ensures printed == old(printed) + OfEntry(mem, 3, base, 0, AsNat(pml4i))
    {
      hide Address, AsNat, Present, Total, Pages, GetPfn;
      Spans();
      Bounds();
      CountUp(pml4i);
      LowHalf(pml4i);
      AddressIsSum(pml4i, 0, 0, 0);
      var pml4Entry := pml4[AsNat(pml4i)];
      if !Present(X86, pml4Entry) {
        return;
      }
      ReadPhysicalPage(AsNat(GetPfn(X86, pml4Entry)), pdpt);
      DumpPdpt(pml4i, PfnBase(X86, pml4Entry));
    }

    /**
     * The whole program: for the table at the root's page it prints what `Pages` says, and the `size_t` that adds up
     * the sizes never wraps.
     */
    method Dump(root: nat)
      requires Valid() && printed == []
      modifies this`printed, this`memUsage, pt, pd, pdpt, pml4
      ensures Valid() && printed == Pages(mem, 3, root / 4096 * 4096, 0, 0)
      ensures memUsage == Total(printed) <= 0x8000_0000_0000
    {
      hide Address, AsNat, Total, Pages, OfEntry, Increasing;
      Bounds();
      ghost var base := root / 4096 * 4096;
      ReadPhysicalPage(root / 4096, pml4);
      var pml4i: Word := 0;
      while pml4i < 256
        invariant pml4i <= 256 && AsNat(pml4i) <= 256 && Valid() && Holds(pml4, base)
        invariant printed + Pages(mem, 3, base, 0, AsNat(pml4i)) == Pages(mem, 3, base, 0, 0)
        decreases 256 - AsNat(pml4i)
      {
        CountUp(pml4i);
        LowHalf(pml4i);
        PagesNext(mem, 3, base, 0, AsNat(pml4i), printed);
        DumpPml4Entry(pml4i, base);
        pml4i := pml4i + 1;
      }
      Counted(pml4i);
      PagesEnd(mem, 3, base, 0, printed);
      PrintedIsIncreasing(mem, base);
    }
  }

  lemma {:induction false} LowHalf(i: Word)
    requires i < 256
    ensures AsNat(i) < 256
  {
  }
}
