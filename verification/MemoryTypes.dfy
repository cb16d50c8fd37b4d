/** Memory types: the eight slots of the PAT (MAIR on ARM), finding a slot for a type, and applying it to a page. */
module MemoryTypes {
  import opened Words
  import opened Paging
  import opened Walk
  import opened Unrolled
  import opened PteEdits
  import opened Editor
  import opened Wrappers

  /** A slot number; the shifts below are defined exactly for these. */
  type MtSlot = i: bv8 | i < 8

  /** `ptedit_get_mt`: the type in a slot. */
  function GetMt(arch: Arch, mts: Word, slot: MtSlot): Word {
    (mts >> ((slot as bv64) * 8)) & match arch case X86 => 7 case Arm => 0xff
  }

  /** A slot holds a type; on ARM also when its inner and outer halves both are the type. */
  predicate Holds(arch: Arch, mts: Word, slot: MtSlot, mt: bv8) {
    var held := GetMt(arch, mts, slot);
    held == mt as bv64 || (arch == Arm && held & 0xf == held >> 4 == mt as bv64)
  }

  /** The types are the eight bytes from the bottom up, three bits of each on x86. */
  lemma {:induction false} TypeIsByte(arch: Arch, mts: Word, slot: MtSlot, shift: BitNumber)
    requires (slot == 0 && shift == 0) || (slot == 1 && shift == 8) || (slot == 2 && shift == 16)
             || (slot == 3 && shift == 24) || (slot == 4 && shift == 32) || (slot == 5 && shift == 40)
             || (slot == 6 && shift == 48) || (slot == 7 && shift == 56)
    ensures GetMt(arch, mts, slot) == (mts >> shift) & if arch == X86 then 7 else 0xff
  {
    hide GetMt;
    assert (slot as bv64) * 8 == shift;
    TypeAt(arch, mts, slot, shift);
  }

  lemma {:induction false} TypeAt(arch: Arch, mts: Word, slot: MtSlot, shift: BitNumber)
    requires (slot as bv64) * 8 == shift
    ensures GetMt(arch, mts, slot) == (mts >> shift) & if arch == X86 then 7 else 0xff
  {
  }

  /** On ARM a slot also holds a type of four bits that is both halves of its byte. */
  lemma {:induction false} HeldOnArm(mts: Word, slot: MtSlot, mt: bv8)
    ensures Holds(Arm, mts, slot, mt) <==>
            var held := GetMt(Arm, mts, slot);
            held == mt as bv64 || (mt < 16 && held == mt as bv64 | ((mt as bv64) << 4))
  {
    TypeFits(mts, slot);
    hide GetMt;
  }

  lemma {:induction false} TypeFits(mts: Word, slot: MtSlot)
    ensures GetMt(Arm, mts, slot) < 256
  {
  }

  /** Bit `i` of an `unsigned char`. */
  predicate Marked(found: bv8, i: MtSlot) {
    found & ((1 as bv8) << i) != 0
  }

  lemma {:induction false} MarkedIsShifted(found: bv8, i: MtSlot)
    ensures Marked(found, i) <==> (found >> i) & 1 == 1
  {
  }

  lemma {:induction false} MarkOne(found: bv8, i: MtSlot, j: MtSlot)
    ensures Marked(found | ((1 as bv8) << i), j) <==> j == i || Marked(found, j)
  {
  }

  lemma {:induction false} NoneMarked(j: MtSlot)
    ensures !Marked(0, j)
  {
  }

  /** `ptedit_find_mt`: the set of slots that hold a type, as a bit mask. */
  method FindMt(arch: Arch, mts: Word, mt: bv8) returns (found: bv8)
    ensures forall j: MtSlot :: Marked(found, j) <==> Holds(arch, mts, j, mt)
  {
    hide Holds, Marked;
    found := 0;
    var i: bv8 := 0;
    forall j: MtSlot ensures !Marked(0, j) {
      NoneMarked(j);
    }
    while i < 8
      invariant i <= 8
      invariant forall j: MtSlot :: Marked(found, j) <==> j < i && Holds(arch, mts, j, mt)
      decreases 8 - i
    {
      ghost var before := found;
      if Holds(arch, mts, i, mt) {
        found := found | ((1 as bv8) << i);
      }
      forall j: MtSlot ensures Marked(found, j) <==> j < i + 1 && Holds(arch, mts, j, mt) {
        assert Marked(before, j) <==> j < i && Holds(arch, mts, j, mt);
        MarkOne(before, i, j);
        UpTo(i, j);
      }
      i := i + 1;
    }
    forall j: MtSlot ensures Marked(found, j) <==> Holds(arch, mts, j, mt) {
      assert Marked(found, j) <==> j < i && Holds(arch, mts, j, mt);
    }
  }

  lemma {:induction false} UpTo(i: MtSlot, j: MtSlot)
    ensures j < i + 1 <==> j < i || j == i
  {
  }

  /** The lowest bit set from bit `i` on. */
  function LowestFrom(found: bv8, i: bv8): Option<MtSlot>
    requires i <= 8
    decreases 8 - i
  {
    if i == 8 then None else if Marked(found, i) then Some(i) else LowestFrom(found, i + 1)
  }

  lemma {:induction false} LowestIsLeast(found: bv8, i: bv8)
    requires i <= 8
    ensures LowestFrom(found, i).None? <==> forall j: MtSlot :: i <= j ==> !Marked(found, j)
    ensures LowestFrom(found, i).Some? ==>
              && Marked(found, LowestFrom(found, i).value) && i <= LowestFrom(found, i).value
              && forall j: MtSlot :: i <= j < LowestFrom(found, i).value ==> !Marked(found, j)
    decreases 8 - i
  {
    hide Marked;
    if i < 8 && !Marked(found, i) {
      LowestIsLeast(found, i + 1);
    }
  }

  /** `ptedit_find_first_mt`, whose `ffs(...) - 1` is the number of the lowest bit, or -1 (here None) for no bit. */
  method FindFirstMt(arch: Arch, mts: Word, mt: bv8) returns (slot: Option<MtSlot>)
    ensures slot.None? <==> forall j: MtSlot :: !Holds(arch, mts, j, mt)
    ensures slot.Some? ==>
              Holds(arch, mts, slot.value, mt) && forall j: MtSlot :: j < slot.value ==> !Holds(arch, mts, j, mt)
  {
    hide Holds, Marked;
    var found := FindMt(arch, mts, mt);
    slot := LowestFrom(found, 0);
    LowestIsLeast(found, 0);
  }

  // ---- the pipeline: find a slot, apply it to the PTE, update, resolve, and read the type back ----

  lemma {:induction false} AppliedSlot(arch: Arch, w: Word, slot: MtSlot)
    ensures ExtractMt(arch, false, ApplyMt(arch, false, w, slot)) == slot
  {
    hide ExtractMt, ApplyMt;
    ApplyMtReadsBack(arch, false, w, slot);
    assert slot & 7 == slot;
  }

  /** On x86 a slot holds a type exactly when `ptedit_get_mt` returns it. */
  lemma {:induction false} HeldOnX86(mts: Word, slot: MtSlot, mt: bv8)
    ensures Holds(X86, mts, slot, mt) <==> GetMt(X86, mts, slot) == mt as bv64
  {
  }

  /** Bits of a 4 KB entry other than PWT, PCD and PAT, or than the MAIR index on ARM. */
  predicate HoldsNoType(arch: Arch, bit: BitNumber) {
    match arch
    case X86 => bit != 3 && bit != 4 && bit != 7
    case Arm => bit < 2 || bit > 4
  }

  /** Memory after a page's type is set. */
  function Typed(m: Memory, d: Definition, root: nat, addr: nat, slot: MtSlot): Memory {
    var e := Resolve(m, d, root, addr);
    Updated(m, d, root, addr, e.(pte := ApplyMt(d.arch, false, e.pte, slot), valid := {PTE}))
  }

  /**
   * After a slot that holds a type is applied to a page's PTE and the PTE is updated, resolving the page finds that
   * slot and so that type, and no other bit of the PTE has changed (on x86, bits other than 3, 4 and 7).
   */
  lemma {:induction false} PageGetsType(m: Memory, d: Definition, root: nat, addr: nat, mts: Word, slot: MtSlot,
      mt: bv8)
    requires PTE in Resolve(m, d, root, addr).valid && PteApart(m, d, root, addr) && Holds(d.arch, mts, slot, mt)
    ensures var e, e' := Resolve(m, d, root, addr), Resolve(Typed(m, d, root, addr, slot), d, root, addr);
            && e'.valid == e.valid
            && ExtractMt(d.arch, false, e'.pte) == slot
            && Holds(d.arch, mts, ExtractMt(d.arch, false, e'.pte), mt)
            && (d.arch == X86 ==> GetMt(X86, mts, ExtractMt(d.arch, false, e'.pte)) == mt as bv64)
            && Outside(e'.pte, MtMask(d.arch, false)) == Outside(e.pte, MtMask(d.arch, false))
            && forall bit: BitNumber :: HoldsNoType(d.arch, bit) ==> (HasBit(e'.pte, bit) <==> HasBit(e.pte, bit))
  {
    hide Resolve, Updated, ApplyMt, ExtractMt, PteApart, PteSlot, Outside, MtMask, Holds, GetMt, HasBit;
    var e := Resolve(m, d, root, addr);
    var w := ApplyMt(d.arch, false, e.pte, slot);
    OneStore(m, d, root, addr, e.(pte := w, valid := {PTE}));
    ResolveAfterPteStore(m, d, root, addr, w);
    AppliedSlot(d.arch, e.pte, slot);
    ApplyMtKeepsOtherBits(d.arch, false, e.pte, slot);
    HeldOnX86(mts, slot, mt);
    forall bit: BitNumber | HoldsNoType(d.arch, bit) ensures HasBit(w, bit) <==> HasBit(e.pte, bit) {
      ApplyMtBits(d.arch, false, e.pte, slot, bit);
    }
  }

  /** The sequence of demos/uncachable.c: nothing happens when no slot holds the type. */
  method SetType(ed: PtEditor, addr: nat, mts: Word, mt: bv8) returns (slot: Option<MtSlot>)
    requires PTE in Resolve(ed.mem, ed.d, ed.RootOf(0), addr).valid && PteApart(ed.mem, ed.d, ed.RootOf(0), addr)
    modifies ed`mem, ed`tlb
    ensures slot.None? <==> forall j: MtSlot :: !Holds(ed.d.arch, mts, j, mt)
    ensures slot.None? ==> ed.mem == old(ed.mem) && ed.tlb == old(ed.tlb)
    ensures slot.Some? ==> ed.tlb == old(ed.tlb) - {ed.d.Page(addr)}
    ensures slot.Some? ==>
              var e := Resolve(ed.mem, ed.d, ed.RootOf(0), addr);
              && ExtractMt(ed.d.arch, false, e.pte) == slot.value
              && Holds(ed.d.arch, mts, ExtractMt(ed.d.arch, false, e.pte), mt)
              && Outside(e.pte, MtMask(ed.d.arch, false))
                  == Outside(Resolve(old(ed.mem), ed.d, ed.RootOf(0), addr).pte, MtMask(ed.d.arch, false))
              && forall bit: BitNumber :: HoldsNoType(ed.d.arch, bit) ==>
                   (HasBit(e.pte, bit) <==> HasBit(Resolve(old(ed.mem), ed.d, ed.RootOf(0), addr).pte, bit))
  {
    hide Resolve, Updated, ApplyMt, ExtractMt, PteApart, Outside, MtMask, Holds, Definition.Page, HasBit, HoldsNoType;
    var entry := ed.ResolveUser(addr, 0);
    slot := FindFirstMt(ed.d.arch, mts, mt);
    if slot.None? {
      return;
    }
    entry := entry.(pte := ApplyMt(ed.d.arch, false, entry.pte, slot.value), valid := {PTE});
    PageGetsType(ed.mem, ed.d, ed.RootOf(0), addr, mts, slot.value, mt);
    ed.UpdateUser(addr, 0, entry);
  }
}
