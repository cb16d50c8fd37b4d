/** 64-bit page-table entries: the fields the walk reads and the lenses the library edits them with. */
module Words {

  type Word = bv64

  /** A bit position of an entry; the shift `1ull << bit` is defined exactly for these. */
  type BitNumber = b: bv64 | b < 64

  /** The two entry layouts of ptedit.h. */
  datatype Arch = X86 | Arm

  // ---- single bits ----

  function Mask(bit: BitNumber): Word {
    (1 as bv64) << bit
  }

  function SetBit(w: Word, bit: BitNumber): Word {
    w | Mask(bit)
  }

  function ClearBit(w: Word, bit: BitNumber): Word {
    w & !Mask(bit)
  }

  predicate HasBit(w: Word, bit: BitNumber) {
    w & Mask(bit) != 0
  }

  lemma {:induction false} MasksAreDisjoint(bit: BitNumber, other: BitNumber)
    ensures Mask(bit) & Mask(other) == if bit == other then Mask(other) else 0
    ensures Mask(other) != 0
  {
  }

  /** Setting or clearing one bit changes that bit and no other. */
  lemma {:induction false} EditsOneBit(w: Word, bit: BitNumber, other: BitNumber)
    ensures HasBit(SetBit(w, bit), other) <==> other == bit || HasBit(w, other)
    ensures HasBit(ClearBit(w, bit), other) <==> other != bit && HasBit(w, other)
  {
    MasksAreDisjoint(bit, other);
    var m, n := Mask(bit), Mask(other);
    assert (w | m) & n == (w & n) | (m & n);
    assert (w & !m) & n == (w & n) & !(m & n);
  }

  /** Clearing undoes setting exactly when the bit was clear, and the other way round. */
  lemma {:induction false} BitEditsUndo(w: Word, bit: BitNumber)
    ensures ClearBit(SetBit(w, bit), bit) == w <==> !HasBit(w, bit)
    ensures SetBit(ClearBit(w, bit), bit) == w <==> HasBit(w, bit)
  {
  }

  /** Bit `bit` is the one that a right shift by `bit` brings to the bottom. */
  lemma {:induction false} BitIsShifted(w: Word, bit: BitNumber)
    ensures HasBit(w, bit) <==> (w >> bit) & 1 == 1
  {
  }

  /** The masks of the bits that have a meaning of their own. */
  lemma {:induction false} SmallMasks()
    ensures Mask(0) == 1 && Mask(1) == 2 && Mask(2) == 4 && Mask(3) == 8 && Mask(4) == 0x10 && Mask(7) == 0x80
    ensures Mask(12) == 0x1000
  {
  }

  /** In those terms, setting or clearing one bit changes that bit and no other. */
  lemma {:induction false} EditedBit(w: Word, bit: BitNumber, other: BitNumber)
    ensures (SetBit(w, bit) >> other) & 1 == 1 <==> other == bit || (w >> other) & 1 == 1
    ensures (ClearBit(w, bit) >> other) & 1 == 1 <==> other != bit && (w >> other) & 1 == 1
  {
    hide Mask, SetBit, ClearBit, HasBit;
    EditsOneBit(w, bit, other);
    BitIsShifted(w, other);
    BitIsShifted(SetBit(w, bit), other);
    BitIsShifted(ClearBit(w, bit), other);
  }

  // ---- what the walk reads of an entry ----

  predicate Present(arch: Arch, w: Word) {
    match arch
    case X86 => w & 1 == 1
    case Arm => w & 3 == 3
  }

  /** The size bit, which ends the walk at the level above the PTE; only the x86 build looks at it. */
  predicate MapsLarge(arch: Arch, w: Word) {
    arch == X86 && w & 0x80 != 0
  }

  /** The `pfn` bit-field of `ptedit_pgd_t`: 28 bits on x86, 36 on ARM. */
  function FieldPfn(arch: Arch, w: Word): Word {
    match arch
    case X86 => (w >> 12) & 0xfff_ffff
    case Arm => (w >> 12) & 0xf_ffff_ffff
  }

  /** Read as C lays the bit-fields out: `present` at the bottom, `size` at bit 7, and `pfn` from bit 12 on. */
  lemma {:induction false} FieldsAreLaidOut(w: Word)
    ensures Present(X86, w) <==> HasBit(w, 0)
    ensures Present(Arm, w) <==> HasBit(w, 0) && HasBit(w, 1)
    ensures MapsLarge(X86, w) <==> HasBit(w, 7)
    ensures !MapsLarge(Arm, w)
    ensures FieldPfn(X86, w) == (w << 24) >> 36 && FieldPfn(Arm, w) == (w << 16) >> 28
  {
    hide Mask;
    SmallMasks();
    FieldPfnIsLaidOut(w);
    PresentIsLow(w);
    hide FieldPfn;
  }

  lemma {:induction false} FieldPfnIsLaidOut(w: Word)
    ensures FieldPfn(X86, w) == (w << 24) >> 36 && FieldPfn(Arm, w) == (w << 16) >> 28
  {
  }

  lemma {:induction false} PresentIsLow(w: Word)
    ensures w & 1 == 1 <==> w & 1 != 0
    ensures w & 3 == 3 <==> w & 1 != 0 && w & 2 != 0
  {
  }

  function AsNat(w: Word): nat {
    w as nat
  }

  lemma {:induction false} AsNatInverts(w: Word)
    ensures AsNat(w) < 0x1_0000_0000_0000_0000
    ensures AsNat(w) as bv64 == w
  {
  }

  lemma {:induction false} AsNatIsInjective(v: Word, w: Word)
    ensures AsNat(v) == AsNat(w) <==> v == w
  {
    hide AsNat;
    AsNatInverts(v);
    AsNatInverts(w);
  }

  /** The `pfn` bit-field as a number. */
  function FrameNumber(arch: Arch, w: Word): nat {
    AsNat(FieldPfn(arch, w))
  }

  /** The physical address of the table an entry points to, `pfn * ptedit_pfn_multiply`. */
  function Frame(arch: Arch, w: Word): nat {
    FrameNumber(arch, w) * 4096
  }

  lemma {:induction false} FrameIsPageAligned(arch: Arch, w: Word)
    ensures Frame(arch, w) % 4096 == 0
    ensures Frame(arch, w) < 0x1_0000_0000_0000
  {
    FieldFits(arch, w);
    hide FieldPfn, AsNat;
    Below36Bits(FieldPfn(arch, w));
  }

  lemma {:induction false} FieldFits(arch: Arch, w: Word)
    ensures FieldPfn(arch, w) < 0x10_0000_0000
  {
  }

  lemma {:induction false} Below36Bits(w: Word)
    requires w < 0x10_0000_0000
    ensures AsNat(w) < 0x10_0000_0000
  {
    assert w as nat == w as bv36 as nat;
  }

  lemma {:induction false} Below40Bits(w: Word)
    requires w < 0x100_0000_0000
    ensures AsNat(w) < 0x100_0000_0000
  {
    assert w as nat == w as bv40 as nat;
  }

  /** Whether the walk goes on below entry `w`; only the last table above the PTEs can map a large page. */
  predicate LeadsOn(arch: Arch, last: bool, w: Word) {
    Present(arch, w) && !(last && MapsLarge(arch, w))
  }

  /** The walk goes on from both entries to the same table, or stops at both. */
  predicate SameLead(arch: Arch, last: bool, v: Word, w: Word) {
    && (LeadsOn(arch, last, v) <==> LeadsOn(arch, last, w))
    && (LeadsOn(arch, last, v) ==> FieldPfn(arch, v) == FieldPfn(arch, w))
  }

  /** Two entries with the same fields, as far as the walk looks at them. */
  predicate SameShape(arch: Arch, last: bool, v: Word, w: Word) {
    && (Present(arch, v) <==> Present(arch, w))
    && (last ==> (MapsLarge(arch, v) <==> MapsLarge(arch, w)))
    && FieldPfn(arch, v) == FieldPfn(arch, w)
  }

  lemma {:induction false} SameShapeSameLead(arch: Arch, last: bool, v: Word, w: Word)
    requires SameShape(arch, last, v, w)
    ensures SameLead(arch, last, v, w)
  {
    hide Present, MapsLarge, FieldPfn;
  }

  /** The present and frame bits and, in the last table, the size bit. */
  function ShapeMask(arch: Arch, last: bool): Word {
    match arch
    case X86 => if last then 0xff_ffff_f081 else 0xff_ffff_f001
    case Arm => 0xffff_ffff_f003
  }

  /** Bits outside these fields. */
  predicate Harmless(arch: Arch, last: bool, bit: BitNumber) {
    match arch
    case X86 => bit != 0 && (bit != 7 || !last) && (bit < 12 || bit >= 40)
    case Arm => bit >= 2 && (bit < 12 || bit >= 48)
  }

  lemma {:induction false} HarmlessMask(arch: Arch, last: bool, bit: BitNumber)
    requires Harmless(arch, last, bit)
    ensures Inside(Mask(bit), ShapeMask(arch, last)) == 0
  {
  }

  /** The bits of an entry inside and outside a mask. */
  function Inside(w: Word, m: Word): Word {
    w & m
  }

  function Outside(w: Word, m: Word): Word {
    w & !m
  }

  lemma {:induction false} EditsOutside(w: Word, bit: BitNumber, k: Word)
    requires Inside(Mask(bit), k) == 0
    ensures Inside(SetBit(w, bit), k) == Inside(w, k)
    ensures Inside(ClearBit(w, bit), k) == Inside(w, k)
  {
    hide Mask;
  }

  lemma {:induction false} SameBitsSameShape(arch: Arch, last: bool, v: Word, w: Word)
    requires Inside(v, ShapeMask(arch, last)) == Inside(w, ShapeMask(arch, last))
    ensures SameShape(arch, last, v, w)
  {
    hide *;
    match (arch, last)
    case (X86, true) => ShapeBitsLast(v, w);
    case (X86, false) => ShapeBitsX86(v, w);
    case (Arm, _) => ShapeBitsArm(last, v, w);
  }

  lemma {:induction false} ShapeBitsLast(v: Word, w: Word)
    requires Inside(v, ShapeMask(X86, true)) == Inside(w, ShapeMask(X86, true))
    ensures SameShape(X86, true, v, w)
  {
  }

  lemma {:induction false} ShapeBitsX86(v: Word, w: Word)
    requires Inside(v, ShapeMask(X86, false)) == Inside(w, ShapeMask(X86, false))
    ensures SameShape(X86, false, v, w)
  {
  }

  lemma {:induction false} ShapeBitsArm(last: bool, v: Word, w: Word)
    requires Inside(v, ShapeMask(Arm, last)) == Inside(w, ShapeMask(Arm, last))
    ensures SameShape(Arm, last, v, w)
  {
  }

  /** The entry with one bit set or cleared. */
  function WithBit(w: Word, bit: BitNumber, on: bool): Word {
    if on then SetBit(w, bit) else ClearBit(w, bit)
  }

  lemma {:induction false} HarmlessEditsKeepShape(arch: Arch, last: bool, w: Word, bit: BitNumber, on: bool)
    requires Harmless(arch, last, bit)
    ensures SameShape(arch, last, w, WithBit(w, bit, on))
  {
    hide *;
    HarmlessMask(arch, last, bit);
    EditsOutside(w, bit, ShapeMask(arch, last));
    SameBitsSameShape(arch, last, w, SetBit(w, bit));
    SameBitsSameShape(arch, last, w, ClearBit(w, bit));
    EitherBit(w, bit, on);
  }

  lemma {:induction false} EitherBit(w: Word, bit: BitNumber, on: bool)
    ensures WithBit(w, bit, on) == SetBit(w, bit) || WithBit(w, bit, on) == ClearBit(w, bit)
  {
  }

  // ---- page-frame numbers ----

  function PfnLimit(arch: Arch): Word {
    match arch
    case X86 => 0x100_0000_0000
    case Arm => 0x10_0000_0000
  }

  function PfnMask(arch: Arch): Word {
    (PfnLimit(arch) - 1) << 12
  }

  function GetPfn(arch: Arch, w: Word): Word {
    (w & PfnMask(arch)) >> 12
  }

  /** `pfn` is shifted in unmasked, as the source does. */
  function SetPfn(arch: Arch, w: Word, pfn: Word): Word {
    Overlay(w, pfn << 12, PfnMask(arch))
  }

  /** The bits around the field that `pfn` overwrites because it is not masked. */
  predicate Spills(arch: Arch, w: Word, pfn: Word) {
    Outside(pfn << 12, PfnMask(arch) | w) != 0
  }

  /** The frame number is the field of 40 bits (36 on ARM) from bit 12 on. */
  lemma {:induction false} PfnIsLaidOut(w: Word)
    ensures GetPfn(X86, w) == (w << 12) >> 24 && GetPfn(Arm, w) == (w << 16) >> 28
  {
  }

  lemma {:induction false} OverlaidBit(w: Word, p: Word, m: Word, bit: BitNumber)
    ensures HasBit(Overlay(w, p, m), bit) <==> HasBit(p, bit) || (!HasBit(m, bit) && HasBit(w, bit))
  {
    hide *;
    OneOrNothing(m, bit);
    OverlaidMask(w, p, m, Mask(bit));
    BitIsMasked(w, bit);
    BitIsMasked(p, bit);
    BitIsMasked(m, bit);
    BitIsMasked(Overlay(w, p, m), bit);
  }

  lemma {:induction false} BitIsMasked(w: Word, bit: BitNumber)
    ensures HasBit(w, bit) <==> Inside(w, Mask(bit)) != 0
  {
    hide Mask;
  }

  lemma {:induction false} OneOrNothing(w: Word, bit: BitNumber)
    ensures Mask(bit) != 0 && (Inside(w, Mask(bit)) == 0 || Inside(w, Mask(bit)) == Mask(bit))
  {
  }

  lemma {:induction false} OverlaidMask(w: Word, p: Word, m: Word, one: Word)
    requires one != 0 && (Inside(m, one) == 0 || Inside(m, one) == one)
    ensures Inside(Overlay(w, p, m), one) != 0 <==>
            Inside(p, one) != 0 || (Inside(m, one) == 0 && Inside(w, one) != 0)
  {
    OrIsZero(if Inside(m, one) == 0 then w & one else 0, p & one);
    if m & one == 0 {
      Disjoint(w, p, m, one);
    } else {
      Covered(w, p, m, one);
    }
  }

  lemma {:induction false} Disjoint(w: Word, p: Word, m: Word, one: Word)
    requires m & one == 0
    ensures ((w & !m) | p) & one == (w & one) | (p & one)
  {
  }

  lemma {:induction false} Covered(w: Word, p: Word, m: Word, one: Word)
    requires m & one == one
    ensures ((w & !m) | p) & one == p & one
  {
  }

  lemma {:induction false} OrIsZero(x: Word, y: Word)
    ensures x | y == 0 <==> x == 0 && y == 0
  {
  }

  lemma {:induction false} ShiftedBit(pfn: Word, bit: BitNumber)
    ensures HasBit(pfn << 12, bit) <==> bit >= 12 && HasBit(pfn, bit - 12)
  {
  }

  lemma {:induction false} FieldBit(arch: Arch, bit: BitNumber)
    ensures HasBit(PfnMask(arch), bit) <==> 12 <= bit < if arch == X86 then 52 else 48
  {
    match arch
    case X86 =>
    case Arm =>
  }

  /**
   * Every bit of an entry whose frame number is set: in the field it is the number's, around it the entry's or one that
   * the unmasked number spills.
   */
  lemma {:induction false} SetPfnBits(arch: Arch, w: Word, pfn: Word, bit: BitNumber)
    ensures HasBit(SetPfn(arch, w, pfn), bit)
            <==> (bit >= 12 && HasBit(pfn, bit - 12))
                 || (!(12 <= bit < if arch == X86 then 52 else 48) && HasBit(w, bit))
  {
    hide HasBit, PfnMask, Overlay;
    OverlaidBit(w, pfn << 12, PfnMask(arch), bit);
    ShiftedBit(pfn, bit);
    FieldBit(arch, bit);
  }

  lemma {:induction false} GetPfnIsBelowLimit(arch: Arch, w: Word)
    ensures GetPfn(arch, w) < PfnLimit(arch)
  {
  }

  lemma {:induction false} GetOfSet(arch: Arch, w: Word, pfn: Word)
    requires pfn < PfnLimit(arch)
    ensures GetPfn(arch, SetPfn(arch, w, pfn)) == pfn
  {
    match arch
    case X86 =>
    case Arm =>
  }

  /** The frame number reads back exactly when it fits the field. */
  lemma {:induction false} SetPfnReadsBack(arch: Arch, w: Word, pfn: Word)
    ensures GetPfn(arch, SetPfn(arch, w, pfn)) == pfn <==> pfn < PfnLimit(arch)
  {
    if pfn < PfnLimit(arch) {
      GetOfSet(arch, w, pfn);
    } else {
      GetPfnIsBelowLimit(arch, SetPfn(arch, w, pfn));
    }
  }

  lemma {:induction false} FittingPfnDoesNotSpill(arch: Arch, w: Word, pfn: Word)
    requires pfn < PfnLimit(arch)
    ensures !Spills(arch, w, pfn)
  {
    match arch
    case X86 =>
    case Arm =>
  }

  /** An entry with the bits of `m` replaced by those of `p`, which may reach outside `m`. */
  function Overlay(w: Word, p: Word, m: Word): Word {
    (w & !m) | p
  }

  lemma {:induction false} NoSpillKeeps(w: Word, p: Word, m: Word)
    requires Outside(p, m | w) == 0
    ensures Outside(Overlay(w, p, m), m) == Outside(w, m)
  {
  }

  lemma {:induction false} KeptMeansNoSpill(w: Word, p: Word, m: Word)
    requires Outside(Overlay(w, p, m), m) == Outside(w, m)
    ensures Outside(p, m | w) == 0
  {
  }

  /** The bits around the field survive exactly when the unmasked number does not spill into them. */
  lemma {:induction false} SetPfnKeepsOtherBits(arch: Arch, w: Word, pfn: Word)
    ensures Outside(SetPfn(arch, w, pfn), PfnMask(arch)) == Outside(w, PfnMask(arch)) <==> !Spills(arch, w, pfn)
  {
    hide PfnMask, Overlay, Outside;
    var m, p := PfnMask(arch), pfn << 12;
    if Outside(p, m | w) == 0 {
      NoSpillKeeps(w, p, m);
    } else if Outside(Overlay(w, p, m), m) == Outside(w, m) {
      KeptMeansNoSpill(w, p, m);
    }
  }

  /** Setting the old number back restores the entry exactly when the first edit did not spill. */
  lemma {:induction false} SetPfnRestores(arch: Arch, w: Word, pfn: Word)
    ensures SetPfn(arch, SetPfn(arch, w, pfn), GetPfn(arch, w)) == w <==> !Spills(arch, w, pfn)
  {
  }

  /** x86 entry bits 40 to 51, which `ptedit_get_pfn` reads and the `pfn` bit-field does not, are clear. */
  predicate NarrowFrame(arch: Arch, w: Word) {
    arch == X86 ==> (w >> 40) & 0xfff == 0
  }

  /** The walk's bit-field and `ptedit_get_pfn` agree exactly on narrow frames. */
  lemma {:induction false} PfnReadersAgree(arch: Arch, w: Word)
    ensures FieldPfn(arch, w) == GetPfn(arch, w) <==> NarrowFrame(arch, w)
  {
    match arch
    case X86 => PfnReadersAgreeX86(w);
    case Arm => PfnReadersAgreeArm(w);
  }

  /** The frame number `ptedit_get_pfn` returns, as a number. */
  function PfnNumber(arch: Arch, w: Word): nat {
    AsNat(GetPfn(arch, w))
  }

  /** A frame number set with `ptedit_set_pfn` and then followed as a physical address. */
  function PfnBase(arch: Arch, w: Word): nat {
    PfnNumber(arch, w) * 4096
  }

  /** The two readers find the same physical address exactly on narrow frames. */
  lemma {:induction false} FramesAgree(arch: Arch, w: Word)
    ensures PfnBase(arch, w) == Frame(arch, w) <==> NarrowFrame(arch, w)
    ensures PfnBase(arch, w) < 0x10_0000_0000_0000 && Frame(arch, w) < 0x10_0000_0000_0000
  {
    hide GetPfn, FieldPfn, NarrowFrame, AsNat;
    PfnReadersAgree(arch, w);
    AsNatIsInjective(GetPfn(arch, w), FieldPfn(arch, w));
    FrameIsPageAligned(arch, w);
    GetPfnFits(arch, w);
    Below40Bits(GetPfn(arch, w));
  }

  lemma {:induction false} GetPfnFits(arch: Arch, w: Word)
    ensures GetPfn(arch, w) < 0x100_0000_0000
  {
  }

  lemma {:induction false} PfnReadersAgreeX86(w: Word)
    ensures (w >> 12) & 0xfff_ffff == GetPfn(X86, w) <==> (w >> 40) & 0xfff == 0
  {
  }

  lemma {:induction false} PfnReadersAgreeArm(w: Word)
    ensures (w >> 12) & 0xf_ffff_ffff == GetPfn(Arm, w)
  {
  }

  // ---- memory types (PAT index bits; MAIR index on ARM) ----

  /** The bits that hold the memory type of a 4 KB entry and of a large one. */
  function MtMask(arch: Arch, huge: bool): Word {
    match arch
    case X86 => if huge then 0x1018 else 0x98
    case Arm => 0x1c
  }

  /** A memory-type number spread over its entry bits. */
  function MtBits(arch: Arch, huge: bool, mt: bv8): Word {
    match arch
    case X86 =>
      (if mt & 1 != 0 then 0x08 else 0) | (if mt & 2 != 0 then 0x10 else 0)
      | (if mt & 4 != 0 then (if huge then 0x1000 else 0x80) else 0)
    case Arm => ((mt & 7) as bv64) << 2
  }

  /** `ptedit_apply_mt` and, for large pages, `ptedit_apply_mt_huge`. */
  function ApplyMt(arch: Arch, huge: bool, w: Word, mt: bv8): Word {
    Overlay(w, MtBits(arch, huge, mt), MtMask(arch, huge))
  }

  /** `ptedit_extract_mt` and, for large pages, `ptedit_extract_mt_huge`. */
  function ExtractMt(arch: Arch, huge: bool, w: Word): bv8 {
    match arch
    case X86 =>
      (if w & 0x08 != 0 then 1 else 0) | (if w & 0x10 != 0 then 2 else 0)
      | (if w & (if huge then 0x1000 else 0x80) != 0 then 4 else 0)
    case Arm => ((w >> 2) & 7) as bv8
  }

  /** An applied type reads back as its low three bits and leaves every other bit alone. */
  lemma {:induction false} ApplyMtReadsBack(arch: Arch, huge: bool, w: Word, mt: bv8)
    ensures ExtractMt(arch, huge, ApplyMt(arch, huge, w, mt)) == mt & 7
  {
    match (arch, huge)
    case (X86, true) =>
    case (X86, false) =>
    case (Arm, _) =>
  }

  lemma {:induction false} ApplyMtKeepsOtherBits(arch: Arch, huge: bool, w: Word, mt: bv8)
    ensures Outside(ApplyMt(arch, huge, w, mt), MtMask(arch, huge)) == Outside(w, MtMask(arch, huge))
  {
    match (arch, huge)
    case (X86, true) =>
    case (X86, false) =>
    case (Arm, _) =>
  }

  lemma {:induction false} TypeBits(arch: Arch, huge: bool, mt: bv8, bit: BitNumber)
    ensures HasBit(MtMask(arch, huge), bit)
            <==> if arch == Arm then 2 <= bit <= 4 else bit == 3 || bit == 4 || bit == if huge then 12 else 7
    ensures HasBit(MtBits(arch, huge, mt), bit)
            <==> if arch == Arm then (bit == 2 && mt & 1 != 0) || (bit == 3 && mt & 2 != 0) || (bit == 4 && mt & 4 != 0)
                 else (bit == 3 && mt & 1 != 0) || (bit == 4 && mt & 2 != 0)
                      || (bit == (if huge then 12 else 7) && mt & 4 != 0)
  {
    match (arch, huge)
    case (X86, true) =>
    case (X86, false) =>
    case (Arm, _) =>
  }

  /**
   * Every bit of an entry to which a type is applied. On x86 the type's three bits land in PWT (3), PCD (4) and PAT (7,
   * or 12 for a large page), on ARM in bits 2 to 4; every other bit is the entry's.
   */
  lemma {:induction false} ApplyMtBits(arch: Arch, huge: bool, w: Word, mt: bv8, bit: BitNumber)
    ensures HasBit(ApplyMt(arch, huge, w, mt), bit) <==>
            if arch == X86 && bit == 3 then mt & 1 != 0
            else if arch == X86 && bit == 4 then mt & 2 != 0
            else if arch == X86 && bit == (if huge then 12 else 7) then mt & 4 != 0
            else if arch == Arm && bit == 2 then mt & 1 != 0
            else if arch == Arm && bit == 3 then mt & 2 != 0
            else if arch == Arm && bit == 4 then mt & 4 != 0
            else HasBit(w, bit)
  {
    hide HasBit, MtMask, MtBits, Overlay;
    OverlaidBit(w, MtBits(arch, huge, mt), MtMask(arch, huge), bit);
    TypeBits(arch, huge, mt, bit);
  }

  lemma {:induction false} ThreeBits(a: bool, b: bool, c: bool)
    ensures var mt: bv8 := (if a then 1 else 0) | (if b then 2 else 0) | (if c then 4 else 0);
            mt < 8 && (mt & 1 != 0 <==> a) && (mt & 2 != 0 <==> b) && (mt & 4 != 0 <==> c)
  {
  }

  lemma {:induction false} LowBits(w: Word)
    ensures (HasBit(w, 2) <==> w & 4 != 0) && (HasBit(w, 3) <==> w & 8 != 0) && (HasBit(w, 4) <==> w & 0x10 != 0)
    ensures (HasBit(w, 7) <==> w & 0x80 != 0) && (HasBit(w, 12) <==> w & 0x1000 != 0)
  {
    hide Mask, HasBit;
    SmallMasks();
    MaskedBit(w, 2, 4);
    MaskedBit(w, 3, 8);
    MaskedBit(w, 4, 0x10);
    MaskedBit(w, 7, 0x80);
    MaskedBit(w, 12, 0x1000);
  }

  lemma {:induction false} MaskedBit(w: Word, bit: BitNumber, mask: Word)
    requires Mask(bit) == mask
    ensures HasBit(w, bit) <==> w & mask != 0
  {
    hide *;
    BitIsMasked(w, bit);
    InsideIs(w, mask);
  }

  lemma {:induction false} InsideIs(w: Word, m: Word)
    ensures Inside(w, m) == w & m
  {
  }

  lemma {:induction false} ExtractX86(huge: bool, w: Word)
    ensures var mt := ExtractMt(X86, huge, w);
            && mt < 8
            && (mt & 1 != 0 <==> w & 8 != 0) && (mt & 2 != 0 <==> w & 0x10 != 0)
            && (mt & 4 != 0 <==> w & (if huge then 0x1000 else 0x80) != 0)
  {
    var a, b, c := w & 8 != 0, w & 0x10 != 0, w & (if huge then 0x1000 else 0x80) != 0;
    assert ExtractMt(X86, huge, w) == (if a then 1 else 0) | (if b then 2 else 0) | (if c then 4 else 0);
    hide ExtractMt;
    ThreeBits(a, b, c);
  }

  lemma {:induction false} ExtractArm(huge: bool, w: Word)
    ensures var mt := ExtractMt(Arm, huge, w);
            && mt < 8
            && (mt & 1 != 0 <==> w & 4 != 0) && (mt & 2 != 0 <==> w & 8 != 0) && (mt & 4 != 0 <==> w & 0x10 != 0)
  {
  }

  /** The type of an entry, by its bits. */
  lemma {:induction false} ExtractMtBits(arch: Arch, huge: bool, w: Word)
    ensures var mt := ExtractMt(arch, huge, w);
            && mt < 8
            && (mt & 1 != 0 <==> HasBit(w, if arch == X86 then 3 else 2))
            && (mt & 2 != 0 <==> HasBit(w, if arch == X86 then 4 else 3))
            && (mt & 4 != 0 <==> HasBit(w, if arch == Arm then 4 else if huge then 12 else 7))
  {
    hide *;
    LowBits(w);
    match arch
    case X86 => ExtractX86(huge, w);
    case Arm => ExtractArm(huge, w);
  }
}
