/** A memory with one chain of tables: it shows which bits the walk looks at, and that tree-shaped tables exist. */
module Ladder {
  import opened Words
  import opened Radix
  import opened Paging
  import opened Walk
  import opened Stores
  import opened PteEdits
  import opened Tree
  import opened Wrappers

  /** The tables of the chain, one every 16 KB, and the entry that links each one to the next. */
  function Rung(k: nat): nat {
    (k + 1) * 0x4000
  }

  function RungWord(k: nat): Word {
    match k
    case 0 => 0x8003
    case 1 => 0xc003
    case 2 => 0x1_0003
    case 3 => 0x1_4003
    case _ => 0x1_8003
  }

  const ROOT := 0x4000

  function Zero(a: nat): Word {
    0
  }

  ghost function Zeros(): Memory {
    imap a: nat :: Zero(a)
  }

  ghost function Chain(): Memory {
    var upper := Put(Put(Zeros(), 0x4000, 0x8003), 0x8000, 0xc003);
    Put(Put(Put(upper, 0xc000, 0x1_0003), 0x1_0000, 0x1_4003), 0x1_4000, 0x1_8003)
  }

  lemma {:induction false} ChainWords(k: nat, x: nat)
    requires k < 5
    ensures Chain()[Rung(k)] == RungWord(k)
    ensures (forall i: nat :: i < 5 ==> x != Rung(i)) ==> Chain()[x] == 0
  {
    assert Rung(0) == 0x4000 && Rung(1) == 0x8000 && Rung(2) == 0xc000 && Rung(3) == 0x1_0000 && Rung(4) == 0x1_4000;
    assert k == 0 || k == 1 || k == 2 || k == 3 || k == 4;
  }

  lemma {:induction false} RungLeads(arch: Arch, last: bool, k: nat)
    requires k < 5
    ensures Present(arch, RungWord(k)) && LeadsOn(arch, last, RungWord(k))
    ensures Frame(arch, RungWord(k)) == Rung(k + 1)
  {
    assert k == 0 || k == 1 || k == 2 || k == 3 || k == 4;
    RungPfn(arch, k);
    hide FieldPfn;
  }

  lemma {:induction false} RungPfn(arch: Arch, k: nat)
    requires k < 5
    ensures FieldPfn(arch, RungWord(k)) == match k case 0 => 8 case 1 => 12 case 2 => 16 case 3 => 20 case _ => 24
    ensures AsNat(8) == 8 && AsNat(12) == 12 && AsNat(16) == 16 && AsNat(20) == 20 && AsNat(24) == 24
  {
    assert k == 0 || k == 1 || k == 2 || k == 3 || k == 4;
  }

  lemma {:induction false} FirstPage(d: Definition, l: Level)
    ensures d.Index(0, l) == 0
  {
    DigitIsRemainder(0, d.Shift(l), d.Bits(l));
    hide Pow2;
    DivAndMod(0, Pow2(d.Shift(l)), 0, 0);
    DivAndMod(0, Pow2(d.Bits(l)), 0, 0);
  }

  ghost function ChainTrace(d: Definition): seq<Step> {
    seq(|d.Levels()|, k requires 0 <= k < |d.Levels()| => Step(d.Levels()[k], Rung(k), RungWord(k)))
  }

  lemma {:induction false} RungSlot(k: nat)
    requires k < 5
    ensures Slot(Rung(k), 0) == Rung(k) && RootBase(ROOT) == ROOT == Rung(0)
  {
    EvenIsDivisible(ROOT);
    hide Even;
  }

  lemma {:induction false} FiveLevels(d: Definition)
    ensures 2 <= |d.Levels()| <= 5
  {
  }

  /** The first page is walked down the chain, whatever the paging definition. */
  lemma {:induction false} ChainIsWalked(d: Definition)
    ensures Walked(Chain(), d, ROOT, 0) == ChainTrace(d)
  {
    hide Slot, LeadsOn, Present, Frame, Definition.Index, Definition.Levels, RungWord, Rung, Chain, Steps, RootBase;
    var m, t := Chain(), ChainTrace(d);
    FiveLevels(d);
    RungSlot(0);
    forall k | 0 <= k < |t| ensures StepAt(t, k, m, d, 0, ROOT, d.Levels()) {
      FirstPage(d, d.Levels()[k]);
      ChainWords(k, 0);
      RungSlot(k);
      if k > 0 {
        RungLeads(d.arch, d.Levels()[k] == PTE, k - 1);
      }
    }
    WalkIsUnique(t, m, d, 0, ROOT, d.Levels());
    assert RootBase(ROOT) != 0;
  }

  // ---- the bits the walk looks at ----

  /** The walk looks at no bit of a PTE, and at the size bit in the last table only. */
  predicate BitIsHarmless(d: Definition, l: Level, bit: BitNumber) {
    l == PTE || Harmless(d.arch, l == d.LastTable(), bit)
  }

  /** Editing the bit of the entry of level `l` on a walk with distinct slots leaves its slots as they were. */
  ghost predicate EditKeepsSlots(d: Definition, l: Level, bit: BitNumber, on: bool, m: Memory, root: nat, addr: nat,
      k: nat) {
    var t := Walked(m, d, root, addr);
    k < |t| && t[k].level == l && DistinctSlots(t) ==>
      SlotsOf(Walked(Put(m, t[k].slot, WithBit(t[k].word, bit, on)), d, root, addr)) == SlotsOf(t)
  }

  lemma {:induction false} HarmlessAlike(d: Definition, l: Level, w: Word, bit: BitNumber, on: bool)
    requires BitIsHarmless(d, l, bit)
    ensures Alike(d, l, w, WithBit(w, bit, on))
  {
    hide Harmless, WithBit, SameLead, SameShape, Definition.LastTable;
    if l != PTE {
      HarmlessEditsKeepShape(d.arch, l == d.LastTable(), w, bit, on);
      SameShapeAlike(d, l, w, WithBit(w, bit, on));
    }
  }

  lemma {:induction false} HarmlessEditKeepsSlots(d: Definition, l: Level, bit: BitNumber, on: bool, m: Memory,
      root: nat, addr: nat, k: nat)
    requires BitIsHarmless(d, l, bit)
    ensures EditKeepsSlots(d, l, bit, on, m, root, addr, k)
  {
    hide BitIsHarmless, WithBit, Walked, Trace, Alike, TableAt, Slot, Reached;
    var t := Walked(m, d, root, addr);
    if k < |t| && t[k].level == l && DistinctSlots(t) {
      var m' := Put(m, t[k].slot, WithBit(t[k].word, bit, on));
      forall j | 0 <= j < |t| ensures Alike(d, t[j].level, t[j].word, m'[t[j].slot]) {
        WalkedStep(m, d, root, addr, j);
        AlikeReflexive(d, t[j].level, t[j].word);
        HarmlessAlike(d, l, t[k].word, bit, on);
      }
      SameSlotsIffAlike(m, m', d, root, addr);
    }
  }

  function FieldMask(arch: Arch): Word {
    match arch
    case X86 => 0xff_ffff_f000
    case Arm => 0xffff_ffff_f000
  }

  predicate InField(arch: Arch, bit: BitNumber) {
    12 <= bit && match arch case X86 => bit < 40 case Arm => bit < 48
  }

  lemma {:induction false} FieldBits(arch: Arch, v: Word, w: Word)
    requires FieldPfn(arch, v) == FieldPfn(arch, w)
    ensures Inside(v, FieldMask(arch)) == Inside(w, FieldMask(arch))
  {
    match arch
    case X86 =>
    case Arm =>
  }

  lemma {:induction false} BitInField(arch: Arch, bit: BitNumber)
    requires InField(arch, bit)
    ensures Inside(Mask(bit), FieldMask(arch)) == Mask(bit)
  {
  }

  lemma {:induction false} SameMasked(v: Word, w: Word, f: Word, m: Word)
    requires Inside(v, f) == Inside(w, f) && Inside(m, f) == m
    ensures Inside(v, m) == Inside(w, m)
  {
  }

  lemma {:induction false} SameFieldSameBit(arch: Arch, v: Word, w: Word, bit: BitNumber)
    requires FieldPfn(arch, v) == FieldPfn(arch, w) && InField(arch, bit)
    ensures HasBit(v, bit) == HasBit(w, bit)
  {
    hide FieldPfn, FieldMask, Mask, InField, Inside, HasBit;
    BitIsMasked(v, bit);
    BitIsMasked(w, bit);
    FieldBits(arch, v, w);
    BitInField(arch, bit);
    SameMasked(v, w, FieldMask(arch), Mask(bit));
  }

  lemma {:induction false} PfnBitFlips(arch: Arch, w: Word, bit: BitNumber)
    requires InField(arch, bit)
    ensures FieldPfn(arch, WithBit(w, bit, !HasBit(w, bit))) != FieldPfn(arch, w)
  {
    hide FieldPfn, HasBit, SetBit, ClearBit, InField;
    EditsOneBit(w, bit, bit);
    var v := WithBit(w, bit, !HasBit(w, bit));
    if FieldPfn(arch, v) == FieldPfn(arch, w) {
      SameFieldSameBit(arch, v, w, bit);
    }
  }

  lemma {:induction false} PresentBitCleared(arch: Arch, w: Word, bit: BitNumber)
    requires match arch case X86 => bit == 0 case Arm => bit < 2
    ensures !Present(arch, WithBit(w, bit, false))
  {
    match arch
    case X86 =>
    case Arm =>
  }

  /** Any other bit changes, set or cleared, what the walk does at any entry that leads on. */
  lemma {:induction false} HarmfulEdit(arch: Arch, last: bool, w: Word, bit: BitNumber) returns (on: bool)
    requires LeadsOn(arch, last, w) && !Harmless(arch, last, bit)
    ensures !SameLead(arch, last, w, WithBit(w, bit, on))
  {
    if bit >= 12 {
      on := !HasBit(w, bit);
      PfnBitFlips(arch, w, bit);
      hide FieldPfn, WithBit, HasBit, Present, MapsLarge;
    } else if bit == 7 {
      on := true;
    } else {
      on := false;
      PresentBitCleared(arch, w, bit);
      hide WithBit;
    }
  }

  lemma {:induction false} HarmfulEditOnChain(d: Definition, l: Level, bit: BitNumber)
    requires l in d.Levels() && !BitIsHarmless(d, l, bit)
    ensures exists on, k :: !EditKeepsSlots(d, l, bit, on, Chain(), ROOT, 0, k)
  {
    hide Harmless, WithBit, Walked, SameLead, LeadsOn, Definition.LastTable, Definition.Levels, Chain, RungWord, Steps,
        RootBase;
    var m := Chain();
    ChainIsWalked(d);
    FiveLevels(d);
    LevelsAreDistinct(d);
    var t := Walked(m, d, ROOT, 0);
    var k: nat :| k < |d.Levels()| && d.Levels()[k] == l;
    RungLeads(d.arch, l == d.LastTable(), k);
    var on := HarmfulEdit(d.arch, l == d.LastTable(), t[k].word, bit);
    var m' := Put(m, t[k].slot, WithBit(t[k].word, bit, on));
    if EditKeepsSlots(d, l, bit, on, m, ROOT, 0, k) {
      ChainIsDistinct(d);
      WalkedIsWalk(m, d, ROOT, 0);
      WalkedIsWalk(m', d, ROOT, 0);
      SameSlotsAlike(t, m, Walked(m', d, ROOT, 0), m', d, 0, RootBase(ROOT), k);
      assert false;
    }
  }

  lemma {:induction false} WalkedIsWalk(m: Memory, d: Definition, root: nat, addr: nat)
    requires RootBase(root) != 0
    ensures IsWalk(Walked(m, d, root, addr), m, d, addr, RootBase(root), d.Levels())
  {
    StepsIsWalk(m, d, addr, RootBase(root), d.Levels());
  }

  lemma {:induction false} ChainIsDistinct(d: Definition)
    ensures DistinctSlots(ChainTrace(d)) && RootBase(ROOT) != 0
  {
    RungSlot(0);
    hide RootBase, RungWord, Definition.Levels;
  }

  /** A bit can be edited under every walk exactly when it is one the walk does not look at in that level. */
  lemma {:induction false} HarmlessIsExact(d: Definition, l: Level, bit: BitNumber)
    requires l in d.Levels()
    ensures BitIsHarmless(d, l, bit)
            <==> forall on, m: Memory, root: nat, addr: nat, k: nat :: EditKeepsSlots(d, l, bit, on, m, root, addr, k)
  {
    hide EditKeepsSlots, BitIsHarmless, Definition.Levels;
    if BitIsHarmless(d, l, bit) {
      forall on, m: Memory, root: nat, addr: nat, k: nat ensures EditKeepsSlots(d, l, bit, on, m, root, addr, k) {
        HarmlessEditKeepsSlots(d, l, bit, on, m, root, addr, k);
      }
    } else {
      HarmfulEditOnChain(d, l, bit);
    }
  }

  // ---- tree-shaped tables exist ----

  /** Definitions whose tables lie 16 KB apart without meeting; the real ones are such. */
  predicate FitsChain(d: Definition) {
    d.Consistent() && d.pageOffset <= 14
  }

  lemma {:induction false} RealDefinitionsFit()
    ensures FitsChain(X86_64) && FitsChain(ARM_4K) && FitsChain(ARM_16K)
  {
    hide Definition.Consistent;
    RealDefinitionsAreConsistent();
  }

  lemma {:induction false} SmallTable(d: Definition, i: nat, l: Level)
    requires FitsChain(d) && i < Pow2(d.Bits(l))
    ensures 8 * i < 0x4000
  {
    hide Pow2, Definition.Consistent;
    IndexFits(d, i, l);
    Pow2Grows(d.pageOffset, 14);
    Powers();
  }

  lemma {:induction false} OffRung(k: nat, i: nat)
    requires k < 5 && 0 < i && 8 * i < 0x4000
    ensures Slot(Rung(k), i) == Rung(k) + 8 * i && Chain()[Slot(Rung(k), i)] == 0
  {
    hide Chain, RungWord;
    forall j: nat | j < 5 ensures Slot(Rung(k), i) != Rung(j) {
    }
    ChainWords(k, Slot(Rung(k), i));
  }

  lemma {:induction false} ZeroStops(arch: Arch, last: bool)
    ensures !LeadsOn(arch, last, 0)
  {
  }

  /** The tables of the chain are reached along first entries only, one by each index prefix. */
  lemma {:induction false} ReachedRung(d: Definition, p: seq<nat>)
    requires FitsChain(d) && Reached(Chain(), d, ROOT, p)
    ensures |p| < 5 && TableAt(Chain(), d, ROOT, p) == Some(Rung(|p|)) && forall k :: 0 <= k < |p| ==> p[k] == 0
    decreases |p|
  {
    hide Chain, RungWord, Definition.Levels, Definition.Bits, Definition.Consistent, Slot, Rung, LeadsOn, Frame, Pow2,
        FitsChain;
    FiveLevels(d);
    RungSlot(0);
    if p != [] {
      var n := |p| - 1;
      ReachedRung(d, p[..n]);
      assert p == p[..n] + [p[n]];
      SmallTable(d, p[n], d.Levels()[n]);
      if p[n] != 0 {
        OffRung(n, p[n]);
        ZeroStops(d.arch, d.Levels()[n + 1] == PTE);
      }
      ChainWords(n, 0);
      RungSlot(n);
      RungLeads(d.arch, d.Levels()[n + 1] == PTE, n);
    }
  }

  lemma {:induction false} RungAligned(d: Definition, k: nat)
    requires FitsChain(d) && k < 5
    ensures Aligned(d, Rung(k))
  {
    hide Definition.Consistent;
    LowOfMultiple(k + 1, d.pageOffset);
  }

  lemma {:induction false} LowOfMultiple(q: nat, s: nat)
    requires s <= 14
    ensures Low(q * 0x4000, s) == 0
  {
    hide Pow2, Low, Drop;
    DropAndLow(q * 0x4000, s);
    Powers();
    Pow2Adds(14 - s, s);
    MultipleOf(q, Pow2(14 - s), Pow2(s));
  }

  lemma {:induction false} MultipleOf(q: nat, m: nat, n: nat)
    requires n > 0
    ensures q * (m * n) % n == 0
  {
    assert q * (m * n) == (q * m) * n;
    DivAndMod(q * (m * n), n, q * m, 0);
  }

  /** On the chain the tables are tree-shaped and the first page has a valid PTE: the hypotheses above can be met. */
  lemma {:induction false} ChainIsTree(d: Definition)
    requires FitsChain(d)
    ensures d.Consistent() && TreeShaped(Chain(), d, ROOT) && PTE in Resolve(Chain(), d, ROOT, 0).valid
  {
    hide Chain, RungWord, Definition.Levels, Definition.Consistent, Reached, TableAt, Aligned, Steps, EntryOf, Trace,
        Walked;
    forall p: seq<nat> | Reached(Chain(), d, ROOT, p)
      ensures TableAt(Chain(), d, ROOT, p) == Some(Rung(|p|)) && Aligned(d, Rung(|p|))
              && forall k :: 0 <= k < |p| ==> p[k] == 0
    {
      ReachedRung(d, p);
      RungAligned(d, |p|);
    }
    forall p: seq<nat>, q: seq<nat> | Reached(Chain(), d, ROOT, p) && Reached(Chain(), d, ROOT, q) && |p| == |q|
        ensures p == q {
    }
    ChainIsWalked(d);
    ChainIsPresent(d);
    PteIsRead(Chain(), d, ROOT, 0);
  }

  lemma {:induction false} ChainIsPresent(d: Definition)
    ensures |Trace(Chain(), d, ROOT, 0)| == |d.Levels()|
  {
    hide Chain, Definition.Levels, Steps, Present, RungWord, RootBase;
    ChainIsWalked(d);
    FiveLevels(d);
    RungSlot(0);
    RungLeads(d.arch, false, 0);
    assert RootBase(ROOT) != 0;
  }
}
