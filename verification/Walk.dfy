/** The walk: what resolving an address reads, as a recursion over the levels that exist. */
module Walk {
  import opened Words
  import opened Paging

  /** Physical memory: a 64-bit word at every address. */
  type Memory = m: imap<nat, Word> | forall a: nat :: a in m ghost witness imap a: nat :: 0

  /** Memory with one word stored. */
  function Put(m: Memory, slot: nat, w: Word): Memory {
    m[slot := w]
  }

  /** The address of entry `idx` of the table at `base`, with the wrap-around of `size_t`. */
  function Slot(base: nat, idx: nat): nat {
    (base + 8 * idx) % 0x1_0000_0000_0000_0000
  }

  /** On machine addresses: the sum, less 2^64 where it does not fit. */
  lemma {:induction false} SlotWraps(base: nat, idx: nat)
    requires base < 0x1_0000_0000_0000_0000 && 8 * idx < 0x1_0000_0000_0000_0000
    ensures Slot(base, idx) == if base + 8 * idx < 0x1_0000_0000_0000_0000 then base + 8 * idx
                               else base + 8 * idx - 0x1_0000_0000_0000_0000
  {
  }

  predicate Even(n: nat) {
    n == 0 || (n > 1 && Even(n - 2))
  }

  lemma {:induction false} EvenIsDivisible(n: nat)
    ensures Even(n) <==> n % 2 == 0
  {
    if n > 1 {
      EvenIsDivisible(n - 2);
    }
  }

  /** The root with its lowest bit cleared, `root & ~1`. */
  function RootBase(root: nat): nat {
    if Even(root) then root else root - 1
  }

  /** The even number at or right below the root. */
  lemma {:induction false} RootBaseIsEven(root: nat)
    ensures RootBase(root) % 2 == 0 && root - 1 <= RootBase(root) <= root
  {
    EvenIsDivisible(root);
  }

  /** One table entry read by a walk. */
  datatype Step = Step(level: Level, slot: nat, word: Word)

  /** Whether the walk goes on from entry `w` to the level `next`. */
  predicate Leads(arch: Arch, w: Word, next: Level) {
    LeadsOn(arch, next == PTE, w)
  }

  /** Reads the table at `base` for the first of `levels` and follows the entry to the rest. */
  function Steps(m: Memory, d: Definition, addr: nat, base: nat, levels: seq<Level>): (t: seq<Step>)
    ensures |t| <= |levels| && (levels != [] ==> t != [])
    decreases |levels|
  {
    if levels == [] then [] else
      var slot := Slot(base, d.Index(addr, levels[0]));
      [Step(levels[0], slot, m[slot])]
      + if |levels| > 1 && Leads(d.arch, m[slot], levels[1])
        then Steps(m, d, addr, Frame(d.arch, m[slot]), levels[1..])
        else []
  }

  /** The entries a resolve marks valid: none without a root or without a present PGD entry. */
  function Trace(m: Memory, d: Definition, root: nat, addr: nat): seq<Step> {
    if RootBase(root) == 0 then [] else
      var t := Steps(m, d, addr, RootBase(root), d.Levels());
      if Present(d.arch, t[0].word) then t else []
  }

  // ---- the resolved entry ----

  /** `ptedit_entry_t`; the valid mask is the set of its levels. */
  datatype Entry = Entry(pgd: Word, p4d: Word, pud: Word, pmd: Word, pte: Word, valid: set<Level>) {
    function At(l: Level): Word {
      match l
      case PGD => pgd
      case P4D => p4d
      case PUD => pud
      case PMD => pmd
      case PTE => pte
    }
  }

  /** The word a trace read at a level, 0 for a level it did not read. */
  function WordAt(t: seq<Step>, l: Level): Word {
    if t == [] then 0 else if t[0].level == l then t[0].word else WordAt(t[1..], l)
  }

  function LevelsOf(t: seq<Step>): set<Level> {
    set s | s in t :: s.level
  }

  /** What a missing level's field shows: the entry above it, if the walk got past that. */
  function Folded(arch: Arch, above: Word): Word {
    if Present(arch, above) then above else 0
  }

  function EntryOf(d: Definition, t: seq<Step>): Entry {
    var pgd := WordAt(t, PGD);
    var p4d := if d.hasP4d then WordAt(t, P4D) else Folded(d.arch, pgd);
    var pud := if d.hasPud then WordAt(t, PUD) else Folded(d.arch, p4d);
    var pmd := if d.hasPmd then WordAt(t, PMD) else Folded(d.arch, pud);
    Entry(pgd, p4d, pud, pmd, WordAt(t, PTE), LevelsOf(t))
  }

  function Resolve(m: Memory, d: Definition, root: nat, addr: nat): Entry {
    EntryOf(d, Trace(m, d, root, addr))
  }

  // ---- what a trace is ----

  /** The table a step reads: the given one for the first step, then the frame of the entry above. */
  function Table(t: seq<Step>, k: nat, arch: Arch, base: nat): nat
    requires k <= |t|
  {
    if k == 0 then base else Frame(arch, t[k - 1].word)
  }

  /** Step `k` reads the entry of its level in the right table, and the entry above leads to it. */
  ghost predicate StepAt(t: seq<Step>, k: nat, m: Memory, d: Definition, addr: nat, base: nat, levels: seq<Level>)
    requires k < |t| <= |levels|
  {
    && t[k] == Step(levels[k], Slot(Table(t, k, d.arch, base), d.Index(addr, levels[k])), m[t[k].slot])
    && (k > 0 ==> Leads(d.arch, t[k - 1].word, levels[k]))
  }

  /** A walk from the table at `base`: right at every step, and stopped by the first entry that does not lead on. */
  ghost predicate IsWalk(t: seq<Step>, m: Memory, d: Definition, addr: nat, base: nat, levels: seq<Level>) {
    && |t| <= |levels| && (levels != [] ==> t != [])
    && (forall k :: 0 <= k < |t| ==> StepAt(t, k, m, d, addr, base, levels))
    && (t != [] && |t| < |levels| ==> !Leads(d.arch, t[|t| - 1].word, levels[|t|]))
  }

  lemma {:induction false} StepsIsWalk(m: Memory, d: Definition, addr: nat, base: nat, levels: seq<Level>)
    ensures IsWalk(Steps(m, d, addr, base, levels), m, d, addr, base, levels)
    decreases |levels|
  {
    hide Slot, Frame, Leads;
    if levels != [] {
      var t := Steps(m, d, addr, base, levels);
      if |t| > 1 {
        var down := Frame(d.arch, t[0].word);
        var u := Steps(m, d, addr, down, levels[1..]);
        StepsIsWalk(m, d, addr, down, levels[1..]);
        forall k | 0 < k < |t| ensures StepAt(t, k, m, d, addr, base, levels) {
          assert StepAt(u, k - 1, m, d, addr, down, levels[1..]);
        }
      }
    }
  }

  /** The description determines the walk, so `Steps` is the only walk there is. */
  lemma {:induction false} WalkIsUnique(t: seq<Step>, m: Memory, d: Definition, addr: nat, base: nat,
      levels: seq<Level>)
    requires IsWalk(t, m, d, addr, base, levels)
    ensures t == Steps(m, d, addr, base, levels)
    decreases |levels|
  {
    hide Slot, Frame, Leads;
    if levels != [] {
      assert StepAt(t, 0, m, d, addr, base, levels);
      if |t| > 1 {
        assert StepAt(t, 1, m, d, addr, base, levels);
        var u, down := t[1..], Frame(d.arch, t[0].word);
        forall k | 0 <= k < |u| ensures StepAt(u, k, m, d, addr, down, levels[1..]) {
          assert StepAt(t, k + 1, m, d, addr, base, levels);
        }
        WalkIsUnique(u, m, d, addr, down, levels[1..]);
      }
      assert t == [t[0]] + t[1..];
    }
  }

  // ---- traces and the entries made of them ----

  lemma {:induction false} LevelsAreDistinct(d: Definition)
    ensures forall i, j :: 0 <= i < j < |d.Levels()| ==> d.Levels()[i] != d.Levels()[j]
    ensures forall l :: l in d.Levels() <==>
        (l == PGD || l == PTE || (l == P4D && d.hasP4d) || (l == PUD && d.hasPud) || (l == PMD && d.hasPmd))
    ensures |d.Levels()| >= 2 && d.Levels()[|d.Levels()| - 1] == PTE
  {
  }

  /** What is true of every trace: it is empty, or it is the walk from the root and its PGD entry is present. */
  lemma {:induction false} TraceIsWalk(m: Memory, d: Definition, root: nat, addr: nat)
    ensures var t := Trace(m, d, root, addr);
            && (t != [] ==> IsWalk(t, m, d, addr, RootBase(root), d.Levels()) && Present(d.arch, t[0].word))
            && (t == [] <==> RootBase(root) == 0 || !Present(d.arch, m[Slot(RootBase(root), d.Index(addr, PGD))]))
            && OnLevels(t, d)
  {
    hide Slot, Frame, Present;
    StepsIsWalk(m, d, addr, RootBase(root), d.Levels());
    var t := Steps(m, d, addr, RootBase(root), d.Levels());
    assert StepAt(t, 0, m, d, addr, RootBase(root), d.Levels());
    forall k | 0 <= k < |t| ensures t[k].level == d.Levels()[k] {
      assert StepAt(t, k, m, d, addr, RootBase(root), d.Levels());
    }
  }

  /** The levels of the steps are a root-first prefix of the levels that exist. */
  ghost predicate OnLevels(t: seq<Step>, d: Definition) {
    |t| <= |d.Levels()| && forall k :: 0 <= k < |t| ==> t[k].level == d.Levels()[k]
  }

  lemma {:induction false} WordAtStep(t: seq<Step>, k: nat)
    requires k < |t| && forall i, j :: 0 <= i < j < |t| ==> t[i].level != t[j].level
    ensures WordAt(t, t[k].level) == t[k].word
  {
    if k > 0 {
      WordAtStep(t[1..], k - 1);
    }
  }

  lemma {:induction false} FieldOfLevel(d: Definition, t: seq<Step>, l: Level)
    requires l == PGD || l == PTE || (l == P4D && d.hasP4d) || (l == PUD && d.hasPud) || (l == PMD && d.hasPmd)
    ensures EntryOf(d, t).At(l) == WordAt(t, l)
  {
    hide WordAt, Present, LevelsOf;
  }

  lemma {:induction false} EntryValid(d: Definition, t: seq<Step>)
    ensures EntryOf(d, t).valid == LevelsOf(t)
  {
    hide WordAt, LevelsOf;
  }

  /** A resolved entry shows, at each level marked valid, the word its walk read there. */
  lemma {:induction false} EntryShowsSteps(d: Definition, t: seq<Step>)
    requires OnLevels(t, d)
    ensures forall k :: 0 <= k < |t| ==> t[k].level in EntryOf(d, t).valid && EntryOf(d, t).At(t[k].level) == t[k].word
    ensures forall l :: l in EntryOf(d, t).valid <==> exists k :: 0 <= k < |t| && t[k].level == l
  {
    hide EntryOf, WordAt, Definition.Levels, Entry.At;
    LevelsAreDistinct(d);
    EntryValid(d, t);
    forall k | 0 <= k < |t| ensures EntryOf(d, t).At(t[k].level) == t[k].word {
      WordAtStep(t, k);
      assert t[k].level == d.Levels()[k] && t[k].level in d.Levels();
      FieldOfLevel(d, t, t[k].level);
    }
  }

  /** The fields of a resolved entry are the memory words at the slots of its walk. */
  lemma {:induction false} ResolveShowsMemory(m: Memory, d: Definition, root: nat, addr: nat)
    ensures var t, e := Trace(m, d, root, addr), Resolve(m, d, root, addr);
            && (forall k :: 0 <= k < |t| ==>
                  t[k].word == m[t[k].slot] && t[k].level in e.valid && e.At(t[k].level) == m[t[k].slot])
            && (forall l :: l in e.valid ==> exists k :: 0 <= k < |t| && t[k].level == l)
  {
    hide Slot, Frame, Present, EntryOf, Definition.Levels, Steps;
    var t := Trace(m, d, root, addr);
    TraceIsWalk(m, d, root, addr);
    EntryShowsSteps(d, t);
    forall k | 0 <= k < |t| ensures t[k].word == m[t[k].slot] {
      assert StepAt(t, k, m, d, addr, RootBase(root), d.Levels());
    }
  }

  /** The PTE is valid exactly when the walk read every level. */
  lemma {:induction false} PteIsLast(d: Definition, t: seq<Step>)
    requires OnLevels(t, d)
    ensures PTE in EntryOf(d, t).valid <==> |t| == |d.Levels()|
    ensures |t| == |d.Levels()| ==> t[|t| - 1].level == PTE && EntryOf(d, t).pte == t[|t| - 1].word
  {
    LevelsAreDistinct(d);
    EntryShowsSteps(d, t);
    if |t| == |d.Levels()| {
      assert t[|t| - 1].level in EntryOf(d, t).valid;
    }
  }

  // ---- the same walk in another memory ----

  /** Steps with the words another memory holds at their slots. */
  function Reread(t: seq<Step>, m: Memory): seq<Step> {
    seq(|t|, k requires 0 <= k < |t| => t[k].(word := m[t[k].slot]))
  }

  /**
   * The walk treats both entries of level `l` alike: it goes on from both to the same table or stops at both, and marks
   * the PGD valid for both or for neither. It looks at no field of a PTE.
   */
  predicate Alike(d: Definition, l: Level, v: Word, w: Word) {
    l == PTE || (SameLead(d.arch, l == d.LastTable(), v, w)
        && (l == PGD ==> (Present(d.arch, v) <==> Present(d.arch, w))))
  }

  lemma {:induction false} AlikeReflexive(d: Definition, l: Level, w: Word)
    ensures Alike(d, l, w, w)
  {
    hide Present, MapsLarge, FieldPfn;
  }

  lemma {:induction false} SameShapeAlike(d: Definition, l: Level, v: Word, w: Word)
    requires SameShape(d.arch, l == d.LastTable(), v, w)
    ensures Alike(d, l, v, w)
  {
    hide Present, MapsLarge, FieldPfn;
    SameShapeSameLead(d.arch, l == d.LastTable(), v, w);
  }

  /** The other memory differs from the one walked only where the walk does not look. */
  ghost predicate LooksAlike(d: Definition, t: seq<Step>, m: Memory) {
    forall k :: 0 <= k < |t| ==> Alike(d, t[k].level, t[k].word, m[t[k].slot])
  }

  /** Between two levels, `Leads` asks whether the lower one is the PTE, and that is so just below the last table. */
  lemma {:induction false} NextOfLastTable(d: Definition, k: nat)
    requires k + 1 < |d.Levels()|
    ensures d.Levels()[k + 1] == PTE <==> d.Levels()[k] == d.LastTable()
    ensures d.Levels()[k] != PTE && (d.Levels()[k] == PGD <==> k == 0)
  {
  }

  lemma {:induction false} AlikeLeads(d: Definition, k: nat, v: Word, w: Word)
    requires k + 1 < |d.Levels()| && Alike(d, d.Levels()[k], v, w)
    ensures Leads(d.arch, v, d.Levels()[k + 1]) <==> Leads(d.arch, w, d.Levels()[k + 1])
    ensures Leads(d.arch, v, d.Levels()[k + 1]) ==> Frame(d.arch, v) == Frame(d.arch, w)
  {
    hide Present, MapsLarge, FieldPfn, Definition.Levels, Definition.LastTable;
    NextOfLastTable(d, k);
  }

  lemma {:induction false} RereadStep(t: seq<Step>, k: nat, m: Memory, m': Memory, d: Definition, addr: nat, base: nat)
    requires IsWalk(t, m, d, addr, base, d.Levels()) && k < |t| && LooksAlike(d, t, m')
    requires OnLevels(t, d)
    ensures StepAt(Reread(t, m'), k, m', d, addr, base, d.Levels())
  {
    hide Slot, LeadsOn, Frame, Alike, Definition.Levels;
    assert StepAt(t, k, m, d, addr, base, d.Levels());
    if k > 0 {
      AlikeLeads(d, k - 1, t[k - 1].word, m'[t[k - 1].slot]);
    }
  }

  /** A memory that looks alike is walked through the same slots. */
  lemma {:induction false} StepsReread(m: Memory, m': Memory, d: Definition, addr: nat, base: nat)
    requires LooksAlike(d, Steps(m, d, addr, base, d.Levels()), m')
    ensures Steps(m', d, addr, base, d.Levels()) == Reread(Steps(m, d, addr, base, d.Levels()), m')
    ensures OnLevels(Steps(m, d, addr, base, d.Levels()), d)
  {
    hide Slot, LeadsOn, Frame, Alike, Definition.Levels, Steps, LooksAlike;
    var t := Steps(m, d, addr, base, d.Levels());
    StepsIsWalk(m, d, addr, base, d.Levels());
    StepsOnLevels(t, m, d, addr, base);
    LevelsAreDistinct(d);
    var u := Reread(t, m');
    forall k | 0 <= k < |u| ensures StepAt(u, k, m', d, addr, base, d.Levels()) {
      RereadStep(t, k, m, m', d, addr, base);
    }
    if |t| < |d.Levels()| {
      LastAlike(d, t, m');
      AlikeLeads(d, |t| - 1, t[|t| - 1].word, u[|t| - 1].word);
    }
    WalkIsUnique(u, m', d, addr, base, d.Levels());
  }

  lemma {:induction false} LastAlike(d: Definition, t: seq<Step>, m: Memory)
    requires LooksAlike(d, t, m) && t != []
    ensures Alike(d, t[|t| - 1].level, t[|t| - 1].word, m[t[|t| - 1].slot])
  {
    hide Alike;
  }

  lemma {:induction false} StepsOnLevels(t: seq<Step>, m: Memory, d: Definition, addr: nat, base: nat)
    requires IsWalk(t, m, d, addr, base, d.Levels())
    ensures OnLevels(t, d)
  {
    forall k | 0 <= k < |t| ensures t[k].level == d.Levels()[k] {
      assert StepAt(t, k, m, d, addr, base, d.Levels());
    }
  }

  /** Whatever the walk reads: its trace, and also a PGD entry that is not present. */
  function Walked(m: Memory, d: Definition, root: nat, addr: nat): seq<Step> {
    if RootBase(root) == 0 then [] else Steps(m, d, addr, RootBase(root), d.Levels())
  }

  lemma {:induction false} TraceIsWalked(m: Memory, d: Definition, root: nat, addr: nat)
    ensures Trace(m, d, root, addr) != [] ==> Trace(m, d, root, addr) == Walked(m, d, root, addr)
  {
    hide Steps, Present, Definition.Levels;
  }

  lemma {:induction false} TraceReread(m: Memory, m': Memory, d: Definition, root: nat, addr: nat)
    requires LooksAlike(d, Walked(m, d, root, addr), m')
    ensures Trace(m', d, root, addr) == Reread(Trace(m, d, root, addr), m')
    ensures Walked(m', d, root, addr) == Reread(Walked(m, d, root, addr), m')
  {
    hide Slot, LeadsOn, Present, SameLead, Frame, Definition.Levels, Steps;
    if RootBase(root) != 0 {
      var t := Walked(m, d, root, addr);
      StepsReread(m, m', d, addr, RootBase(root));
      LevelsAreDistinct(d);
      NextOfLastTable(d, 0);
      assert Alike(d, t[0].level, t[0].word, m'[t[0].slot]);
    }
  }

  function SlotsOf(t: seq<Step>): seq<nat> {
    seq(|t|, k requires 0 <= k < |t| => t[k].slot)
  }

  lemma {:induction false} SlotNamesBase(a: nat, b: nat, idx: nat)
    requires a < 0x1_0000_0000_0000_0000 && b < 0x1_0000_0000_0000_0000
    requires Slot(a, idx) == Slot(b, idx)
    ensures a == b
  {
  }

  lemma {:induction false} SameFrameSamePfn(arch: Arch, v: Word, w: Word)
    requires Frame(arch, v) == Frame(arch, w)
    ensures FieldPfn(arch, v) == FieldPfn(arch, w)
  {
    hide FieldPfn, AsNat;
    AsNatIsInjective(FieldPfn(arch, v), FieldPfn(arch, w));
  }

  /** Two walks through the same slots went on, or stopped, alike at each of them. */
  lemma {:induction false} SameSlotsAlike(t: seq<Step>, m: Memory, u: seq<Step>, m': Memory, d: Definition, addr: nat,
      base: nat, k: nat)
    requires IsWalk(t, m, d, addr, base, d.Levels()) && IsWalk(u, m', d, addr, base, d.Levels())
    requires SlotsOf(t) == SlotsOf(u) && k < |t| && t[k].level != PTE
    ensures |u| == |t| && u[k].slot == t[k].slot && u[k].word == m'[t[k].slot]
    ensures t[k].level == d.Levels()[k] && k + 1 < |d.Levels()|
    ensures SameLead(d.arch, d.Levels()[k] == d.LastTable(), t[k].word, u[k].word)
  {
    hide Slot, LeadsOn, Frame, FieldPfn, Definition.Levels, Definition.LastTable;
    LevelsAreDistinct(d);
    assert |SlotsOf(t)| == |SlotsOf(u)|;
    assert SlotsOf(t)[k] == SlotsOf(u)[k];
    assert StepAt(t, k, m, d, addr, base, d.Levels()) && StepAt(u, k, m', d, addr, base, d.Levels());
    NextOfLastTable(d, k);
    if k + 1 < |t| {
      assert SlotsOf(t)[k + 1] == SlotsOf(u)[k + 1];
      assert StepAt(t, k + 1, m, d, addr, base, d.Levels()) && StepAt(u, k + 1, m', d, addr, base, d.Levels());
      FrameIsPageAligned(d.arch, t[k].word);
      FrameIsPageAligned(d.arch, u[k].word);
      SlotNamesBase(Frame(d.arch, t[k].word), Frame(d.arch, u[k].word), d.Index(addr, t[k + 1].level));
      SameFrameSamePfn(d.arch, t[k].word, u[k].word);
    }
  }

  /**
   * Whatever stores lie between two memories: an address is walked through the same slots in both, and marks the PGD
   * valid in both or in neither, exactly when they look alike along its walk.
   */
  lemma {:induction false} SameSlotsIffAlike(m: Memory, m': Memory, d: Definition, root: nat, addr: nat)
    ensures SlotsOf(Walked(m', d, root, addr)) == SlotsOf(Walked(m, d, root, addr))
            && (Trace(m', d, root, addr) == [] <==> Trace(m, d, root, addr) == [])
            <==> LooksAlike(d, Walked(m, d, root, addr), m')
  {
    hide Slot, LeadsOn, Present, SameLead, Frame, Definition.Levels, Definition.LastTable, IsWalk;
    var t, u := Walked(m, d, root, addr), Walked(m', d, root, addr);
    if LooksAlike(d, t, m') {
      TraceReread(m, m', d, root, addr);
      assert SlotsOf(u) == SlotsOf(t);
    }
    if SlotsOf(u) == SlotsOf(t) && (Trace(m', d, root, addr) == [] <==> Trace(m, d, root, addr) == []) {
      forall k | 0 <= k < |t| ensures Alike(d, t[k].level, t[k].word, m'[t[k].slot]) {
        StepsIsWalk(m, d, addr, RootBase(root), d.Levels());
        StepsIsWalk(m', d, addr, RootBase(root), d.Levels());
        if t[k].level != PTE {
          SameSlotsAlike(t, m, u, m', d, addr, RootBase(root), k);
          NextOfLastTable(d, k);
        }
      }
    }
  }
}
