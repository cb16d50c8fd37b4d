/** When the kernel marks the same levels valid as the user-space walk, on x86 with four levels. */
module KernelLevels {
  import opened Words
  import opened Paging
  import opened Walk
  import opened Unrolled
  import opened Kernel
  import opened KernelEdits

  /**
   * What is used of Linux's own macros, which are not part of the module: with four levels the folded PGD passes every
   * test, an entry is none when all its bits but accessed and dirty are clear, and the size bit makes it large, in a
   * PUD if it is present. Nothing is said of which P4D entries are bad.
   */
  ghost predicate FourLevelMacros(k: Macros) {
    && (forall w :: !k.none(PGD, w) && !k.bad(PGD, w))
    && (forall l, w :: l != PGD ==> (k.none(l, w) <==> w & 0xffff_ffff_ffff_ff9f == 0))
    && (forall w :: k.large(PUD, w) <==> Present(X86, w) && HasBit(w, 7))
    && (forall w :: k.large(PMD, w) <==> HasBit(w, 7))
  }

  lemma {:induction false} NoneIsAbsent(w: Word)
    requires w & 0xffff_ffff_ffff_ff9f == 0
    ensures !Present(X86, w) && !HasBit(w, 7)
  {
    LowBits(w);
    hide HasBit;
  }

  /** The levels of a walk: the first one, and those below it if its entry leads on. */
  lemma {:induction false} LevelsRead(m: Memory, d: Definition, addr: nat, base: nat, levels: seq<Level>)
    requires levels != []
    ensures var w := m[Slot(base, d.Index(addr, levels[0]))];
            && Steps(m, d, addr, base, levels)[0].word == w
            && LevelsOf(Steps(m, d, addr, base, levels)) == {levels[0]} +
               if |levels| > 1 && Leads(d.arch, w, levels[1])
               then LevelsOf(Steps(m, d, addr, Frame(d.arch, w), levels[1..])) else {}
  {
    hide Slot, Frame, Leads, Definition.Index;
    var slot := Slot(base, d.Index(addr, levels[0]));
    var first := Step(levels[0], slot, m[slot]);
    var rest := if |levels| > 1 && Leads(d.arch, m[slot], levels[1])
                then Steps(m, d, addr, Frame(d.arch, m[slot]), levels[1..]) else [];
    assert Steps(m, d, addr, base, levels) == [first] + rest;
    forall l ensures l in LevelsOf([first] + rest) <==> l == levels[0] || l in LevelsOf(rest) {
      if l == levels[0] {
        assert first in [first] + rest;
      }
      if s :| s in rest && s.level == l {
        assert s in [first] + rest;
      }
    }
  }

  /** The levels the user-space walk marks valid, in terms of the words alone. */
  lemma {:induction false} UserValid(m: Memory, root: nat, addr: nat)
    requires RootBase(root) == root != 0
    ensures var valid := Resolve(m, X86_64, root, addr).valid;
            var pgd := m[Slot(root, X86_64.Index(addr, PGD))];
            var pud := m[Slot(Frame(X86, pgd), X86_64.Index(addr, PUD))];
            var pmd := m[Slot(Frame(X86, pud), X86_64.Index(addr, PMD))];
            && (PGD in valid <==> Present(X86, pgd)) && P4D !in valid && (PUD in valid <==> Present(X86, pgd))
            && (PMD in valid <==> Present(X86, pgd) && Present(X86, pud))
            && (PTE in valid <==> Present(X86, pgd) && Present(X86, pud) && Present(X86, pmd) && !HasBit(pmd, 7))
  {
    hide Slot, Frame, Present, MapsLarge, HasBit, Definition.Index, EntryOf, RootBase, Steps, LevelsOf;
    EntryValid(X86_64, Trace(m, X86_64, root, addr));
    NoLevels();
    var levels := X86_64.Levels();
    assert levels == [PGD, PUD, PMD, PTE];
    assert levels[1..] == [PUD, PMD, PTE] && levels[1..][1..] == [PMD, PTE] && levels[1..][1..][1..] == [PTE];
    var pgd := m[Slot(root, X86_64.Index(addr, PGD))];
    var pud := m[Slot(Frame(X86, pgd), X86_64.Index(addr, PUD))];
    var pmd := m[Slot(Frame(X86, pud), X86_64.Index(addr, PMD))];
    LevelsRead(m, X86_64, addr, root, levels);
    LevelsRead(m, X86_64, addr, Frame(X86, pgd), levels[1..]);
    LevelsRead(m, X86_64, addr, Frame(X86, pud), levels[1..][1..]);
    LevelsRead(m, X86_64, addr, Frame(X86, pmd), levels[1..][1..][1..]);
    FieldsAreLaidOut(pmd);
  }

  lemma {:induction false} NoLevels()
    ensures LevelsOf([]) == {}
  {
  }

  /** On narrow entries the kernel's offset macros lead to the slots of the user-space walk. */
  lemma {:induction false} SamePath(m: Memory, root: nat, addr: nat)
    requires NarrowFrame(X86, m[KernelPath(m, X86_64, root, addr, PGD)])
    requires NarrowFrame(X86, m[KernelPath(m, X86_64, root, addr, PUD)])
    ensures var pgd := m[KernelPath(m, X86_64, root, addr, PGD)];
            var pud := m[KernelPath(m, X86_64, root, addr, PUD)];
            && KernelPath(m, X86_64, root, addr, PGD) == KernelPath(m, X86_64, root, addr, P4D)
            && KernelPath(m, X86_64, root, addr, PGD) == Slot(root, X86_64.Index(addr, PGD))
            && KernelPath(m, X86_64, root, addr, PUD) == Slot(Frame(X86, pgd), X86_64.Index(addr, PUD))
            && KernelPath(m, X86_64, root, addr, PMD) == Slot(Frame(X86, pud), X86_64.Index(addr, PMD))
  {
    hide Slot, PfnBase, Frame, NarrowFrame, Definition.Index;
    FramesAgree(X86, m[KernelPath(m, X86_64, root, addr, PGD)]);
    FramesAgree(X86, m[KernelPath(m, X86_64, root, addr, PUD)]);
  }

  /**
   * Both walkers mark the same existing levels valid exactly when the PGD entry is present and not bad, the PUD is not
   * none, and: a present PUD maps no large page and has a PMD that is present or large, or one that is not present has
   * a PMD that is none. The user-space walk marks a level valid as soon as it is read, the kernel only if it accepts
   * it; and only the kernel stops at a large PUD.
   */
  lemma {:induction false} LevelsAgreeExactly(m: Memory, k: Macros, root: nat, addr: nat)
    requires FourLevelMacros(k) && RootBase(root) == root != 0
    requires NarrowFrame(X86, m[KernelPath(m, X86_64, root, addr, PGD)])
    requires NarrowFrame(X86, m[KernelPath(m, X86_64, root, addr, PUD)])
    ensures var pgd := m[KernelPath(m, X86_64, root, addr, PGD)];
            var pud, pmd := m[KernelPath(m, X86_64, root, addr, PUD)], m[KernelPath(m, X86_64, root, addr, PMD)];
            SameLevels(m, X86_64, k, root, addr) <==>
            && Present(X86, pgd) && !k.bad(P4D, pgd) && !k.none(PUD, pud)
            && if Present(X86, pud) then !HasBit(pud, 7) && (Present(X86, pmd) || HasBit(pmd, 7)) else k.none(PMD, pmd)
  {
    hide Slot, KernelPath, KernelStep, Present, HasBit, Resolve, NarrowFrame, RootBase, Frame, Reads;
    SamePath(m, root, addr);
    UserValid(m, root, addr);
    NonesAreAbsent(k, m[KernelPath(m, X86_64, root, addr, P4D)]);
    NonesAreAbsent(k, m[KernelPath(m, X86_64, root, addr, PUD)]);
    NonesAreAbsent(k, m[KernelPath(m, X86_64, root, addr, PMD)]);
    StepExactly(m, X86_64, k, root, addr, PGD);
    StepExactly(m, X86_64, k, root, addr, P4D);
    StepExactly(m, X86_64, k, root, addr, PUD);
    StepExactly(m, X86_64, k, root, addr, PMD);
    StepExactly(m, X86_64, k, root, addr, PTE);
    ExistingLevels();
  }

  lemma {:induction false} NonesAreAbsent(k: Macros, w: Word)
    requires FourLevelMacros(k)
    ensures forall l :: l != PGD && k.none(l, w) ==> !Present(X86, w) && !HasBit(w, 7)
  {
    if l :| l != PGD && k.none(l, w) {
      NoneIsAbsent(w);
    }
  }

  lemma {:induction false} ExistingLevels()
    ensures forall l :: Reads(X86_64, l) <==> l == PGD || l == PUD || l == PMD || l == PTE
  {
  }
}
