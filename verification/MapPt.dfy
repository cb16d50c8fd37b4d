/** The second route to a PTE edit: through a mapping of the page table that holds the PTE. */
module MapPt {
  import opened Words
  import opened Radix
  import opened Paging
  import opened Walk
  import opened Unrolled
  import opened PteEdits
  import opened Editor

  /** The address of `mapped_entry`: word `(target >> 12) & 0x1ff` of the page `pmd.pfn * pagesize`. */
  function MappedEntry(d: Definition, pmd: Word, target: nat): nat {
    FrameNumber(d.arch, pmd) * d.PageBytes() + 8 * (target / 4096 % 512)
  }

  /** The configurations with 4 KB pages and 512-entry page tables. */
  predicate SmallPages(d: Definition) {
    d.pageOffset == 12 && d.ptBits == 9
  }

  lemma {:induction false} MappedEntryIsPteSlot(m: Memory, d: Definition, root: nat, target: nat)
    requires SmallPages(d) && PTE in Resolve(m, d, root, target).valid
    ensures MappedEntry(d, Resolve(m, d, root, target).pmd, target) == PteSlot(m, d, root, target)
  {
    hide Trace, EntryOf, FieldPfn, Definition.Levels, Frame, Slot;
    var t, e := Trace(m, d, root, target), Resolve(m, d, root, target);
    PteIsRead(m, d, root, target);
    SlotsRecomputed(m, d, root, target, |t| - 1);
    SlotFields(d, e, root, target);
    FrameIsPageAligned(d.arch, e.pmd);
    SmallIndex(d, target);
    SmallSlot(d, e.pmd, d.Index(target, PTE));
  }

  lemma {:induction false} SmallIndex(d: Definition, target: nat)
    requires SmallPages(d)
    ensures d.PageBytes() == 4096
    ensures d.Index(target, PTE) == target / 4096 % 512
  {
    Powers();
    DigitIsRemainder(target, 12, 9);
  }

  lemma {:induction false} SmallSlot(d: Definition, pmd: Word, idx: nat)
    requires Frame(d.arch, pmd) < 0x1_0000_0000_0000 && idx < 512
    ensures Slot(Frame(d.arch, pmd), idx) == FrameNumber(d.arch, pmd) * 4096 + 8 * idx
  {
    hide FrameNumber;
  }

  /** Editing the entry through the mapping changes all of memory as the PTE edit of the address does. */
  lemma {:induction false} TwoRoutesOneEdit(m: Memory, d: Definition, root: nat, target: nat, edit: Edit)
    requires SmallPages(d) && PTE in Resolve(m, d, root, target).valid
    ensures var slot := MappedEntry(d, Resolve(m, d, root, target).pmd, target);
            && m[slot] == Resolve(m, d, root, target).pte
            && Put(m, slot, edit.Apply(d.arch, m[slot])) == PteEdited(m, d, root, target, edit)
  {
    hide Resolve, PteSlot, MappedEntry, Edit.Apply, PteEdited, Put;
    MappedEntryIsPteSlot(m, d, root, target);
    PteEditedIsOneStore(m, d, root, target, edit);
    PteSlotHoldsPte(m, d, root, target);
  }

  /**
   * With 16 KB pages the program maps `pfn * 16384` although the frame number counts 4096-byte units, and it takes the
   * wrong index bits. The mapped word is the PTE in two corner cases and in no other.
   */
  lemma {:induction false} LargePagesMiss(pmd: Word, target: nat)
    ensures var pfn, idx, word := FrameNumber(Arm, pmd), ARM_16K.Index(target, PTE), target / 4096 % 512;
            MappedEntry(ARM_16K, pmd, target) == Slot(Frame(Arm, pmd), idx)
            <==> (pfn == 0 && idx == word) || (pfn == 1 && idx == word + 1536)
  {
    hide Pow2, Digit, FrameNumber;
    Powers();
    FrameIsPageAligned(Arm, pmd);
    IndexBelow(target);
    WhereTheyMeet(FrameNumber(Arm, pmd), ARM_16K.Index(target, PTE), target / 4096 % 512);
  }

  lemma {:induction false} IndexBelow(target: nat)
    requires Pow2(11) == 2048
    ensures ARM_16K.Index(target, PTE) < 2048
  {
  }

  lemma {:induction false} WhereTheyMeet(pfn: nat, idx: nat, word: nat)
    requires pfn < 0x10_0000_0000 && idx < 2048 && word < 512
    ensures pfn * 16384 + 8 * word == (pfn * 4096 + 8 * idx) % 0x1_0000_0000_0000_0000
            <==> (pfn == 0 && idx == word) || (pfn == 1 && idx == word + 1536)
  {
  }

  /** A remapped address resolves differently exactly when the new frame number changes its PTE. */
  lemma {:induction false} RemapShows(m: Memory, d: Definition, root: nat, target: nat, pfn: Word)
    requires PTE in Resolve(m, d, root, target).valid && PteApart(m, d, root, target)
    ensures var pte := Resolve(m, d, root, target).pte;
            Resolve(PteEdited(m, d, root, target, SettingPfn(pfn)), d, root, target) != Resolve(m, d, root, target)
            <==> SetPfn(d.arch, pte, pfn) != pte
  {
    hide Resolve, PteEdited, SetPfn, PteApart, PteSlot, Put;
    PteEditedIsOneStore(m, d, root, target, SettingPfn(pfn));
    ResolveAfterPteStore(m, d, root, target, SetPfn(d.arch, Resolve(m, d, root, target).pte, pfn));
  }

  /**
   * The demo: remaps `target` to the page of `secret` through the mapped page table, accesses `target`, and resets the
   * entry. The access caches the remapped walk, and the reset does not flush it: it is left stale exactly when the
   * remapping changed the PTE.
   */
  method RemapThroughMapping(ed: PtEditor, target: nat, secret: nat) returns (worked: bool, ghost remapped: Memory)
    requires SmallPages(ed.d) && PTE in Resolve(ed.mem, ed.d, ed.RootOf(0), target).valid
    modifies ed`mem, ed`tlb
    ensures worked
    ensures var pfn := GetPfn(ed.d.arch, Resolve(old(ed.mem), ed.d, ed.RootOf(0), secret).pte);
            remapped == PteEdited(old(ed.mem), ed.d, ed.RootOf(0), target, SettingPfn(pfn))
    ensures ed.mem == old(ed.mem)
    ensures ed.tlb == old(ed.tlb)[ed.d.Page(target) := Resolve(remapped, ed.d, ed.RootOf(0), target)]
    ensures PteApart(ed.mem, ed.d, ed.RootOf(0), target) ==>
              var pte := Resolve(ed.mem, ed.d, ed.RootOf(0), target).pte;
              var pfn := GetPfn(ed.d.arch, Resolve(ed.mem, ed.d, ed.RootOf(0), secret).pte);
              ed.tlb[ed.d.Page(target)] != Resolve(ed.mem, ed.d, ed.RootOf(0), target)
              <==> SetPfn(ed.d.arch, pte, pfn) != pte
  {
    hide Resolve, MappedEntry, SetPfn, GetPfn, PteEdited, PteApart, Definition.Page, Put;
    ghost var m, d, root := ed.mem, ed.d, ed.RootOf(0);
    var secretEntry := ed.ResolveUser(secret, 0);
    var targetEntry := ed.ResolveUser(target, 0);
    var mappedEntry := MappedEntry(ed.d, targetEntry.pmd, target);
    var pfn := GetPfn(ed.d.arch, secretEntry.pte);
    TwoRoutesOneEdit(m, d, root, target, SettingPfn(pfn));
    worked := ed.mem[mappedEntry] == targetEntry.pte;
    EditMapped(ed, mappedEntry, pfn, target);
    remapped := ed.mem;
    Restore(ed, mappedEntry, targetEntry.pte);
    PutBack(m, mappedEntry, SetPfn(d.arch, m[mappedEntry], pfn));
    if PteApart(m, d, root, target) {
      RemapShows(m, d, root, target, pfn);
    }
  }

  /** The edit of the mapped entry, the flush, and the access to the target. */
  method EditMapped(ed: PtEditor, mappedEntry: nat, pfn: Word, target: nat)
    modifies ed`mem, ed`tlb
    ensures ed.mem == Put(old(ed.mem), mappedEntry, SetPfn(ed.d.arch, old(ed.mem)[mappedEntry], pfn))
    ensures ed.tlb == old(ed.tlb)[ed.d.Page(target) := Resolve(ed.mem, ed.d, ed.RootOf(0), target)]
  {
    hide Resolve, SetPfn, Definition.Page;
    ed.mem := Put(ed.mem, mappedEntry, SetPfn(ed.d.arch, ed.mem[mappedEntry], pfn));
    ed.InvalidateTlb(target);
    ed.Access(target);
    assert ed.tlb == old(ed.tlb)[ed.d.Page(target) := Resolve(ed.mem, ed.d, ed.RootOf(0), target)];
  }

  method Restore(ed: PtEditor, mappedEntry: nat, pte: Word)
    modifies ed`mem
    ensures ed.mem == Put(old(ed.mem), mappedEntry, pte)
  {
    ed.mem := Put(ed.mem, mappedEntry, pte);
  }

  lemma {:induction false} PutBack(m: Memory, slot: nat, w: Word)
    ensures Put(Put(m, slot, w), slot, m[slot]) == m
  {
  }
}
