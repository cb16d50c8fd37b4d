/** The user-space implementation: the unrolled walker, the updater, and the edits built on them. */
module Editor {
  import opened Words
  import opened Paging
  import opened Walk
  import opened Unrolled

  /** The library's state: physical memory, the paging roots, and the TLB of the own address space. */
  class PtEditor {
    const d: Definition
    var mem: Memory
    /** `ptedit_paging_root`, read once when a user-space implementation is selected. */
    var pagingRoot: nat
    /** What GET_ROOT answers; an unknown pid leaves the answer 0. */
    var roots: map<nat, nat>
    /** Cached walk results by virtual page. */
    var tlb: map<nat, Entry>

    constructor (d: Definition, mem: Memory, roots: map<nat, nat>)
      ensures this.d == d && this.mem == mem && this.roots == roots && tlb == map[]
      ensures pagingRoot == if 0 in roots then roots[0] else 0
    {
      this.d := d;
      this.mem := mem;
      this.roots := roots;
      pagingRoot := if 0 in roots then roots[0] else 0;
      tlb := map[];
    }

    function RootOf(pid: nat): nat
      reads this`pagingRoot, this`roots
    {
      if pid == 0 then pagingRoot else if pid in roots then roots[pid] else 0
    }

    /** `ptedit_use_implementation` for a user-space one: the own process is walked from the root it has now. */
    method UseImplementation()
      modifies this`pagingRoot
      ensures 0 in roots ==> RootOf(0) == roots[0]
      ensures 0 !in roots ==> RootOf(0) == 0
      ensures forall pid: nat :: pid != 0 ==> RootOf(pid) == old(RootOf(pid))
    {
      pagingRoot := if 0 in roots then roots[0] else 0;
    }

    /** The second half of `ptedit_resolve_user_ext`: the PMD and the PTE below a present PUD entry. */
    method ResolveBelowPud(upper: Entry, pudEntry: Word, addr: nat, ghost t0: seq<Step>, ghost r: nat)
        returns (resolved: Entry)
      requires At(t0, upper, PUD, mem, d, r, addr) && pudEntry == upper.pud && Present(d.arch, pudEntry)
      ensures resolved == Resolve(mem, d, r, addr)
    {
      hide Slot, Frame, Present, MapsLarge, At, Resolve;
      ghost var t := t0;
      resolved := upper;
      var pmdEntry := pudEntry;
      if d.hasPmd {
        pmdEntry := mem[Slot(Frame(d.arch, pudEntry), d.Index(addr, PMD))];
        t := ReadLevel(t, resolved, PMD, pmdEntry, mem, d, r, addr);
        resolved := resolved.(valid := resolved.valid + {PMD});
      } else {
        SkipLevel(t, resolved, PMD, mem, d, r, addr);
      }
      resolved := resolved.(pmd := pmdEntry);
      if !Present(d.arch, pmdEntry) {
        ReturnEntry(t, resolved, PMD, mem, d, r, addr);
        return;
      }

      if !MapsLarge(d.arch, pmdEntry) {
        var ptEntry := mem[Slot(Frame(d.arch, pmdEntry), d.Index(addr, PTE))];
        t := ReadLevel(t, resolved, PTE, ptEntry, mem, d, r, addr);
        resolved := resolved.(pte := ptEntry, valid := resolved.valid + {PTE});
        ReturnEntry(t, resolved, PTE, mem, d, r, addr);
      } else {
        ReturnEntry(t, resolved, PMD, mem, d, r, addr);
      }
    }

    /** `ptedit_resolve_user_ext`, unrolled as in the source. */
    method ResolveUser(addr: nat, pid: nat) returns (resolved: Entry)
      ensures resolved == Resolve(mem, d, RootOf(pid), addr)
      ensures pid == 0 ==> resolved == Resolve(mem, d, pagingRoot, addr)
      ensures pid != 0 ==> resolved == Resolve(mem, d, if pid in roots then roots[pid] else 0, addr)
    {
      hide Slot, Frame, Present, MapsLarge, At, Resolve;
      ghost var r := RootOf(pid);
      var root := RootBase(RootOf(pid));
      resolved := Entry(0, 0, 0, 0, 0, {});
      if root == 0 {
        NothingResolved(mem, d, r, addr);
        return;
      }

      var pgdEntry := mem[Slot(root, d.Index(addr, PGD))];
      if !Present(d.arch, pgdEntry) {
        NothingResolved(mem, d, r, addr);
        return;
      }
      resolved := resolved.(pgd := pgdEntry, valid := {PGD});
      ghost var t := ReadRoot(resolved, mem, d, r, addr);

      var p4dEntry := pgdEntry;
      if d.hasP4d {
        p4dEntry := mem[Slot(Frame(d.arch, pgdEntry), d.Index(addr, P4D))];
        t := ReadLevel(t, resolved, P4D, p4dEntry, mem, d, r, addr);
        resolved := resolved.(valid := resolved.valid + {P4D});
      } else {
        SkipLevel(t, resolved, P4D, mem, d, r, addr);
      }
      resolved := resolved.(p4d := p4dEntry);
      if !Present(d.arch, p4dEntry) {
        ReturnEntry(t, resolved, P4D, mem, d, r, addr);
        return;
      }

      var pudEntry := p4dEntry;
      if d.hasPud {
        pudEntry := mem[Slot(Frame(d.arch, p4dEntry), d.Index(addr, PUD))];
        t := ReadLevel(t, resolved, PUD, pudEntry, mem, d, r, addr);
        resolved := resolved.(valid := resolved.valid + {PUD});
      } else {
        SkipLevel(t, resolved, PUD, mem, d, r, addr);
      }
      resolved := resolved.(pud := pudEntry);
      if !Present(d.arch, pudEntry) {
        ReturnEntry(t, resolved, PUD, mem, d, r, addr);
        return;
      }

      resolved := ResolveBelowPud(resolved, pudEntry, addr, t, r);
    }

    /** `ptedit_invalidate_tlb` for the own address space. */
    method InvalidateTlb(addr: nat)
      modifies this`tlb
      ensures tlb == old(tlb) - {d.Page(addr)}
    {
      tlb := tlb - {d.Page(addr)};
    }

    /** The CPU accesses an address of the own process: a page that is not cached is walked and its walk is cached. */
    method Access(addr: nat)
      modifies this`tlb
      ensures tlb == if d.Page(addr) in old(tlb) then old(tlb)
          else old(tlb)[d.Page(addr) := Resolve(mem, d, RootOf(0), addr)]
    {
      hide Resolve, Definition.Page;
      var page := d.Page(addr);
      if page !in tlb {
        var walk := ResolveUser(addr, 0);
        tlb := tlb[page := walk];
      }
    }

    /** One guarded store of the updater, through the write function it is given. */
    method StoreIf(chosen: bool, slot: nat, vm: Entry, l: Level, ghost m: Memory, ghost root: nat, ghost addr: nat)
      requires mem == Stored(m, d, root, addr, vm, Rank(l) + 1)
      requires chosen == (l in vm.valid && l in Resolve(m, d, root, addr).valid && d.Has(l))
      requires slot == SlotFrom(d, Resolve(m, d, root, addr), root, addr, l)
      modifies this`mem
      ensures mem == Stored(m, d, root, addr, vm, Rank(l))
    {
      hide *;
      if chosen {
        mem := Put(mem, slot, vm.At(l));
      }
      StoresStep(m, d, root, addr, vm, l);
    }

    /** The five guarded stores, bottom-up, all through the fields of the entry resolved before them. */
    method StoreLevels(addr: nat, current: Entry, vm: Entry, root: nat)
      requires current == Resolve(mem, d, root, addr)
      modifies this`mem
      ensures mem == Updated(old(mem), d, root, addr, vm)
    {
      hide Slot, Frame, Resolve, Updated, Stored, SlotFrom, Definition.Has;
      ghost var m := mem;
      var pgdSlot := Slot(RootBase(root), d.Index(addr, PGD));
      var p4dSlot := Slot(Frame(d.arch, current.pgd), d.Index(addr, P4D));
      var pudSlot := Slot(Frame(d.arch, current.p4d), d.Index(addr, PUD));
      var pmdSlot := Slot(Frame(d.arch, current.pud), d.Index(addr, PMD));
      var pteSlot := Slot(Frame(d.arch, current.pmd), d.Index(addr, PTE));
      SlotFields(d, current, root, addr);
      StoresBegin(m, d, root, addr, vm);
      StoreIf(PTE in vm.valid && PTE in current.valid && d.Has(PTE), pteSlot, vm, PTE, m, root, addr);
      StoreIf(PMD in vm.valid && PMD in current.valid && d.Has(PMD), pmdSlot, vm, PMD, m, root, addr);
      StoreIf(PUD in vm.valid && PUD in current.valid && d.Has(PUD), pudSlot, vm, PUD, m, root, addr);
      StoreIf(P4D in vm.valid && P4D in current.valid && d.Has(P4D), p4dSlot, vm, P4D, m, root, addr);
      StoreIf(PGD in vm.valid && PGD in current.valid && d.Has(PGD), pgdSlot, vm, PGD, m, root, addr);
      StoresEnd(m, d, root, addr, vm);
    }

    /** `ptedit_update_user_ext`: walks again, stores through the slots of that walk, and flushes. */
    method UpdateUserExt(addr: nat, pid: nat, vm: Entry)
      modifies this`mem, this`tlb
      ensures mem == Updated(old(mem), d, RootOf(pid), addr, vm)
      ensures tlb == if RootBase(RootOf(pid)) == 0 then old(tlb) else old(tlb) - {d.Page(addr)}
    {
      hide Updated, Resolve;
      var current := ResolveUser(addr, pid);
      if RootBase(RootOf(pid)) == 0 {
        NothingToStore(mem, d, RootOf(pid), addr, vm);
        return;
      }
      StoreLevels(addr, current, vm, RootOf(pid));
      InvalidateTlb(addr);
    }

    /** `ptedit_update_user` and `ptedit_update_user_map`. */
    method UpdateUser(addr: nat, pid: nat, vm: Entry)
      modifies this`mem, this`tlb
      ensures mem == Updated(old(mem), d, RootOf(pid), addr, vm)
      ensures tlb == old(tlb) - {d.Page(addr)}
    {
      UpdateUserExt(addr, pid, vm);
      InvalidateTlb(addr);
    }

    /** One guarded field edit of `ptedit_set_bit` or `ptedit_clear_bit`. */
    method EditLevel(vm: Entry, levels: set<Level>, edit: Edit, l: Level, ghost e: Entry, ghost done: set<Level>)
        returns (vm': Entry)
      requires EditedSoFar(d, e, vm, levels, edit, done) && l !in done
      ensures EditedSoFar(d, e, vm', levels, edit, done + {l})
    {
      vm' := vm;
      if l in vm.valid && l in levels && d.Has(l) {
        vm' := WithField(vm, l, edit.Apply(d.arch, vm.At(l))).(valid := vm.valid + {l});
      }
      assert vm' == EditField(d, vm, levels, edit, l);
      hide *;
      EditNext(d, e, vm, levels, edit, done, l);
    }

    /** `ptedit_set_bit`. */
    method SetBitAt(addr: nat, pid: nat, bit: BitNumber, levels: set<Level>)
      modifies this`mem, this`tlb
      ensures mem == LevelsEdited(old(mem), d, RootOf(pid), addr, levels, SettingBit(bit))
      ensures tlb == old(tlb) - {d.Page(addr)}
    {
      hide Resolve, Updated, EditField, EditedSoFar, Edited, Entry.At;
      ghost var e := Resolve(mem, d, RootOf(pid), addr);
      ghost var edit := SettingBit(bit);
      var vm := ResolveUser(addr, pid);
      NothingEdited(d, e, levels, edit);
      vm := EditLevel(vm, levels, SettingBit(bit), PTE, e, {});
      assert {} + {PTE} == {PTE};
      vm := EditLevel(vm, levels, SettingBit(bit), PMD, e, {PTE});
      vm := EditLevel(vm, levels, SettingBit(bit), PUD, e, {PTE} + {PMD});
      vm := EditLevel(vm, levels, SettingBit(bit), P4D, e, {PTE} + {PMD} + {PUD});
      vm := EditLevel(vm, levels, SettingBit(bit), PGD, e, {PTE} + {PMD} + {PUD} + {P4D});
      EditDone(d, e, vm, levels, edit);
      UpdateUser(addr, pid, vm);
    }

    /** `ptedit_clear_bit`. */
    method ClearBitAt(addr: nat, pid: nat, bit: BitNumber, levels: set<Level>)
      modifies this`mem, this`tlb
      ensures mem == LevelsEdited(old(mem), d, RootOf(pid), addr, levels, ClearingBit(bit))
      ensures tlb == old(tlb) - {d.Page(addr)}
    {
      hide Resolve, Updated, EditField, EditedSoFar, Edited, Entry.At;
      ghost var e := Resolve(mem, d, RootOf(pid), addr);
      ghost var edit := ClearingBit(bit);
      var vm := ResolveUser(addr, pid);
      NothingEdited(d, e, levels, edit);
      vm := EditLevel(vm, levels, ClearingBit(bit), PTE, e, {});
      assert {} + {PTE} == {PTE};
      vm := EditLevel(vm, levels, ClearingBit(bit), PMD, e, {PTE});
      vm := EditLevel(vm, levels, ClearingBit(bit), PUD, e, {PTE} + {PMD});
      vm := EditLevel(vm, levels, ClearingBit(bit), P4D, e, {PTE} + {PMD} + {PUD});
      vm := EditLevel(vm, levels, ClearingBit(bit), PGD, e, {PTE} + {PMD} + {PUD} + {P4D});
      EditDone(d, e, vm, levels, edit);
      UpdateUser(addr, pid, vm);
    }

    /** `ptedit_pte_set_bit`. */
    method PteSetBit(addr: nat, pid: nat, bit: BitNumber)
      modifies this`mem, this`tlb
      ensures mem == PteEdited(old(mem), d, RootOf(pid), addr, SettingBit(bit))
      ensures tlb == if PTE in Resolve(old(mem), d, RootOf(pid), addr).valid then old(tlb) - {d.Page(addr)}
          else old(tlb)
    {
      hide Resolve, Updated, SetBit;
      var vm := ResolveUser(addr, pid);
      if PTE !in vm.valid {
        return;
      }
      vm := vm.(pte := SetBit(vm.pte, bit), valid := {PTE});
      UpdateUser(addr, pid, vm);
    }

    /** `ptedit_pte_clear_bit`. */
    method PteClearBit(addr: nat, pid: nat, bit: BitNumber)
      modifies this`mem, this`tlb
      ensures mem == PteEdited(old(mem), d, RootOf(pid), addr, ClearingBit(bit))
      ensures tlb == if PTE in Resolve(old(mem), d, RootOf(pid), addr).valid then old(tlb) - {d.Page(addr)}
          else old(tlb)
    {
      hide Resolve, Updated, ClearBit;
      var vm := ResolveUser(addr, pid);
      if PTE !in vm.valid {
        return;
      }
      vm := vm.(pte := ClearBit(vm.pte, bit), valid := {PTE});
      UpdateUser(addr, pid, vm);
    }

    /** `ptedit_pte_set_pfn`. */
    method PteSetPfn(addr: nat, pid: nat, pfn: Word)
      modifies this`mem, this`tlb
      ensures mem == PteEdited(old(mem), d, RootOf(pid), addr, SettingPfn(pfn))
      ensures tlb == if PTE in Resolve(old(mem), d, RootOf(pid), addr).valid then old(tlb) - {d.Page(addr)}
          else old(tlb)
    {
      hide Resolve, Updated, SetPfn;
      var vm := ResolveUser(addr, pid);
      if PTE !in vm.valid {
        return;
      }
      vm := vm.(pte := SetPfn(d.arch, vm.pte, pfn), valid := {PTE});
      UpdateUser(addr, pid, vm);
    }

    /** `ptedit_pte_get_bit`: reads the PTE field, which is 0 when the PTE is not valid. */
    method PteGetBit(addr: nat, pid: nat, bit: BitNumber) returns (isSet: bool)
      ensures isSet == (PTE in Resolve(mem, d, RootOf(pid), addr).valid
          && HasBit(Resolve(mem, d, RootOf(pid), addr).pte, bit))
    {
      hide Resolve, HasBit;
      var vm := ResolveUser(addr, pid);
      isSet := HasBit(vm.pte, bit);
      if PTE !in vm.valid {
        InvalidPteIsZero(mem, d, RootOf(pid), addr, bit);
      }
    }

    /** `ptedit_pte_get_pfn`. */
    method PteGetPfn(addr: nat, pid: nat) returns (pfn: Word)
      ensures var e := Resolve(mem, d, RootOf(pid), addr);
              pfn == if PTE in e.valid then GetPfn(d.arch, e.pte) else 0
    {
      var vm := ResolveUser(addr, pid);
      pfn := if PTE in vm.valid then GetPfn(d.arch, vm.pte) else 0;
    }
  }
}
