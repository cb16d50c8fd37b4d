/** The kernel module's calls, each under the semaphore of the address space it works on. */
module KernelModule {
  import opened Words
  import opened Paging
  import opened Walk
  import opened Unrolled
  import opened Wrappers
  import opened Kernel

  /** `vm_t`: the slots a kernel walk found, absent where the source stores NULL, and the levels marked valid. */
  datatype Vm = Vm(pgd: Option<nat>, p4d: Option<nat>, pud: Option<nat>, pmd: Option<nat>, pte: Option<nat>,
      valid: set<Level>) {
    function At(l: Level): Option<nat> {
      match l
      case PGD => pgd
      case P4D => p4d
      case PUD => pud
      case PMD => pmd
      case PTE => pte
    }
  }

  const NOTHING := Vm(None, None, None, None, None, {})

  /** `ptedit_entry_t` as it crosses the device. */
  datatype Request = Request(pid: nat, vaddr: nat, entry: Entry)

  /** A walk's result holds exactly the slots that the kernel accepts. */
  ghost predicate Found(vm: Vm, m: Memory, d: Definition, k: Macros, root: nat, addr: nat) {
    forall l :: (l in vm.valid <==> KernelStep(m, d, k, root, addr, l).Some?)
                && vm.At(l) == match KernelStep(m, d, k, root, addr, l) case Some(s) => Some(s.slot) case None => None
  }

  /** A walk's result with one more level. */
  function WithSlot(vm: Vm, l: Level, slot: nat): Vm {
    match l
    case PGD => vm.(pgd := Some(slot), valid := vm.valid + {PGD})
    case P4D => vm.(p4d := Some(slot), valid := vm.valid + {P4D})
    case PUD => vm.(pud := Some(slot), valid := vm.valid + {PUD})
    case PMD => vm.(pmd := Some(slot), valid := vm.valid + {PMD})
    case PTE => vm.(pte := Some(slot), valid := vm.valid + {PTE})
  }

  /** The walk has come down to the accepted entry `at` of level `l`. */
  ghost predicate Descended(vm: Vm, at: Step, l: Level, m: Memory, d: Definition, k: Macros, root: nat, addr: nat) {
    && KernelStep(m, d, k, root, addr, l) == Some(at)
    && forall l' :: (l' in vm.valid <==> Rank(l') <= Rank(l))
                    && vm.At(l') == if Rank(l') > Rank(l) then None else SlotFound(m, d, k, root, addr, l')
  }

  function SlotFound(m: Memory, d: Definition, k: Macros, root: nat, addr: nat, l: Level): Option<nat> {
    match KernelStep(m, d, k, root, addr, l) case Some(s) => Some(s.slot) case None => None
  }

  lemma {:induction false} WithSlotAt(vm: Vm, l: Level, slot: nat)
    ensures forall l' :: WithSlot(vm, l, slot).At(l') == if l' == l then Some(slot) else vm.At(l')
    ensures WithSlot(vm, l, slot).valid == vm.valid + {l}
  {
  }

  lemma {:induction false} Descend(vm: Vm, above: Step, l: Level, slot: nat, w: Word, m: Memory, d: Definition,
      k: Macros, root: nat, addr: nat)
    requires l != PGD && Descended(vm, above, Above(l), m, d, k, root, addr)
    requires slot == KernelSlot(d, above, addr, l) && w == m[slot]
    ensures Accepts(k, l, w, above.word) ==> Descended(WithSlot(vm, l, slot), Step(l, slot, w), l, m, d, k, root, addr)
    ensures !Accepts(k, l, w, above.word) ==> Found(vm, m, d, k, root, addr)
  {
    hide KernelSlot, Vm.At, Accepts, WithSlot;
    RankAbove(l);
    WithSlotAt(vm, l, slot);
    forall l' ensures Rank(l') == Rank(l) <==> l' == l {
      RankIsInjective(l, l');
    }
    if Accepts(k, l, w, above.word) {
      assert KernelStep(m, d, k, root, addr, l) == Some(Step(l, slot, w));
    } else {
      StoppedAbove(vm, above, l, m, d, k, root, addr);
    }
  }

  lemma {:induction false} StoppedAbove(vm: Vm, above: Step, l: Level, m: Memory, d: Definition, k: Macros, root: nat,
      addr: nat)
    requires l != PGD && Descended(vm, above, Above(l), m, d, k, root, addr) && KernelStep(m, d, k, root, addr, l).None?
    ensures Found(vm, m, d, k, root, addr)
  {
    hide Vm.At, KernelStep, Rank;
    RankAbove(l);
    forall l' ensures KernelStep(m, d, k, root, addr, l').Some? <==> Rank(l') <= Rank(Above(l)) {
      if Rank(l') <= Rank(Above(l)) {
        KernelValidIsPrefix(m, d, k, root, addr, Above(l), l');
      } else if KernelStep(m, d, k, root, addr, l').Some? {
        KernelValidIsPrefix(m, d, k, root, addr, l', l);
      }
    }
  }

  lemma {:induction false} DescendedToPte(vm: Vm, at: Step, m: Memory, d: Definition, k: Macros, root: nat, addr: nat)
    requires Descended(vm, at, PTE, m, d, k, root, addr)
    ensures Found(vm, m, d, k, root, addr) && PTE in vm.valid
  {
    hide Vm.At, KernelStep;
    forall l ensures KernelStep(m, d, k, root, addr, l).Some? {
      KernelValidIsPrefix(m, d, k, root, addr, PTE, l);
    }
  }

  lemma {:induction false} NothingFound(m: Memory, d: Definition, k: Macros, root: nat, addr: nat)
    requires KernelStep(m, d, k, root, addr, PGD).None?
    ensures Found(NOTHING, m, d, k, root, addr)
  {
    hide KernelStep;
    forall l ensures KernelStep(m, d, k, root, addr, l).None? {
      if KernelStep(m, d, k, root, addr, l).Some? {
        KernelValidIsPrefix(m, d, k, root, addr, l, PGD);
      }
    }
  }

  lemma {:induction false} DescendedToPgd(slot: nat, w: Word, m: Memory, d: Definition, k: Macros, root: nat, addr: nat)
    requires slot == Slot(root, d.Index(addr, PGD)) && w == m[slot]
    ensures Accepts(k, PGD, w, 0) ==>
        Descended(WithSlot(NOTHING, PGD, slot), Step(PGD, slot, w), PGD, m, d, k, root, addr)
    ensures !Accepts(k, PGD, w, 0) ==> Found(NOTHING, m, d, k, root, addr)
  {
    hide Slot, Accepts;
    if !Accepts(k, PGD, w, 0) {
      NothingFound(m, d, k, root, addr);
    }
  }

  lemma {:induction false} FoundValidExactly(vm: Vm, m: Memory, d: Definition, k: Macros, root: nat, addr: nat)
    requires Found(vm, m, d, k, root, addr)
    ensures ValidExactly(vm.valid, m, d, k, root, addr)
  {
    hide KernelStep, ValidExactly;
    KernelValidExactly(m, d, k, root, addr, vm.valid);
  }

  class Device {
    const d: Definition
    const k: Macros
    var mem: Memory
    /** `get_mm`: the address space of a pid; 0 is the caller. */
    var mms: map<nat, nat>
    /** The physical address of each address space's root table. */
    var pgds: map<nat, nat>
    /** The semaphore holds of the calling thread, by address space. */
    var readHolds: multiset<nat>
    var writeHolds: multiset<nat>
    var mmIsLocked: bool
    /** The cached walks of the current address space, by page. */
    var tlb: map<nat, Entry>

    constructor (d: Definition, k: Macros, mem: Memory, mms: map<nat, nat>, pgds: map<nat, nat>)
      requires forall pid :: pid in mms ==> mms[pid] in pgds
      ensures Valid() && this.d == d && this.k == k && this.mem == mem && this.mms == mms && this.pgds == pgds
      ensures readHolds == multiset{} && writeHolds == multiset{} && !mmIsLocked && tlb == map[]
    {
      this.d, this.k, this.mem, this.mms, this.pgds := d, k, mem, mms, pgds;
      readHolds, writeHolds, mmIsLocked, tlb := multiset{}, multiset{}, false, map[];
    }

    ghost predicate Valid()
      reads this`mms, this`pgds
    {
      forall pid :: pid in mms ==> mms[pid] in pgds
    }

    /** A thread may read an address space's tables under either hold, and store to them under the write hold. */
    predicate MayRead(mm: nat)
      reads this`readHolds, this`writeHolds, this`mmIsLocked
    {
      mmIsLocked || mm in readHolds || mm in writeHolds
    }

    predicate MayWrite(mm: nat)
      reads this`writeHolds, this`mmIsLocked
    {
      mmIsLocked || mm in writeHolds
    }

    method DownRead(mm: nat)
      modifies this`readHolds
      ensures readHolds == old(readHolds) + multiset{mm}
    {
      readHolds := readHolds + multiset{mm};
    }

    method UpRead(mm: nat)
      requires mm in readHolds
      modifies this`readHolds
      ensures readHolds == old(readHolds) - multiset{mm}
    {
      readHolds := readHolds - multiset{mm};
    }

    method DownWrite(mm: nat)
      modifies this`writeHolds
      ensures writeHolds == old(writeHolds) + multiset{mm}
    {
      writeHolds := writeHolds + multiset{mm};
    }

    method UpWrite(mm: nat)
      requires mm in writeHolds
      modifies this`writeHolds
      ensures writeHolds == old(writeHolds) - multiset{mm}
    {
      writeHolds := writeHolds - multiset{mm};
    }

    method ReadEntry(mm: nat, slot: nat) returns (w: Word)
      requires MayRead(mm)
      ensures w == mem[slot]
    {
      w := mem[slot];
    }

    method WriteEntry(mm: nat, slot: nat, w: Word)
      requires MayWrite(mm)
      modifies this`mem
      ensures mem == Put(old(mem), slot, w)
    {
      mem := Put(mem, slot, w);
    }

    /** The walk of `resolve_vm` between taking and releasing the semaphore; `ret` is its error flag. */
    method WalkTables(addr: nat, mm: nat) returns (entry: Vm, ret: int)
      requires mm in pgds && MayRead(mm)
      ensures Found(entry, mem, d, k, pgds[mm], addr)
      ensures ret == if PTE in entry.valid then 0 else 1
    {
      hide Slot, KernelSlot, KernelStep, Found, Descended;
      var root := pgds[mm];
      entry, ret := NOTHING, 1;

      var pgd := Slot(root, d.Index(addr, PGD));
      var pgdEntry := ReadEntry(mm, pgd);
      DescendedToPgd(pgd, pgdEntry, mem, d, k, root, addr);
      if k.none(PGD, pgdEntry) || k.bad(PGD, pgdEntry) {
        return;
      }
      entry := entry.(pgd := Some(pgd), valid := entry.valid + {PGD});
      var above := Step(PGD, pgd, pgdEntry);

      var p4d := KernelSlot(d, above, addr, P4D);
      var p4dEntry := ReadEntry(mm, p4d);
      Descend(entry, above, P4D, p4d, p4dEntry, mem, d, k, root, addr);
      if k.none(P4D, p4dEntry) || k.bad(P4D, p4dEntry) {
        return;
      }
      entry := entry.(p4d := Some(p4d), valid := entry.valid + {P4D});
      above := Step(P4D, p4d, p4dEntry);

      var pud := KernelSlot(d, above, addr, PUD);
      var pudEntry := ReadEntry(mm, pud);
      Descend(entry, above, PUD, pud, pudEntry, mem, d, k, root, addr);
      if k.none(PUD, pudEntry) {
        return;
      }
      entry := entry.(pud := Some(pud), valid := entry.valid + {PUD});
      above := Step(PUD, pud, pudEntry);

      var pmd := KernelSlot(d, above, addr, PMD);
      var pmdEntry := ReadEntry(mm, pmd);
      Descend(entry, above, PMD, pmd, pmdEntry, mem, d, k, root, addr);
      if k.none(PMD, pmdEntry) || k.large(PUD, pudEntry) {
        return;
      }
      entry := entry.(pmd := Some(pmd), valid := entry.valid + {PMD});
      above := Step(PMD, pmd, pmdEntry);

      var pte := KernelSlot(d, above, addr, PTE);
      Descend(entry, above, PTE, pte, mem[pte], mem, d, k, root, addr);
      if k.large(PMD, pmdEntry) {
        return;
      }
      entry, ret := entry.(pte := Some(pte), valid := entry.valid + {PTE}), 0;
      DescendedToPte(entry, Step(PTE, pte, mem[pte]), mem, d, k, root, addr);
    }

    /** `resolve_vm`: an unknown pid finds nothing and takes no semaphore. */
    method ResolveVm(addr: nat, pid: nat, lock: bool) returns (entry: Vm, ret: int)
      requires Valid() && (pid in mms && !lock ==> MayRead(mms[pid]))
      modifies this`readHolds
      ensures readHolds == old(readHolds)
      ensures pid !in mms ==> entry == NOTHING && ret == 1
      ensures pid in mms ==> Found(entry, mem, d, k, pgds[mms[pid]], addr) && ret == if PTE in entry.valid then 0 else 1
      ensures pid in mms ==> ValidExactly(entry.valid, mem, d, k, pgds[mms[pid]], addr)
    {
      hide Found, ValidExactly;
      entry, ret := NOTHING, 1;
      if pid !in mms {
        return;
      }
      var mm := mms[pid];
      if lock {
        DownRead(mm);
      }
      entry, ret := WalkTables(addr, mm);
      FoundValidExactly(entry, mem, d, k, pgds[mm], addr);
      if lock {
        UpRead(mm);
      }
      assert readHolds == old(readHolds);
    }

    /** One guarded store of `update_vm`. */
    method StoreIf(found: Vm, entry: Entry, l: Level, mm: nat, ghost m: Memory, ghost root: nat, ghost addr: nat)
      requires MayWrite(mm) && Found(found, m, d, k, root, addr)
      requires mem == if l == PGD then m else KernelStored(m, d, k, root, addr, entry, Above(l))
      modifies this`mem
      ensures mem == KernelStored(m, d, k, root, addr, entry, l)
    {
      hide KernelStep, Vm.At, Entry.At, Put;
      if l in found.valid && l in entry.valid {
        WriteEntry(mm, found.At(l).value, entry.At(l));
      }
    }

    /** The five guarded stores of `update_vm`, top-down, all through the slots found before them. */
    method StoreLevels(found: Vm, entry: Entry, mm: nat, ghost root: nat, ghost addr: nat)
      requires MayWrite(mm) && Found(found, mem, d, k, root, addr)
      modifies this`mem
      ensures mem == KernelUpdated(old(mem), d, k, root, addr, entry)
    {
      hide KernelStored, Found;
      ghost var m := mem;
      StoreIf(found, entry, PGD, mm, m, root, addr);
      StoreIf(found, entry, P4D, mm, m, root, addr);
      StoreIf(found, entry, PUD, mm, m, root, addr);
      StoreIf(found, entry, PMD, mm, m, root, addr);
      StoreIf(found, entry, PTE, mm, m, root, addr);
    }

    /** `update_vm` between taking and releasing the semaphore. */
    method Rewrite(request: Request, mm: nat)
      requires Valid() && request.pid in mms && mm == mms[request.pid] && MayWrite(mm)
      modifies this`mem, this`tlb, this`readHolds
      ensures readHolds == old(readHolds)
      ensures mem == KernelUpdated(old(mem), d, k, pgds[mm], request.vaddr, request.entry)
      ensures tlb == old(tlb) - {d.Page(request.vaddr)}
    {
      hide KernelUpdated, Found, Definition.Page;
      var found, _ := ResolveVm(request.vaddr, request.pid, false);
      StoreLevels(found, request.entry, mm, pgds[mm], request.vaddr);
      tlb := tlb - {d.Page(request.vaddr)};
    }

    /** `update_vm`: walks and stores under the write hold. */
    method UpdateVm(request: Request, lock: bool) returns (ret: int)
      requires Valid() && (!lock ==> mmIsLocked)
      modifies this`mem, this`tlb, this`readHolds, this`writeHolds
      ensures readHolds == old(readHolds) && writeHolds == old(writeHolds)
      ensures request.pid !in mms ==> mem == old(mem) && tlb == old(tlb) && ret == 1
      ensures request.pid in mms ==>
                && mem == KernelUpdated(old(mem), d, k, pgds[mms[request.pid]], request.vaddr, request.entry)
                && tlb == old(tlb) - {d.Page(request.vaddr)} && ret == 0
    {
      hide KernelUpdated, Definition.Page;
      if request.pid !in mms {
        return 1;
      }
      var mm := mms[request.pid];
      if lock {
        DownWrite(mm);
      }
      Rewrite(request, mm);
      if lock {
        UpWrite(mm);
      }
      assert writeHolds == old(writeHolds);
      return 0;
    }

    /** One line of `vm_to_user`. */
    method CopyField(user: Entry, l: Level, slot: Option<nat>) returns (r: Entry)
      ensures r.valid == user.valid
      ensures forall l' :: r.At(l') == if l' == l && slot.Some? then mem[slot.value] else user.At(l')
    {
      hide Entry.At, WithField;
      if slot.None? {
        return user;
      }
      r := WithField(user, l, mem[slot.value]).(valid := user.valid);
      forall l' ensures r.At(l') == if l' == l then mem[slot.value] else user.At(l') {
        FieldAssigned(user, l, mem[slot.value], user.valid, l');
      }
    }

    /** `vm_to_user`: reads through the slots, after the semaphore has been released; a NULL slot leaves the field. */
    method VmToUser(user: Entry, vm: Vm) returns (r: Entry)
      ensures r.valid == vm.valid
      ensures forall l :: r.At(l) == match vm.At(l) case Some(slot) => mem[slot] case None => user.At(l)
    {
      hide Entry.At;
      r := CopyField(user, P4D, vm.p4d);
      r := CopyField(r, PGD, vm.pgd);
      r := CopyField(r, PMD, vm.pmd);
      r := CopyField(r, PUD, vm.pud);
      r := CopyField(r, PTE, vm.pte);
      ValidIsNoField(r, vm.valid);
      r := r.(valid := vm.valid);
    }

    /** The RESOLVE call. */
    method VmResolve(request: Request) returns (answer: Request)
      requires Valid()
      modifies this`readHolds
      ensures readHolds == old(readHolds)
      ensures answer == request.(entry := answer.entry)
      ensures request.pid !in mms ==> answer.entry == request.entry.(valid := {})
      ensures request.pid in mms ==>
                forall l :: var s := KernelStep(mem, d, k, pgds[mms[request.pid]], request.vaddr, l);
                            && (l in answer.entry.valid <==> s.Some?)
                            && answer.entry.At(l) == if s.Some? then s.value.word else request.entry.At(l)
      ensures request.pid in mms ==>
                ValidExactly(answer.entry.valid, mem, d, k, pgds[mms[request.pid]], request.vaddr)
    {
      hide KernelStep, Vm.At, Entry.At, ValidExactly;
      var vm, _ := ResolveVm(request.vaddr, request.pid, !mmIsLocked);
      var entry := VmToUser(request.entry, vm);
      if request.pid !in mms {
        NothingHasNoSlots();
        ValidIsNoField(request.entry, {});
        SameEntry(entry, request.entry.(valid := {}));
      }
      answer := request.(entry := entry);
    }

    /** The UPDATE call; its result is discarded. */
    method VmUpdate(request: Request)
      requires Valid()
      modifies this`mem, this`tlb, this`readHolds, this`writeHolds
      ensures readHolds == old(readHolds) && writeHolds == old(writeHolds)
      ensures mem == if request.pid in mms then KernelUpdated(old(mem), d, k, pgds[mms[request.pid]], request.vaddr,
          request.entry) else old(mem)
      ensures tlb == if request.pid in mms then old(tlb) - {d.Page(request.vaddr)} else old(tlb)
    {
      hide KernelUpdated, Definition.Page;
      var _ := UpdateVm(request, !mmIsLocked);
    }

    /** The GET_ROOT call on x86; `root` is unchanged for an unknown pid. */
    method GetRoot(pid: nat, root: nat) returns (answer: nat, ret: int)
      requires Valid()
      modifies this`readHolds
      ensures readHolds == old(readHolds)
      ensures pid in mms ==> answer == pgds[mms[pid]] && ret == 0
      ensures pid !in mms ==> answer == root && ret == 1
    {
      if pid !in mms {
        return root, 1;
      }
      var mm := mms[pid];
      if !mmIsLocked {
        DownRead(mm);
      }
      answer, ret := pgds[mm], 0;
      if !mmIsLocked {
        UpRead(mm);
      }
      assert readHolds == old(readHolds);
    }

    /** The SET_ROOT call. */
    method SetRoot(pid: nat, root: nat) returns (ret: int)
      requires Valid()
      modifies this`pgds, this`writeHolds
      ensures Valid() && writeHolds == old(writeHolds)
      ensures pid in mms ==> pgds == old(pgds)[mms[pid] := root] && ret == 0
      ensures pid !in mms ==> pgds == old(pgds) && ret == 1
    {
      if pid !in mms {
        return 1;
      }
      var mm := mms[pid];
      if !mmIsLocked {
        DownWrite(mm);
      }
      pgds := pgds[mm := root];
      if !mmIsLocked {
        UpWrite(mm);
      }
      assert writeHolds == old(writeHolds);
      return 0;
    }
  }

  lemma {:induction false} NothingHasNoSlots()
    ensures forall l :: NOTHING.At(l) == None
  {
  }
}
