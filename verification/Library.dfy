/** The library as an object: its globals, the physical memory it edits, the kernel state it talks to,
    and the calls built on resolving and updating. */
module Library {
  import opened Paging
  import opened Radix
  import opened Tree
  import opened EntryBits
  import opened Runs
  import opened Resolve
  import opened Update
  import opened Kernel
  import opened Agreement
  import opened Interchange
  import CachedRoot
  import Tlb

  /** An address space of the kernel. */
  type Mm = nat

  datatype Impl = KernelImpl | UserPread | User

  // ---- Updates of one page-table entry -----------------------------------------------------------

  lemma UserPteSlot(arch: Arch, d: Definition, m: Memory, root: nat, a: nat)
    ensures var v := Pte(UserWalker(arch, d), m, Even(root), a);
            SlotOf(Behind(arch, d, m, root, a), PTE) == if v.Some? then Some(v.value.slot) else None
  {
    BehindPte(arch, d, m, root, a);
    SlotOfPte(Behind(arch, d, m, root, a));
  }

  /** Where an update goes that selects the page-table entry only. */
  function PteWritten(w: Walker, m: Memory, root: nat, a: nat, x: Word): Memory {
    var v := Pte(w, m, root, a);
    if v.Some? then Write(m, v.value.slot, x) else m
  }

  lemma UserPteUpdate(arch: Arch, d: Definition, m: Memory, root: nat, a: nat, vm: Entry)
    requires vm.valid == {PTE}
    ensures UpdatedMemory(arch, d, m, root, a, vm) == PteWritten(UserWalker(arch, d), m, Even(root), a, vm.pte)
  {
    UserPteSlot(arch, d, m, root, a);
  }

  lemma KernelPteSlot(d: Definition, m: Memory, root: nat, a: nat)
    requires root != 0
    ensures var v := Pte(KernelWalker(d), m, root, a);
            var found := ResolvedVm(d, m, root, a);
            && (PTE in found.valid <==> v.Some?)
            && found.pte == if v.Some? then Some(v.value.slot) else None
  {
    LevelsAreRanked(d);
    PathPteLast(KernelRules(), m, root, a, LevelsOf(d));
    KeptPte(NO_VM, KernelPath(d, m, root, a));
  }

  lemma KernelPteUpdate(d: Definition, m: Memory, root: nat, a: nat, vm: Entry)
    requires root != 0 && vm.valid == {PTE}
    ensures KernelWrite(m, ResolvedVm(d, m, root, a), vm) == PteWritten(KernelWalker(d), m, root, a, vm.pte)
  {
    KernelPteSlot(d, m, root, a);
  }

  lemma KernelPteValue(d: Definition, m: Memory, root: nat, pid: int, a: nat)
    requires root != 0
    ensures var v := Pte(KernelWalker(d), m, root, a);
            var r := KernelResolved(d, m, root, pid, a);
            && (PTE in r.valid <==> v.Some?)
            && r.pte == if v.Some? then v.value.entry else {}
  {
    KernelPteSlot(d, m, root, a);
    var v := Pte(KernelWalker(d), m, root, a);
    if v.Some? {
      LevelsAreRanked(d);
      VisitShape(KernelRules(), m, root, a, LevelsOf(d), v.value);
    }
  }

  /** A level is valid exactly when its pointer is not NULL. */
  predicate Consistent(vm: Vm) {
    forall l :: l in vm.valid <==> vm.At(l).Some?
  }

  lemma {:induction false} KeepConsistent(vm: Vm, p: seq<Visit>)
    requires Consistent(vm)
    ensures Consistent(KeepAll(vm, p))
    decreases |p|
  {
    if p != [] {
      KeepConsistent(Keep(vm, p[0]), p[1..]);
    }
  }

  /** One guarded store of `update_vm`. */
  function KernelStore(m: Memory, found: Vm, vm: Entry, level: Level): Memory
    requires Consistent(found)
  {
    if level in found.valid && level in vm.valid then Write(m, found.At(level).value, vm.Get(level)) else m
  }

  lemma KernelStores(m: Memory, found: Vm, vm: Entry)
    requires Consistent(found)
    ensures var m1 := KernelStore(m, found, vm, PGD);
            var m2 := KernelStore(m1, found, vm, P4D);
            var m3 := KernelStore(m2, found, vm, PUD);
            var m4 := KernelStore(m3, found, vm, PMD);
            KernelStore(m4, found, vm, PTE) == KernelWrite(m, found, vm)
  {
    assert forall l :: l in found.valid <==> found.At(l).Some?;
    assert forall m', l :: KernelStore(m', found, vm, l) == WriteAt(m', found.At(l), vm, l);
  }

  /** Whether a definition has a level of its own. The page table is not asked for. */
  predicate Has(d: Definition, level: Level) {
    match level
    case PGD => d.hasPgd
    case P4D => d.hasP4d
    case PUD => d.hasPud
    case PMD => d.hasPmd
    case PTE => true
  }

  /** A guarded write of the library, in the slot it computes from the entries it resolved. */
  function LibraryWrite(arch: Arch, d: Definition, m: Memory, current: Entry, root: nat, a: nat, vm: Entry,
                        level: Level): Memory {
    if level in vm.valid && level in current.valid && Has(d, level)
    then Write(m, LibrarySlot(arch, d, current, root, a, level), vm.Get(level)) else m
  }

  /** A level that the definition folds is never written, whatever was resolved. */
  lemma FoldedLevelStays(arch: Arch, d: Definition, m: Memory, current: Entry, root: nat, a: nat, vm: Entry)
    ensures !d.hasPgd ==> LibraryWrite(arch, d, m, current, root, a, vm, PGD) == m
    ensures !d.hasP4d ==> LibraryWrite(arch, d, m, current, root, a, vm, P4D) == m
    ensures !d.hasPud ==> LibraryWrite(arch, d, m, current, root, a, vm, PUD) == m
    ensures !d.hasPmd ==> LibraryWrite(arch, d, m, current, root, a, vm, PMD) == m
  {
  }

  /** A reported level is one that the definition has. */
  lemma ReportedLevel(arch: Arch, d: Definition, m: Memory, root: nat, a: nat, level: Level)
    requires d.hasPgd && level in LevelsIn(Behind(arch, d, m, root, a))
    ensures Has(d, level)
  {
    BehindStart(arch, d, m, root, a);
    LevelsAreRanked(d);
    PathLevels(UserRules(arch, LeafLevel(d)), m, Even(root), a, LevelsOf(d), level);
  }

  lemma LibraryWriteIsLevel(arch: Arch, d: Definition, m0: Memory, m: Memory, root: nat, pid: int, a: nat,
                            vm: Entry, level: Level)
    requires d.hasPgd
    ensures LibraryWrite(arch, d, m, Resolved(arch, d, m0, root, pid, a), root, a, vm, level)
         == WriteLevel(m, Behind(arch, d, m0, root, a), vm, level)
  {
    SlotFromFields(arch, d, m0, root, pid, a, level);
    ResolvedValid(arch, d, m0, root, pid, a);
    if level in LevelsIn(Behind(arch, d, m0, root, a)) {
      ReportedLevel(arch, d, m0, root, a, level);
    }
  }

  lemma RunFirst(w: Walker, roots: Roots, m: Memory, ops: seq<Op>)
    requires ops != []
    ensures Run(w, roots, m, ops) ==
            Run(w, roots, EditPte(w, m, RootOf(roots, ops[0].pid), ops[0].address, ops[0].edit), ops[1..])
  {
  }

  // ---- The object -----------------------------------------------------------------------------------

  class Ptedit {
    /** The architecture and the paging layout. */
    const arch: Arch
    const def: Definition

    /** The address space of the calling process, the pages it maps, and the processor's root register
        while it runs. */
    const caller: Mm
    const mapped: set<nat>
    const ttbr0: nat

    /** Physical memory, the processes and their roots in the kernel, and the cached translations. */
    var mem: Memory
    var processes: map<int, Mm>
    var roots: map<Mm, nat>
    var tlb: Tlb.Cache

    /** The library's globals `ptedit_paging_root` and the selected implementation. */
    var pagingRoot: nat
    var impl: Impl

    /** `ptedit_init` selects the kernel implementation, and then a user-space one where pages have
        16 KiB; otherwise the stored root is still zero. */
    constructor (arch: Arch, def: Definition, caller: Mm, mapped: set<nat>, ttbr0: nat,
                 mem: Memory, processes: map<int, Mm>, roots: map<Mm, nat>, tlb: Tlb.Cache)
      ensures this.arch == arch && this.def == def && this.caller == caller && this.mapped == mapped
      ensures this.ttbr0 == ttbr0
      ensures this.mem == mem && this.processes == processes && this.roots == roots && this.tlb == tlb
      ensures impl == if arch.Arm? && def == ARM_16K then UserPread else KernelImpl
      ensures pagingRoot == if arch.Arm? && def == ARM_16K then GetPagingRoot(0) else 0
    {
      this.arch, this.def, this.caller, this.mapped, this.ttbr0 := arch, def, caller, mapped, ttbr0;
      this.mem, this.processes, this.roots, this.tlb := mem, processes, roots, tlb;
      pagingRoot, impl := 0, KernelImpl;
      new;
      if arch.Arm? && def == ARM_16K {
        UseImplementation(1);
      }
    }

    /** `get_mm`: the caller for pid 0, otherwise the process if there is one. */
    function GetMm(pid: int): Option<Mm>
      reads `processes
    {
      if pid == 0 then Some(caller) else if pid in processes then Some(processes[pid]) else None
    }

    function RootOfMm(mm: Mm): nat
      reads `roots
    {
      if mm in roots then roots[mm] else 0
    }

    /** The root reported without a process or a root: zero, as the request fails, but on aarch64 that of
        the processor. */
    function Fallback(): nat {
      if arch.X86? then 0 else Even(ttbr0)
    }

    /** `ptedit_get_paging_root`. */
    function GetPagingRoot(pid: int): nat
      reads `processes, `roots
    {
      var mm := GetMm(pid);
      if mm.Some? && RootOfMm(mm.value) != 0 then RootOfMm(mm.value) else Fallback()
    }

    /** The calls of the library are modelled for every paging definition; those of the kernel
        implementation for x86 with four levels. */
    predicate Supports()
      reads `impl
    {
      def.hasPgd && (impl == KernelImpl ==> arch.X86? && FourLevels(def))
    }

    /** The root a user-space walk starts from. */
    function UserRoot(pid: int): nat
      reads `processes, `roots, `pagingRoot
    {
      if pid == 0 then pagingRoot else GetPagingRoot(pid)
    }

    /** The walker of the selected implementation, and the root it starts from. */
    function CurrentWalker(): Walker
      reads `impl
    {
      if impl == KernelImpl then KernelWalker(def) else UserWalker(arch, def)
    }

    function WalkRoot(pid: int): nat
      reads `impl, `processes, `roots, `pagingRoot
    {
      if impl == KernelImpl then GetPagingRoot(pid) else Even(UserRoot(pid))
    }

    /** What resolving returns under the selected implementation. */
    function ResolveResult(address: nat, pid: int): Entry
      reads this
    {
      if impl != KernelImpl then Resolved(arch, def, mem, UserRoot(pid), pid, address)
      else if GetMm(pid).None? then Blank(pid, address)
      else KernelResolved(def, mem, RootOfMm(GetMm(pid).value), pid, address)
    }

    /** What an update leaves in memory under the selected implementation. */
    function UpdateResult(address: nat, pid: int, vm: Entry): Memory
      reads this
    {
      if impl != KernelImpl then UpdatedMemory(arch, def, mem, UserRoot(pid), address, vm)
      else if GetMm(pid).None? then mem
      else KernelWrite(mem, ResolvedVm(def, mem, RootOfMm(GetMm(pid).value), address), vm)
    }

    function Page(address: nat): nat {
      PageBase(LevelsOf(def), address)
    }

    /** The address spaces in which an invalidation for a process drops the page of an address. */
    function Flushed(pid: int, address: nat): set<nat>
      reads `processes
    {
      Tlb.FlushedSpaces(arch, GetMm(pid), caller, Page(address) in mapped)
    }

    /** The cache after the page of an address was invalidated for a process, as the machine of
        cached translations has it. */
    function Invalidated(pid: int, address: nat): Tlb.Cache
      reads this
    {
      Tlb.Drop(tlb, Flushed(pid, address), Page(address))
    }

    /** The roots as the machine of selections and root changes sees them. */
    function RootSystem(): CachedRoot.System
      reads `processes, `roots, `pagingRoot
    {
      CachedRoot.System(caller, processes, roots, pagingRoot, Fallback())
    }

    /** The machine reports the roots that the library sees, for every process. */
    lemma SameRoots(pid: int)
      ensures RootSystem().GetRoot(pid) == GetPagingRoot(pid) && RootSystem().UserRoot(pid) == UserRoot(pid)
    {
    }

    /** The caller is pid 0, whose user-space walks start at the stored root. Every other process has its own
        tables: what is resolved and what is written for it is resolved and written in the tables of that
        process, whatever is stored, under every implementation. */
    lemma OwnTables(pid: int, address: nat, vm: Entry)
      requires pid != 0 && pid in processes && processes[pid] in roots && roots[processes[pid]] != 0
      ensures var root := roots[processes[pid]];
              && ResolveResult(address, pid) == (if impl == KernelImpl then KernelResolved(def, mem, root, pid, address)
                                                 else Resolved(arch, def, mem, root, pid, address))
              && UpdateResult(address, pid, vm) == (if impl == KernelImpl
                                                    then KernelWrite(mem, ResolvedVm(def, mem, root, address), vm)
                                                    else UpdatedMemory(arch, def, mem, root, address, vm))
              && WalkRoot(pid) == if impl == KernelImpl then root else Even(root)
    {
    }

    /** For pid 0 a user-space implementation resolves and writes below the stored root. */
    lemma StoredTables(address: nat, vm: Entry)
      requires impl != KernelImpl
      ensures ResolveResult(address, 0) == Resolved(arch, def, mem, pagingRoot, 0, address)
      ensures UpdateResult(address, 0, vm) == UpdatedMemory(arch, def, mem, pagingRoot, address, vm)
      ensures WalkRoot(0) == Even(pagingRoot)
    {
    }

    /** The root that is reported for a process: its own, and without a process or a root zero on x86, and on
        aarch64 the root register without its lowest bit. */
    lemma ReportedRoot(pid: int)
      ensures pid != 0 && pid in processes && processes[pid] in roots && roots[processes[pid]] != 0 ==>
                GetPagingRoot(pid) == roots[processes[pid]]
      ensures caller in roots && roots[caller] != 0 ==> GetPagingRoot(0) == roots[caller]
      ensures pid != 0 && (pid !in processes || processes[pid] !in roots || roots[processes[pid]] == 0) ==>
                GetPagingRoot(pid) == if arch.X86? then 0 else ttbr0 / 2 * 2
      ensures caller !in roots || roots[caller] == 0 ==> GetPagingRoot(0) == if arch.X86? then 0 else ttbr0 / 2 * 2
    {
      EvenMeans(ttbr0);
    }

    /** The page of an address in the three paging definitions: bits 12 to 47, 14 to 57 and 12 to 38. */
    lemma PageMeans(address: nat)
      ensures def == X86_64 ==> Page(address) == address % 0x1_0000_0000_0000 - address % 4096
      ensures def == ARM_16K ==> Page(address) == address % 0x400_0000_0000_0000 - address % 16384
      ensures def == ARM_4K ==> Page(address) == address % 0x80_0000_0000 - address % 4096
    {
      X86Layout();
      Arm16KLayout();
      Arm4KLayout();
      if def == X86_64 || def == ARM_4K {
        PageBaseIsAddressBits(LevelsOf(def), 4096, address);
      } else if def == ARM_16K {
        PageBaseIsAddressBits(LevelsOf(def), 16384, address);
      }
    }

    /** `ptedit_use_implementation`; an unknown number is reported and ignored. */
    method UseImplementation(implementation: int)
      modifies `impl, `pagingRoot
      ensures impl == if implementation == 0 then KernelImpl else if implementation == 1 then UserPread
                      else if implementation == 2 then User else old(impl)
      ensures RootSystem() == CachedRoot.Do(old(RootSystem()), CachedRoot.Use(implementation))
    {
      if implementation == 0 {
        impl := KernelImpl;
      } else if implementation == 1 {
        impl := UserPread;
        pagingRoot := GetPagingRoot(0);
      } else if implementation == 2 {
        impl := User;
        pagingRoot := GetPagingRoot(0);
      }
    }

    /** `ptedit_set_paging_root`: it changes the kernel's root, not the stored one. */
    method SetPagingRoot(pid: int, root: nat)
      modifies `roots
      ensures RootSystem() == CachedRoot.Do(old(RootSystem()), CachedRoot.SetRoot(pid, root))
      ensures GetMm(pid).Some? && root != 0 ==> GetPagingRoot(pid) == root
      ensures GetMm(pid).Some? && root != 0 && pid != 0 && impl != KernelImpl ==> WalkRoot(pid) == Even(root)
      ensures forall mm: Mm :: GetMm(pid) != Some(mm) ==> RootOfMm(mm) == old(RootOfMm(mm))
      ensures UserRoot(0) == old(UserRoot(0))
    {
      var mm := GetMm(pid);
      if mm.Some? {
        roots := roots[mm.value := root];
      }
    }

    /** `ptedit_full_serializing_barrier` sets the caller's root to what it is. */
    method FullSerializingBarrier()
      modifies `roots
      ensures RootSystem() == CachedRoot.Do(old(RootSystem()), CachedRoot.Barrier)
    {
      SetPagingRoot(0, GetPagingRoot(0));
    }

    /** `ptedit_invalidate_tlb_pid`: a cached translation stays, as it is, unless it is one of this page,
        on x86 in the address space of this process, on aarch64 in that of a caller that maps it. */
    method InvalidateTlbPid(pid: int, address: nat)
      modifies `tlb
      ensures forall k :: k in tlb <==>
                && k in old(tlb)
                && !(k.1 == Page(address) &&
                     if arch.X86? then GetMm(pid) == Some(k.0) else k.0 == caller && k.1 in mapped)
      ensures forall k :: k in tlb ==> tlb[k] == old(tlb)[k]
      ensures tlb == old(Invalidated(pid, address))
    {
      if arch.X86? {
        var mm := GetMm(pid);
        if mm.None? {
          return;
        }
        tlb := tlb - {(mm.value, Page(address))};
      } else {
        if Page(address) !in mapped {
          return;
        }
        tlb := tlb - {(caller, Page(address))};
      }
    }

    /** `ptedit_resolve`: the function the implementation pointer names. */
    method Resolve(address: nat, pid: int) returns (vm: Entry)
      requires Supports()
      ensures vm == ResolveResult(address, pid)
    {
      if impl != KernelImpl {
        vm := ResolveUserExt(arch, def, mem, UserRoot(pid), pid, address);
      } else {
        var mm := GetMm(pid);
        var root := if mm.Some? then Some(RootOfMm(mm.value)) else None;
        var failed, found := ResolveVm(def, mem, root, address);
        vm := ToUser(mem, found, Blank(pid, address));
      }
    }

    /** `ptedit_update_user_ext`: re-resolve, write bottom-up, invalidate. */
    method UpdateUserExt(address: nat, pid: int, vm: Entry)
      requires Supports() && impl != KernelImpl
      modifies `mem, `tlb
      ensures mem == old(UpdateResult(address, pid, vm))
      ensures tlb == if old(WalkRoot(pid)) == 0 then old(tlb) else old(Invalidated(pid, address))
    {
      var current := Resolve(address, pid);
      var root := UserRoot(pid);
      if Even(root) == 0 {
        return;
      }
      ghost var m0 := mem;
      LibraryWriteIsLevel(arch, def, m0, m0, root, pid, address, vm, PTE);
      mem := LibraryWrite(arch, def, mem, current, root, address, vm, PTE);
      LibraryWriteIsLevel(arch, def, m0, mem, root, pid, address, vm, PMD);
      mem := LibraryWrite(arch, def, mem, current, root, address, vm, PMD);
      LibraryWriteIsLevel(arch, def, m0, mem, root, pid, address, vm, PUD);
      mem := LibraryWrite(arch, def, mem, current, root, address, vm, PUD);
      LibraryWriteIsLevel(arch, def, m0, mem, root, pid, address, vm, P4D);
      mem := LibraryWrite(arch, def, mem, current, root, address, vm, P4D);
      LibraryWriteIsLevel(arch, def, m0, mem, root, pid, address, vm, PGD);
      mem := LibraryWrite(arch, def, mem, current, root, address, vm, PGD);
      InvalidateTlbPid(pid, address);
    }

    /** `update_vm` in the kernel: re-resolve, write top-down, invalidate. */
    method UpdateVm(address: nat, pid: int, vm: Entry)
      requires Supports() && impl == KernelImpl
      modifies `mem, `tlb
      ensures mem == old(UpdateResult(address, pid, vm)) && tlb == old(Invalidated(pid, address))
    {
      var mm := GetMm(pid);
      if mm.None? {
        return;
      }
      var failed, found := ResolveVm(def, mem, Some(RootOfMm(mm.value)), address);
      KeepConsistent(NO_VM, KernelPath(def, mem, RootOfMm(mm.value), address));
      KernelStores(mem, found, vm);
      mem := KernelStore(mem, found, vm, PGD);
      mem := KernelStore(mem, found, vm, P4D);
      mem := KernelStore(mem, found, vm, PUD);
      mem := KernelStore(mem, found, vm, PMD);
      mem := KernelStore(mem, found, vm, PTE);
      InvalidateTlbPid(pid, address);
    }

    /** `ptedit_update`: the function the implementation pointer names. */
    method Update(address: nat, pid: int, vm: Entry)
      requires Supports()
      modifies `mem, `tlb
      ensures mem == old(UpdateResult(address, pid, vm)) && tlb == old(Invalidated(pid, address))
    {
      if impl == KernelImpl {
        UpdateVm(address, pid, vm);
      } else {
        UpdateUserExt(address, pid, vm);
        InvalidateTlbPid(pid, address);
      }
    }

    /** The page-table entry of an address under the selected implementation. */
    function PteOf(address: nat, pid: int): Option<Visit>
      reads this
    {
      Pte(CurrentWalker(), mem, WalkRoot(pid), address)
    }

    function PteWord(address: nat, pid: int): Word
      reads this
    {
      if PteOf(address, pid).Some? then PteOf(address, pid).value.entry else {}
    }

    /** Processes the kernel knows have a page-table root. */
    predicate HasRoot(pid: int)
      reads `impl, `processes, `roots
    {
      impl == KernelImpl && GetMm(pid).Some? ==> RootOfMm(GetMm(pid).value) != 0
    }

    lemma UserFindsPte(address: nat, pid: int)
      requires impl != KernelImpl
      ensures PTE in ResolveResult(address, pid).valid <==> PteOf(address, pid).Some?
      ensures ResolveResult(address, pid).pte == PteWord(address, pid)
    {
      var root := UserRoot(pid);
      assert CurrentWalker() == UserWalker(arch, def) && WalkRoot(pid) == Even(root);
      assert ResolveResult(address, pid) == Resolved(arch, def, mem, root, pid, address);
      ResolvedPte(arch, def, mem, root, pid, address);
    }

    lemma KernelFindsPte(address: nat, pid: int)
      requires impl == KernelImpl && arch.X86? && HasRoot(pid)
      ensures PTE in ResolveResult(address, pid).valid <==> PteOf(address, pid).Some?
      ensures ResolveResult(address, pid).pte == PteWord(address, pid)
    {
      if GetMm(pid).Some? {
        KernelPteValue(def, mem, RootOfMm(GetMm(pid).value), pid, address);
      }
    }

    lemma ResolveFindsPte(address: nat, pid: int)
      requires Supports() && HasRoot(pid)
      ensures PTE in ResolveResult(address, pid).valid <==> PteOf(address, pid).Some?
      ensures ResolveResult(address, pid).pte == PteWord(address, pid)
    {
      if impl == KernelImpl {
        KernelFindsPte(address, pid);
      } else {
        UserFindsPte(address, pid);
      }
    }

    /** Resolving, as far as the PTE-level calls use it. */
    method ResolvePte(address: nat, pid: int) returns (vm: Entry)
      requires Supports() && HasRoot(pid)
      ensures PTE in vm.valid <==> PteOf(address, pid).Some?
      ensures vm.pte == PteWord(address, pid)
    {
      vm := Resolve(address, pid);
      ResolveFindsPte(address, pid);
    }

    lemma UserWritesPte(address: nat, pid: int, vm: Entry)
      requires impl != KernelImpl && vm.valid == {PTE}
      ensures UpdateResult(address, pid, vm) == PteWritten(CurrentWalker(), mem, WalkRoot(pid), address, vm.pte)
    {
      var root := UserRoot(pid);
      assert CurrentWalker() == UserWalker(arch, def) && WalkRoot(pid) == Even(root);
      assert UpdateResult(address, pid, vm) == UpdatedMemory(arch, def, mem, root, address, vm);
      UserPteUpdate(arch, def, mem, root, address, vm);
    }

    lemma KernelWritesPte(address: nat, pid: int, vm: Entry)
      requires impl == KernelImpl && arch.X86? && HasRoot(pid) && vm.valid == {PTE}
      ensures UpdateResult(address, pid, vm) == PteWritten(CurrentWalker(), mem, WalkRoot(pid), address, vm.pte)
    {
      if GetMm(pid).Some? {
        KernelPteUpdate(def, mem, RootOfMm(GetMm(pid).value), address, vm);
      }
    }

    lemma UpdateWritesPte(address: nat, pid: int, vm: Entry)
      requires Supports() && HasRoot(pid) && vm.valid == {PTE}
      ensures UpdateResult(address, pid, vm) == PteWritten(CurrentWalker(), mem, WalkRoot(pid), address, vm.pte)
    {
      if impl == KernelImpl {
        KernelWritesPte(address, pid, vm);
      } else {
        UserWritesPte(address, pid, vm);
      }
    }

    /** The update the PTE-level calls end with. */
    method StorePte(address: nat, pid: int, vm: Entry)
      requires Supports() && HasRoot(pid) && vm.valid == {PTE}
      modifies `mem, `tlb
      ensures mem == old(PteWritten(CurrentWalker(), mem, WalkRoot(pid), address, vm.pte))
      ensures tlb == old(Invalidated(pid, address))
    {
      UpdateWritesPte(address, pid, vm);
      Update(address, pid, vm);
    }

    /** `ptedit_pte_set_bit`: exactly the edit of the page-table entry, or nothing. */
    method PteSetBit(address: nat, pid: int, bit: Bit)
      requires Supports() && HasRoot(pid)
      modifies `mem, `tlb
      ensures mem == old(EditPte(CurrentWalker(), mem, WalkRoot(pid), address, SetBit(bit)))
      ensures tlb == if old(PteOf(address, pid)).Some? then old(Invalidated(pid, address)) else old(tlb)
    {
      var vm := ResolvePte(address, pid);
      if PTE !in vm.valid {
        return;
      }
      StorePte(address, pid, vm.(pte := vm.pte + {bit}, valid := {PTE}));
    }

    /** `ptedit_pte_clear_bit`. */
    method PteClearBit(address: nat, pid: int, bit: Bit)
      requires Supports() && HasRoot(pid)
      modifies `mem, `tlb
      ensures mem == old(EditPte(CurrentWalker(), mem, WalkRoot(pid), address, ClearBit(bit)))
      ensures tlb == if old(PteOf(address, pid)).Some? then old(Invalidated(pid, address)) else old(tlb)
    {
      var vm := ResolvePte(address, pid);
      if PTE !in vm.valid {
        return;
      }
      StorePte(address, pid, vm.(pte := vm.pte - {bit}, valid := {PTE}));
    }

    /** `ptedit_pte_set_pfn`. */
    method PteSetPfn(address: nat, pid: int, pfn: Word)
      requires Supports() && HasRoot(pid)
      modifies `mem, `tlb
      ensures mem == old(EditPte(CurrentWalker(), mem, WalkRoot(pid), address, SetFrame(arch, pfn)))
      ensures tlb == if old(PteOf(address, pid)).Some? then old(Invalidated(pid, address)) else old(tlb)
    {
      var vm := ResolvePte(address, pid);
      if PTE !in vm.valid {
        return;
      }
      StorePte(address, pid, vm.(pte := SetPfn(arch, vm.pte, pfn), valid := {PTE}));
    }

    /** `ptedit_pte_get_bit`: not set without a page-table entry, which it does not test for. */
    method PteGetBit(address: nat, pid: int, bit: Bit) returns (isSet: bool)
      requires Supports() && HasRoot(pid)
      ensures isSet <==> PteOf(address, pid).Some? && bit in PteOf(address, pid).value.entry
    {
      var vm := ResolvePte(address, pid);
      isSet := bit in vm.pte;
    }

    /** `ptedit_pte_get_pfn`: zero without a page-table entry. */
    method PteGetPfn(address: nat, pid: int) returns (pfn: Word)
      requires Supports() && HasRoot(pid)
      ensures pfn == if PteOf(address, pid).Some? then GetPfn(arch, PteOf(address, pid).value.entry) else {}
    {
      var vm := ResolvePte(address, pid);
      if PTE !in vm.valid {
        return {};
      }
      return GetPfn(arch, vm.pte);
    }

    // ---- Whole runs, and the steps of one call -------------------------------------------------

    /** The roots that the walks of some processes start from. */
    function WalkRoots(pids: set<int>): Roots
      reads `impl, `processes, `roots, `pagingRoot
    {
      map pid | pid in pids :: WalkRoot(pid)
    }

    function PidsOf(ops: seq<Op>): set<int> {
      set op | op in ops :: op.pid
    }

    /** One call does what the four steps of an update do in the machine of cached translations. */
    lemma CallIsFourSteps(op: Op, pl: Tlb.Platform, s: Tlb.State, tid: nat)
      requires pl.forest.walker == CurrentWalker() && s.mem == mem && s.tlb == tlb && tid in s.threads
      requires s.threads[tid] == Tlb.Thread(JobOf(op), Tlb.Started)
      ensures var s' := Tlb.Run(pl, s, Tlb.Advances(tid, 4));
              && s'.mem == EditPte(CurrentWalker(), mem, WalkRoot(op.pid), op.address, op.edit)
              && s'.tlb == if PteOf(op.address, op.pid).Some? then Invalidated(op.pid, op.address) else tlb
    {
      Tlb.FourSteps(pl, s, tid);
    }

    function JobOf(op: Op): Tlb.Job
      reads `impl, `processes, `roots, `pagingRoot
    {
      Tlb.Job(WalkRoot(op.pid), op.address, op.edit, Flushed(op.pid, op.address))
    }

    /** One call of the PTE-level interface. */
    method Call(op: Op)
      requires Supports() && Callable(op)
      modifies `mem, `tlb
      ensures mem == old(EditPte(CurrentWalker(), mem, WalkRoot(op.pid), op.address, op.edit))
      ensures tlb == if old(PteOf(op.address, op.pid)).Some? then old(Invalidated(op.pid, op.address)) else old(tlb)
    {
      match op.edit
      case SetBit(bit) => PteSetBit(op.address, op.pid, bit);
      case ClearBit(bit) => PteClearBit(op.address, op.pid, bit);
      case SetFrame(_, pfn) => PteSetPfn(op.address, op.pid, pfn);
    }

    predicate Callable(op: Op)
      reads `impl, `processes, `roots
    {
      HasRoot(op.pid) && (op.edit.SetFrame? ==> op.edit.arch == arch)
    }

    /** The first call of a sequence. */
    method CallFirst(ops: seq<Op>, ghost w: Walker, ghost rs: Roots, ghost jobs: seq<Tlb.Job>)
      requires Supports() && ops != [] && Callable(ops[0]) && jobs != [] && jobs[0] == JobOf(ops[0])
      requires w == CurrentWalker() && RootOf(rs, ops[0].pid) == WalkRoot(ops[0].pid)
      modifies `mem, `tlb
      ensures Run(w, rs, mem, ops[1..]) == Run(w, rs, old(mem), ops)
      ensures Tlb.OneByOne(w, mem, tlb, jobs[1..]) == Tlb.OneByOne(w, old(mem), old(tlb), jobs)
    {
      RunFirst(w, rs, mem, ops);
      Call(ops[0]);
    }

    /** Operations that can be called, with the roots and the updates of the runs they are. */
    ghost predicate Prepared(ops: seq<Op>, rs: Roots, jobs: seq<Tlb.Job>)
      reads `impl, `processes, `roots, `pagingRoot
    {
      && |jobs| == |ops|
      && forall i :: 0 <= i < |ops| ==>
                       && Callable(ops[i])
                       && RootOf(rs, ops[i].pid) == WalkRoot(ops[i].pid)
                       && jobs[i] == JobOf(ops[i])
    }

    lemma PreparedNext(ops: seq<Op>, rs: Roots, jobs: seq<Tlb.Job>)
      requires Prepared(ops, rs, jobs) && ops != []
      ensures Callable(ops[0]) && RootOf(rs, ops[0].pid) == WalkRoot(ops[0].pid) && jobs != []
      ensures jobs[0] == JobOf(ops[0])
      ensures Prepared(ops[1..], rs, jobs[1..])
    {
    }

    /** The calls of a sequence, one by one. */
    method CallEach(ops: seq<Op>, ghost w: Walker, ghost rs: Roots, ghost jobs: seq<Tlb.Job>)
      requires Supports() && w == CurrentWalker() && Prepared(ops, rs, jobs)
      modifies `mem, `tlb
      ensures mem == Run(w, rs, old(mem), ops)
      ensures (mem, tlb) == Tlb.OneByOne(w, old(mem), old(tlb), jobs)
      decreases |ops|
    {
      if ops != [] {
        PreparedNext(ops, rs, jobs);
        CallFirst(ops, w, rs, jobs);
        CallEach(ops[1..], w, rs, jobs[1..]);
      }
    }

    function JobsOf(ops: seq<Op>): (jobs: seq<Tlb.Job>)
      reads `impl, `processes, `roots, `pagingRoot
      ensures |jobs| == |ops| && forall i :: 0 <= i < |ops| ==> jobs[i] == JobOf(ops[i])
    {
      if ops == [] then [] else [JobOf(ops[0])] + JobsOf(ops[1..])
    }

    /** Any sequence of calls leaves the memory of the run that the refinement theorems speak of, and memory
        and cache of the updates that the coherence theorems speak of. */
    method CallAll(ops: seq<Op>)
      requires Supports() && forall op :: op in ops ==> Callable(op)
      modifies `mem, `tlb
      ensures mem == old(Run(CurrentWalker(), WalkRoots(PidsOf(ops)), mem, ops))
      ensures (mem, tlb) == old(Tlb.OneByOne(CurrentWalker(), mem, tlb, JobsOf(ops)))
    {
      CallEach(ops, CurrentWalker(), WalkRoots(PidsOf(ops)), JobsOf(ops));
    }

    /** So from a coherent cache no translation is stale after any sequence of calls that invalidate where
        they write. */
    lemma CallsAreCoherent(ops: seq<Op>, pl: Tlb.Platform, k: Tlb.Key)
      requires pl.forest.walker == CurrentWalker() && Tlb.Coherent(pl, Tlb.Resting(mem, tlb))
      requires forall op :: op in ops ==> Tlb.FlushesWell(pl, JobOf(op))
      ensures var (m', tlb') := Tlb.OneByOne(CurrentWalker(), mem, tlb, JobsOf(ops));
              && Tlb.Coherent(pl, Tlb.Resting(m', tlb'))
              && (k in tlb' ==> k.0 in pl.spaces && !Tlb.Stale(pl, Tlb.Resting(m', tlb'), k))
    {
      var (m', tlb') := Tlb.OneByOne(CurrentWalker(), mem, tlb, JobsOf(ops));
      Tlb.OneByOneIsCoherent(pl, mem, tlb, JobsOf(ops));
      if k in tlb' {
        Tlb.NothingStaleAtRest(pl, Tlb.Resting(m', tlb'), [], k);
      }
    }

    /** An update with any mask, from a coherent cache: its page is not cached any more where it was
        invalidated, and a cached translation is stale only if its walk reads a word that changed. */
    lemma UpdateIsLocal(pl: Tlb.Platform, address: nat, pid: int, vm: Entry, k: Tlb.Key)
      requires Tlb.Coherent(pl, Tlb.Resting(mem, tlb)) && k in Invalidated(pid, address)
      ensures k.0 in pl.spaces && !(k.0 in Flushed(pid, address) && k.1 == Page(address))
      ensures var m' := UpdateResult(address, pid, vm);
              Tlb.Stale(pl, Tlb.Resting(m', Invalidated(pid, address)), k) ==>
                exists v :: v in Tlb.HardwareWalk(pl, mem, k) && Read(m', v.slot) != Read(mem, v.slot)
    {
      var m' := UpdateResult(address, pid, vm);
      Tlb.AnyUpdateIsLocal(pl, Tlb.Resting(mem, tlb), m', Flushed(pid, address), Page(address), k);
    }
  }
}
