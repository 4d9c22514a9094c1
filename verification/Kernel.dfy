/** The kernel module's walk on x86 with a folded P4D. Linux helpers are modelled by stated
    assumptions: `none` is zero, `bad` and `leaf` are tests of flag bits, tables are named by bits 12
    to 51, and the helpers of the folded level always pass. */
module Kernel {
  import opened Paging
  import opened Radix
  import opened Tree
  import opened Resolve

  /** The structure `vm_t`: a pointer into a table per level, or NULL, and the valid mask. */
  datatype Vm = Vm(pgd: Option<nat>, p4d: Option<nat>, pud: Option<nat>, pmd: Option<nat>, pte: Option<nat>,
                   valid: set<Level>) {

    function At(level: Level): Option<nat> {
      match level
      case PGD => pgd
      case P4D => p4d
      case PUD => pud
      case PMD => pmd
      case PTE => pte
    }
  }

  const NO_VM := Vm(None, None, None, None, None, {})

  /** Everything the kernel walk reads: the radix lookup under the kernel's rules. */
  function KernelPath(d: Definition, m: Memory, root: nat, a: nat): seq<Visit> {
    Path(KernelRules(), m, root, a, LevelsOf(d))
  }

  /** One entry of the walk in `vm_t`: the PGD and the PTE are kept as they are, the PUD and the
      PMD unless they are none, and the folded P4D if it is neither none nor bad. */
  function Keep(vm: Vm, v: Visit): Vm {
    var s := Some(v.slot);
    match v.level
    case PGD =>
      if KernelDescends(PGD, v.entry) then vm.(pgd := s, p4d := s, valid := vm.valid + {PGD} + {P4D})
      else vm.(pgd := s, valid := vm.valid + {PGD})
    case P4D => vm
    case PUD => if v.entry == {} then vm else vm.(pud := s, valid := vm.valid + {PUD})
    case PMD => if v.entry == {} then vm else vm.(pmd := s, valid := vm.valid + {PMD})
    case PTE => vm.(pte := s, valid := vm.valid + {PTE})
  }

  function KeepAll(vm: Vm, p: seq<Visit>): Vm
    decreases |p|
  {
    if p == [] then vm else KeepAll(Keep(vm, p[0]), p[1..])
  }

  /** The pointer kept for the page-table entry. */
  lemma {:induction false} KeptPte(vm: Vm, p: seq<Visit>)
    requires PteLast(p) && PTE !in vm.valid && vm.pte == None
    ensures PTE in KeepAll(vm, p).valid <==> LastPte(p).Some?
    ensures KeepAll(vm, p).pte == if LastPte(p).Some? then Some(LastPte(p).value.slot) else None
    decreases |p|
  {
    if |p| == 1 {
      assert KeepAll(vm, p) == KeepAll(Keep(vm, p[0]), []);
    } else if p != [] {
      assert p[0].level != PTE && forall i :: 0 <= i < |p[1..]| - 1 ==> p[1..][i] == p[i + 1];
      KeptPte(Keep(vm, p[0]), p[1..]);
    }
  }

  /** What `resolve_vm` leaves in `vm_t`. */
  function ResolvedVm(d: Definition, m: Memory, root: nat, a: nat): Vm {
    KeepAll(NO_VM, KernelPath(d, m, root, a))
  }

  function KeepFrom(vm: Vm, m: Memory, table: nat, a: nat, levels: Levels): Vm {
    KeepAll(vm, Path(KernelRules(), m, table, a, levels))
  }

  lemma KeepStep(vm: Vm, m: Memory, table: nat, a: nat, levels: Levels)
    requires levels.More?
    ensures var slot := table + 8 * Index(levels, a);
            var e := Read(m, slot);
            var vm' := Keep(vm, Visit(levels.level, table, slot, e));
            KeepFrom(vm, m, table, a, levels) ==
            if KernelDescends(levels.level, e) then KeepFrom(vm', m, Frame40(e) * 4096, a, levels.rest) else vm'
  {
    PathStep(KernelRules(), m, table, a, levels);
    var p := Path(KernelRules(), m, table, a, levels);
    var vm' := Keep(vm, p[0]);
    assert KeepFrom(vm, m, table, a, levels) == KeepAll(vm', p[1..]);
    assert KeepAll(vm', []) == vm';
  }

  /** Tables with a PUD and a PMD and without a P4D, as on x86 with four levels. */
  predicate FourLevels(d: Definition) {
    d.hasPgd && !d.hasP4d && d.hasPud && d.hasPmd
  }

  lemma ResolvedVmStart(d: Definition, m: Memory, root: nat, a: nat)
    requires FourLevels(d)
    ensures var slot := root + 8 * Index(LevelsOf(d), a);
            var e := Read(m, slot);
            var vm := Keep(NO_VM, Visit(PGD, root, slot, e));
            ResolvedVm(d, m, root, a) ==
            if KernelDescends(PGD, e) then KeepFrom(vm, m, Frame40(e) * 4096, a, FromPud(d)) else vm
  {
    KeepStep(NO_VM, m, root, a, LevelsOf(d));
    assert LevelsOf(d).rest == FromPud(d);
  }

  /** `resolve_vm` on the tables of one process; without a root there is no such process. */
  method ResolveVm(d: Definition, m: Memory, root: Option<nat>, addr: nat) returns (failed: bool, entry: Vm)
    requires FourLevels(d)
    ensures root.None? ==> failed && entry == NO_VM
    ensures root.Some? ==> entry == ResolvedVm(d, m, root.value, addr)
    ensures failed <==> PTE !in entry.valid
  {
    entry := NO_VM;
    if root.None? {
      return true, entry;
    }
    ResolvedVmStart(d, m, root.value, addr);
    var pgdi := ShiftIndex(addr, d.pageOffset + d.ptEntries + d.pmdEntries + d.pudEntries + d.p4dEntries, d.pgdEntries);
    var pgd := root.value + 8 * pgdi;
    entry := entry.(pgd := Some(pgd), valid := entry.valid + {PGD});
    var p4d := pgd;
    if Read(m, p4d) == {} || Bad(Read(m, p4d)) {
      return true, entry;
    }
    entry := entry.(p4d := Some(p4d), valid := entry.valid + {P4D});
    failed, entry := ResolveVmPud(d, m, Read(m, p4d), addr, entry);
  }

  method ResolveVmPud(d: Definition, m: Memory, p4dEntry: Word, addr: nat, upper: Vm) returns (failed: bool, entry: Vm)
    requires FourLevels(d) && PTE !in upper.valid
    ensures entry == KeepFrom(upper, m, Frame40(p4dEntry) * 4096, addr, FromPud(d))
    ensures failed <==> PTE !in entry.valid
  {
    entry := upper;
    KeepStep(entry, m, Frame40(p4dEntry) * 4096, addr, FromPud(d));
    var pudi := ShiftIndex(addr, d.pageOffset + d.ptEntries + d.pmdEntries, d.pudEntries);
    var pud := Frame40(p4dEntry) * 4096 + 8 * pudi;
    if Read(m, pud) == {} {
      return true, entry;
    }
    entry := entry.(pud := Some(pud), valid := entry.valid + {PUD});
    failed, entry := ResolveVmPmd(d, m, Read(m, pud), addr, entry);
  }

  method ResolveVmPmd(d: Definition, m: Memory, pudEntry: Word, addr: nat, upper: Vm) returns (failed: bool, entry: Vm)
    requires FourLevels(d) && PTE !in upper.valid
    requires pudEntry != {}
    ensures entry == if KernelDescends(PUD, pudEntry)
                     then KeepFrom(upper, m, Frame40(pudEntry) * 4096, addr, FromPmd(d)) else upper
    ensures failed <==> PTE !in entry.valid
  {
    entry := upper;
    KeepStep(entry, m, Frame40(pudEntry) * 4096, addr, FromPmd(d));
    var pmdi := ShiftIndex(addr, d.pageOffset + d.ptEntries, d.pmdEntries);
    var pmd := Frame40(pudEntry) * 4096 + 8 * pmdi;
    if Read(m, pmd) == {} || (Large(pudEntry) && Present(X86, pudEntry)) {
      return true, entry;
    }
    entry := entry.(pmd := Some(pmd), valid := entry.valid + {PMD});

    var pmdEntry := Read(m, pmd);
    KeepStep(entry, m, Frame40(pmdEntry) * 4096, addr, FromPt(d));
    var pti := ShiftIndex(addr, d.pageOffset, d.ptEntries);
    var pte := Frame40(pmdEntry) * 4096 + 8 * pti;
    if Large(pmdEntry) {
      return true, entry;
    }
    entry := entry.(pte := Some(pte), valid := entry.valid + {PTE});
    failed := false;
  }
}
