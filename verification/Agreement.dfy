/** The two implementations compared: the kernel walk finds what the library walk finds, and the
    kernel update leaves what the library update leaves. */
module Agreement {
  import opened Paging
  import opened Radix
  import opened Tree
  import opened Resolve
  import opened Update
  import opened Kernel

  // ---- The walks -----------------------------------------------------------------------

  /** Where both implementations go on below an entry, or both stop. They differ at an entry that is
      not present and not zero, where only the kernel goes on, at a present root entry with a flag
      that Linux calls bad, and at a 1 GiB leaf, where only the library goes on. */
  predicate DescendAlike(level: Level, e: Word) {
    match level
    case PGD => e == {} || (0 in e <==> !Bad(e))
    case P4D => e == {} || (0 in e <==> !Bad(e))
    case PUD => e == {} || (0 in e && !Large(e))
    case PMD => e == {} || 0 in e || Large(e)
    case PTE => 0 !in e
  }

  lemma DescendAlikeMeans(level: Level, e: Word)
    ensures DescendAlike(level, e) <==> UserDescends(X86, level, e) == KernelDescends(level, e)
  {
  }

  /** An entry both implementations understand alike: both stop there, or both go on and the frame is
      below 2^28. */
  predicate Understood(v: Visit) {
    DescendAlike(v.level, v.entry) && (KernelDescends(v.level, v.entry) ==> v.entry * Bits(40, 52) == {})
  }

  lemma UnderstoodMeans(v: Visit)
    ensures Understood(v) <==> Alike(UserRules(X86), KernelRules(), v)
  {
    DescendAlikeMeans(v.level, v.entry);
    FrameFieldsAgree(v.entry);
  }

  /** Both walks read the same entries in the same slots exactly when they understand every entry
      above the page table alike. */
  lemma WalksAgree(m: Memory, table: nat, a: nat, levels: Levels)
    requires Ranked(levels)
    ensures Path(KernelRules(), m, table, a, levels) == Path(UserRules(X86), m, table, a, levels) <==>
            forall v :: v in Path(UserRules(X86), m, table, a, levels) && v.level != PTE ==> Understood(v)
  {
    SamePaths(UserRules(X86), KernelRules(), m, table, a, levels);
    forall v: Visit
      ensures Understood(v) <==> Alike(UserRules(X86), KernelRules(), v)
    {
      UnderstoodMeans(v);
    }
  }

  /** A sufficient condition that looks at entries one by one: zero or present, a frame below 2^28, no
      1 GiB leaf, and no flag at the root that Linux calls bad. */
  predicate Plain(v: Visit) {
    && (v.entry == {} || 0 in v.entry)
    && v.entry * Bits(40, 52) == {}
    && (v.level == PUD ==> !Large(v.entry))
    && (v.level == PGD || v.level == P4D ==> !Bad(v.entry))
  }

  lemma PathsAgree(m: Memory, table: nat, a: nat, levels: Levels)
    requires Ranked(levels)
    requires forall v :: v in Path(UserRules(X86), m, table, a, levels) && v.level != PTE ==> Plain(v)
    ensures Path(KernelRules(), m, table, a, levels) == Path(UserRules(X86), m, table, a, levels)
  {
    WalksAgree(m, table, a, levels);
  }

  /** The library never tests for a 1 GiB leaf: below such a PUD, and only there, it reads a PMD
      that the kernel does not. */
  lemma GiantPage(d: Definition, m: Memory, table: nat, a: nat)
    requires FourLevels(d)
    ensures var e := Read(m, table + 8 * Index(FromPud(d), a));
            PMD in LevelsIn(Path(UserRules(X86), m, table, a, FromPud(d))) &&
            PMD !in LevelsIn(Path(KernelRules(), m, table, a, FromPud(d)))
            <==> 0 in e && Large(e)
  {
    TailLevels(d, PMD);
    SecondLevel(UserRules(X86), m, table, a, FromPud(d));
    SecondLevel(KernelRules(), m, table, a, FromPud(d));
  }

  /** A walk reads a second level exactly if it descends from the first. */
  lemma SecondLevel(rules: Rules, m: Memory, table: nat, a: nat, levels: Levels)
    requires levels.More? && levels.rest.More? && levels.level != levels.rest.level
    ensures levels.rest.level in LevelsIn(Path(rules, m, table, a, levels)) <==>
            rules.descends(levels.level, Read(m, table + 8 * Index(levels, a)))
  {
    PathStep(rules, m, table, a, levels);
    var p := Path(rules, m, table, a, levels);
    if rules.descends(levels.level, p[0].entry) {
      PathStep(rules, m, rules.table(p[0].entry), a, levels.rest);
      assert p[1] in p;
      LevelOfVisit(p, p[1]);
    } else {
      assert LevelsIn(p[1..]) == {};
    }
  }

  // ---- What `vm_t` keeps ---------------------------------------------------------------

  /** Whether the kernel keeps a pointer to an entry. */
  predicate Kept(v: Visit) {
    v.level == PGD || v.level == PTE || (v.level != P4D && v.entry != {})
  }

  lemma {:induction false} KeepOthers(vm: Vm, p: seq<Visit>, level: Level)
    requires level != P4D && level !in LevelsIn(p)
    ensures KeepAll(vm, p).At(level) == vm.At(level)
    ensures level in KeepAll(vm, p).valid <==> level in vm.valid
    decreases |p|
  {
    if p != [] {
      KeepOthers(Keep(vm, p[0]), p[1..], level);
    }
  }

  /** The pointer kept for the level of a visit. */
  lemma {:induction false} KeepFinds(vm: Vm, rules: Rules, m: Memory, table: nat, a: nat, levels: Levels, v: Visit)
    requires Ranked(levels) && v in Path(rules, m, table, a, levels) && v.level != P4D
    requires v.level !in vm.valid && vm.At(v.level) == None
    ensures var vm' := KeepAll(vm, Path(rules, m, table, a, levels));
            && (v.level in vm'.valid <==> Kept(v))
            && vm'.At(v.level) == if Kept(v) then Some(v.slot) else None
    decreases levels
  {
    var p := Path(rules, m, table, a, levels);
    PathStep(rules, m, table, a, levels);
    var below := rules.table(p[0].entry);
    assert KeepAll(vm, p) == KeepAll(Keep(vm, p[0]), p[1..]);
    if v == p[0] {
      if v.level in LevelsIn(p[1..]) {
        PathLevels(rules, m, below, a, levels.rest, v.level);
      }
      KeepOthers(Keep(vm, p[0]), p[1..], v.level);
    } else {
      LevelOfVisit(p[1..], v);
      PathLevels(rules, m, below, a, levels.rest, v.level);
      KeepOne(vm, p[0], v.level);
      KeepFinds(Keep(vm, p[0]), rules, m, below, a, levels.rest, v);
    }
  }

  lemma KeepOne(vm: Vm, u: Visit, level: Level)
    requires level != P4D && level != u.level
    ensures Keep(vm, u).At(level) == vm.At(level)
    ensures level in Keep(vm, u).valid <==> level in vm.valid
  {
  }

  // ---- Agreement of the results ----------------------------------------------------------

  /** `vm_to_user`: the words behind the pointers, read from memory. */
  function ToUser(m: Memory, vm: Vm, user: Entry): Entry {
    var pgd := if vm.pgd.Some? then Read(m, vm.pgd.value) else user.pgd;
    var p4d := if vm.p4d.Some? then Read(m, vm.p4d.value) else user.p4d;
    var pud := if vm.pud.Some? then Read(m, vm.pud.value) else user.pud;
    var pmd := if vm.pmd.Some? then Read(m, vm.pmd.value) else user.pmd;
    var pte := if vm.pte.Some? then Read(m, vm.pte.value) else user.pte;
    user.(pgd := pgd, p4d := p4d, pud := pud, pmd := pmd, pte := pte, valid := vm.valid)
  }

  /** What `ptedit_resolve_kernel` returns. */
  function KernelResolved(d: Definition, m: Memory, root: nat, pid: int, a: nat): Entry {
    ToUser(m, ResolvedVm(d, m, root, a), Blank(pid, a))
  }

  /** The preconditions under which the implementations are comparable. */
  ghost predicate Comparable(d: Definition, m: Memory, root: nat, a: nat) {
    && FourLevels(d)
    && root != 0 && root % 2 == 0
    && forall v :: v in Walk(UserWalker(X86, d), m, root, a) && v.level != PTE ==> Understood(v)
  }

  lemma ComparableWalks(d: Definition, m: Memory, root: nat, a: nat)
    requires Comparable(d, m, root, a)
    ensures KernelPath(d, m, root, a) == Walk(UserWalker(X86, d), m, root, a)
  {
    LevelsAreRanked(d);
    WalksAgree(m, root, a, LevelsOf(d));
  }

  /** The kernel's result for a level of its walk: an entry that is kept is valid and returned, and one
      that is not kept is zero. */
  lemma KernelLevel(d: Definition, m: Memory, root: nat, pid: int, a: nat, v: Visit)
    requires v in KernelPath(d, m, root, a) && v.level != P4D
    ensures var k := KernelResolved(d, m, root, pid, a);
            && (v.level in k.valid <==> Kept(v))
            && k.Get(v.level) == if Kept(v) then v.entry else {}
  {
    LevelsAreRanked(d);
    KeepFinds(NO_VM, KernelRules(), m, root, a, LevelsOf(d), v);
    VisitShape(KernelRules(), m, root, a, LevelsOf(d), v);
  }

  /** A level below the root that its walk does not reach is not valid and zero. */
  lemma KernelNoLevel(d: Definition, m: Memory, root: nat, pid: int, a: nat, level: Level)
    requires level != P4D && level !in LevelsIn(KernelPath(d, m, root, a))
    ensures var k := KernelResolved(d, m, root, pid, a); level !in k.valid && k.Get(level) == {}
  {
    KeepOthers(NO_VM, KernelPath(d, m, root, a), level);
  }

  /** The kernel's pointers to the root entry. */
  lemma RootPointers(d: Definition, m: Memory, root: nat, a: nat)
    requires FourLevels(d)
    ensures var vm := ResolvedVm(d, m, root, a);
            var slot := root + 8 * Index(LevelsOf(d), a);
            var on := KernelDescends(PGD, Read(m, slot));
            && PGD in vm.valid && vm.pgd == Some(slot)
            && (P4D in vm.valid <==> on) && vm.p4d == if on then Some(slot) else None
  {
    var p := KernelPath(d, m, root, a);
    PathStep(KernelRules(), m, root, a, LevelsOf(d));
    RootOnce(d, m, root, a);
    KeepOthers(Keep(NO_VM, p[0]), p[1..], PGD);
    KeepP4d(Keep(NO_VM, p[0]), p[1..]);
  }

  lemma RootOnce(d: Definition, m: Memory, root: nat, a: nat)
    ensures var p := KernelPath(d, m, root, a); p != [] && PGD !in LevelsIn(p[1..])
  {
    LevelsAreRanked(d);
    PathStep(KernelRules(), m, root, a, LevelsOf(d));
    var p := KernelPath(d, m, root, a);
    if PGD in LevelsIn(p[1..]) {
      PathLevels(KernelRules(), m, KernelRules().table(p[0].entry), a, LevelsOf(d).rest, PGD);
    }
  }

  /** The root entry is always returned as the PGD. It is also the P4D, and valid as that, exactly if it
      is neither zero nor bad. */
  lemma KernelRoot(d: Definition, m: Memory, root: nat, pid: int, a: nat)
    requires FourLevels(d)
    ensures var k := KernelResolved(d, m, root, pid, a);
            var e := Read(m, root + 8 * Index(LevelsOf(d), a));
            && k.pid == pid && k.vaddr == a
            && PGD in k.valid && k.pgd == e
            && (P4D in k.valid <==> e != {} && !Bad(e))
            && k.p4d == if e != {} && !Bad(e) then e else {}
  {
    RootPointers(d, m, root, a);
  }

  /** The walks return equal entries at every level that both mark valid. */
  lemma ResultsAgree(d: Definition, m: Memory, root: nat, pid: int, a: nat, level: Level)
    requires Comparable(d, m, root, a)
    requires level in KernelResolved(d, m, root, pid, a).valid && level in Resolved(X86, d, m, root, pid, a).valid
    ensures KernelResolved(d, m, root, pid, a).Get(level) == Resolved(X86, d, m, root, pid, a).Get(level)
  {
    ResolvedValid(X86, d, m, root, pid, a);
    var p := Behind(X86, d, m, root, a);
    var v := VisitOfLevel(p, level);
    ResolvedEntry(X86, d, m, root, pid, a, v);
    NoP4d(d, m, root, a);
    ComparableWalks(d, m, root, a);
    KernelLevel(d, m, root, pid, a, v);
  }

  lemma NoP4d(d: Definition, m: Memory, root: nat, a: nat)
    requires FourLevels(d)
    ensures P4D !in LevelsIn(Walk(UserWalker(X86, d), m, root, a))
  {
    LevelsAreRanked(d);
    if P4D in LevelsIn(Walk(UserWalker(X86, d), m, root, a)) {
      PathLevels(UserRules(X86), m, root, a, LevelsOf(d), P4D);
    }
  }

  lemma KernelResolvedPte(d: Definition, m: Memory, root: nat, pid: int, a: nat)
    ensures PTE in KernelResolved(d, m, root, pid, a).valid <==> LastPte(KernelPath(d, m, root, a)).Some?
  {
    LevelsAreRanked(d);
    PathPteLast(KernelRules(), m, root, a, LevelsOf(d));
    KeptPte(NO_VM, KernelPath(d, m, root, a));
  }

  /** The walks agree on whether there is a page-table entry. */
  lemma PteValidityAgrees(d: Definition, m: Memory, root: nat, pid: int, a: nat)
    requires Comparable(d, m, root, a)
    ensures PTE in KernelResolved(d, m, root, pid, a).valid <==> PTE in Resolved(X86, d, m, root, pid, a).valid
  {
    KernelResolvedPte(d, m, root, pid, a);
    ComparableWalks(d, m, root, a);
    ResolvedPte(X86, d, m, root, pid, a);
  }

  // ---- The comparison the demo and the tests use -------------------------------------------

  /** Bits in which two words differ; C's `^`. */
  function Xor(x: Word, y: Word): Word {
    (x - y) + (y - x)
  }

  /** One step of `is_same`: the accumulator is an `int`, so only 32 bits of the difference stay. */
  function Differ(diff: Word, e: Entry, f: Entry, level: Level): Word {
    if level in e.valid && level in f.valid then (diff + Xor(e.Get(level), f.Get(level))) * Bits(0, 32) else diff
  }

  predicate IsSame(e: Entry, f: Entry) {
    Differ(Differ(Differ(Differ(Differ({}, e, f, PGD), e, f, P4D), e, f, PUD), e, f, PMD), e, f, PTE) == {}
  }

  /** `is_same` holds exactly when each of the low 32 bits is in both words or in neither, at every level
      that both mark valid. */
  lemma IsSameMeans(e: Entry, f: Entry)
    ensures IsSame(e, f) <==>
            forall l, b: Bit :: l in e.valid && l in f.valid && b < 32 ==> (b in e.Get(l) <==> b in f.Get(l))
  {
    SameLowHalves(e, f);
    forall l
      ensures Xor(e.Get(l), f.Get(l)) * Bits(0, 32) == {} <==>
              forall b: Bit :: b < 32 ==> (b in e.Get(l) <==> b in f.Get(l))
    {
      XorMeans(e.Get(l), f.Get(l));
    }
  }

  lemma XorMeans(x: Word, y: Word)
    ensures Xor(x, y) * Bits(0, 32) == {} <==> forall b: Bit :: b < 32 ==> (b in x <==> b in y)
  {
    forall b: Bit
      ensures b in Xor(x, y) * Bits(0, 32) <==> b < 32 && !(b in x <==> b in y)
    {
    }
  }

  lemma SameLowHalves(e: Entry, f: Entry)
    ensures IsSame(e, f) <==>
            forall l :: l in e.valid && l in f.valid ==> Xor(e.Get(l), f.Get(l)) * Bits(0, 32) == {}
  {
    var d1 := Differ({}, e, f, PGD);
    var d2 := Differ(d1, e, f, P4D);
    var d3 := Differ(d2, e, f, PUD);
    var d4 := Differ(d3, e, f, PMD);
    DifferStep({}, e, f, PGD);
    DifferStep(d1, e, f, P4D);
    DifferStep(d2, e, f, PUD);
    DifferStep(d3, e, f, PMD);
    DifferStep(d4, e, f, PTE);
    if forall l :: l in e.valid && l in f.valid ==> Xor(e.Get(l), f.Get(l)) * Bits(0, 32) == {} {
    } else {
      var l :| l in e.valid && l in f.valid && Xor(e.Get(l), f.Get(l)) * Bits(0, 32) != {};
      assert l == PGD || l == P4D || l == PUD || l == PMD || l == PTE;
    }
  }

  lemma DifferStep(diff: Word, e: Entry, f: Entry, level: Level)
    requires diff <= Bits(0, 32)
    ensures Differ(diff, e, f, level) <= Bits(0, 32)
    ensures Differ(diff, e, f, level) == {} <==>
            diff == {} && (level in e.valid && level in f.valid ==> Xor(e.Get(level), f.Get(level)) * Bits(0, 32) == {})
  {
    if level in e.valid && level in f.valid {
      var x := Xor(e.Get(level), f.Get(level));
      assert (diff + x) * Bits(0, 32) == diff + x * Bits(0, 32);
    }
  }

  /** Comparable walks are the same for `is_same`. */
  lemma ResultsAreSame(d: Definition, m: Memory, root: nat, pid: int, a: nat)
    requires Comparable(d, m, root, a)
    ensures IsSame(KernelResolved(d, m, root, pid, a), Resolved(X86, d, m, root, pid, a))
  {
    var e, f := KernelResolved(d, m, root, pid, a), Resolved(X86, d, m, root, pid, a);
    IsSameMeans(e, f);
    forall l | l in e.valid && l in f.valid
      ensures e.Get(l) == f.Get(l)
    {
      ResultsAgree(d, m, root, pid, a, l);
    }
  }

  // ---- Agreement of the updates --------------------------------------------------------------

  /** `update_vm` after its walk: root first, page table last, through the pointers of `vm_t`. */
  function KernelWrite(m: Memory, found: Vm, vm: Entry): Memory {
    var m1 := WriteAt(m, found.pgd, vm, PGD);
    var m2 := WriteAt(m1, found.p4d, vm, P4D);
    var m3 := WriteAt(m2, found.pud, vm, PUD);
    var m4 := WriteAt(m3, found.pmd, vm, PMD);
    WriteAt(m4, found.pte, vm, PTE)
  }

  /** The pointers name the slots of a walk, and the folded P4D is the PGD. */
  ghost predicate SamePreWalk(found: Vm, p: seq<Visit>) {
    && (forall l :: l != P4D ==> found.At(l) == SlotOf(p, l))
    && found.p4d == found.pgd
    && SlotOf(p, P4D) == None
  }

  /** The words that both orders write below the root. */
  function WriteLower(m: Memory, p: seq<Visit>, vm: Entry): Memory {
    WriteLevel(WriteLevel(WriteLevel(m, p, vm, PUD), p, vm, PMD), p, vm, PTE)
  }

  lemma WriteLowerAt(m: Memory, p: seq<Visit>, vm: Entry, x: nat)
    requires SlotOf(p, PGD) == Some(x) && DistinctSlots(p)
    ensures var m' := WriteLower(m, p, vm); m'.Keys == m.Keys && (x in m ==> m'[x] == m[x])
  {
    var m1 := WriteLevel(m, p, vm, PUD);
    var m2 := WriteLevel(m1, p, vm, PMD);
    WriteLevelAt(m, p, vm, PUD, x);
    WriteLevelAt(m1, p, vm, PMD, x);
    WriteLevelAt(m2, p, vm, PTE, x);
  }

  lemma KernelWriteIsDown(m: Memory, p: seq<Visit>, found: Vm, vm: Entry)
    requires SamePreWalk(found, p)
    ensures KernelWrite(m, found, vm) == WriteLower(WriteAt(WriteAt(m, found.pgd, vm, PGD), found.pgd, vm, P4D), p, vm)
    ensures WriteDown(m, p, vm) == WriteLower(WriteAt(m, found.pgd, vm, PGD), p, vm)
  {
    assert found.At(PGD) == SlotOf(p, PGD) && found.At(PUD) == SlotOf(p, PUD);
    assert found.At(PMD) == SlotOf(p, PMD) && found.At(PTE) == SlotOf(p, PTE);
  }

  /** From the same slots, with a folded P4D, the kernel's order leaves the same memory as the library's
      exactly when it writes the same word at the root: the P4D is not selected, or its value is the
      one the library leaves in the PGD. */
  lemma FoldedOrdersAgree(m: Memory, p: seq<Visit>, found: Vm, vm: Entry)
    requires SamePreWalk(found, p) && DistinctSlots(p)
    ensures KernelWrite(m, found, vm) == WriteUp(m, p, vm) <==>
            (P4D in vm.valid && found.pgd.Some? && found.pgd.value in m
             ==> vm.p4d == if PGD in vm.valid then vm.pgd else m[found.pgd.value])
  {
    OrdersAgree(m, p, vm);
    KernelWriteIsDown(m, p, found, vm);
    assert found.At(PGD) == SlotOf(p, PGD);
    var library := WriteAt(m, found.pgd, vm, PGD);
    var kernel := WriteAt(library, found.pgd, vm, P4D);
    if found.pgd.Some? && found.pgd.value in m {
      var x := found.pgd.value;
      WriteLowerAt(library, p, vm, x);
      WriteLowerAt(kernel, p, vm, x);
      if kernel[x] == library[x] {
        assert kernel == library;
      } else {
        assert WriteLower(kernel, p, vm)[x] != WriteLower(library, p, vm)[x];
      }
    }
  }

  // ---- Agreement of the updates, each from its own walk ----------------------------------------

  /** The kernel writes a level at an address. */
  predicate Hits(found: Vm, vm: Entry, level: Level, x: nat) {
    level in vm.valid && found.At(level) == Some(x)
  }

  /** The last of the kernel's writes wins. */
  lemma KernelWriteAt(m: Memory, found: Vm, vm: Entry, x: nat)
    ensures KernelWrite(m, found, vm).Keys == m.Keys
    ensures x in m ==> KernelWrite(m, found, vm)[x] ==
                       if Hits(found, vm, PTE, x) then vm.pte
                       else if Hits(found, vm, PMD, x) then vm.pmd
                       else if Hits(found, vm, PUD, x) then vm.pud
                       else if Hits(found, vm, P4D, x) then vm.p4d
                       else if Hits(found, vm, PGD, x) then vm.pgd else m[x]
  {
    var m1 := WriteAt(m, found.pgd, vm, PGD);
    var m2 := WriteAt(m1, found.p4d, vm, P4D);
    var m3 := WriteAt(m2, found.pud, vm, PUD);
    var m4 := WriteAt(m3, found.pmd, vm, PMD);
    WordAfter(m, found.pgd, vm, PGD, x);
    WordAfter(m1, found.p4d, vm, P4D, x);
    WordAfter(m2, found.pud, vm, PUD, x);
    WordAfter(m3, found.pmd, vm, PMD, x);
    WordAfter(m4, found.pte, vm, PTE, x);
  }

  lemma WordAfter(m: Memory, slot: Option<nat>, vm: Entry, level: Level, x: nat)
    ensures WriteAt(m, slot, vm, level).Keys == m.Keys
    ensures x in m ==>
              WriteAt(m, slot, vm, level)[x] == if level in vm.valid && slot == Some(x) then vm.Get(level) else m[x]
  {
  }

  lemma {:induction false} KeepP4d(vm: Vm, p: seq<Visit>)
    requires PGD !in LevelsIn(p)
    ensures KeepAll(vm, p).p4d == vm.p4d
    ensures P4D in KeepAll(vm, p).valid <==> P4D in vm.valid
    decreases |p|
  {
    if p != [] {
      KeepP4d(Keep(vm, p[0]), p[1..]);
    }
  }

  /** The pointer for the folded P4D is that of the PGD, if the walk goes on there. */
  lemma FoldedPointer(d: Definition, m: Memory, root: nat, a: nat)
    requires FourLevels(d)
    ensures var p := KernelPath(d, m, root, a);
            && p != [] && p[0].level == PGD
            && ResolvedVm(d, m, root, a).p4d == if KernelDescends(PGD, p[0].entry) then Some(p[0].slot) else None
  {
    PathStep(KernelRules(), m, root, a, LevelsOf(d));
    RootPointers(d, m, root, a);
  }

  /** The pointers of the kernel that name the slot of a visit. */
  lemma PointersTo(d: Definition, m: Memory, root: nat, a: nat, v: Visit, level: Level)
    requires FourLevels(d) && DistinctSlots(KernelPath(d, m, root, a)) && v in KernelPath(d, m, root, a)
    ensures ResolvedVm(d, m, root, a).At(level) == Some(v.slot) <==>
            if level == P4D then v.level == PGD && KernelDescends(PGD, v.entry) else level == v.level && Kept(v)
  {
    var p := KernelPath(d, m, root, a);
    LevelsAreRanked(d);
    FoldedPointer(d, m, root, a);
    SlotOfVisit(KernelRules(), m, root, a, LevelsOf(d), v);
    SlotOfVisit(KernelRules(), m, root, a, LevelsOf(d), p[0]);
    if level == P4D {
      if v.level == PGD {
        VisitShape(KernelRules(), m, root, a, LevelsOf(d), v);
        VisitShape(KernelRules(), m, root, a, LevelsOf(d), p[0]);
      }
    } else if level in LevelsIn(p) {
      var u := VisitOfLevel(p, level);
      SlotOfVisit(KernelRules(), m, root, a, LevelsOf(d), u);
      NoP4dVisit(d, m, root, a, u);
      KeepFinds(NO_VM, KernelRules(), m, root, a, LevelsOf(d), u);
      if level == v.level {
        VisitShape(KernelRules(), m, root, a, LevelsOf(d), u);
        VisitShape(KernelRules(), m, root, a, LevelsOf(d), v);
      }
    } else {
      KeepOthers(NO_VM, p, level);
      LevelOfVisit(p, v);
    }
  }

  lemma NoP4dVisit(d: Definition, m: Memory, root: nat, a: nat, v: Visit)
    requires FourLevels(d) && v in KernelPath(d, m, root, a)
    ensures v.level != P4D
  {
    LevelsAreRanked(d);
    VisitShape(KernelRules(), m, root, a, LevelsOf(d), v);
  }

  /** What the kernel's update leaves in a slot of its walk. */
  function KernelLeft(v: Visit, vm: Entry): Word {
    if v.level == PGD && P4D in vm.valid && KernelDescends(PGD, v.entry) then vm.p4d
    else if v.level in vm.valid && Kept(v) then vm.Get(v.level) else v.entry
  }

  lemma KernelLeaves(d: Definition, m: Memory, root: nat, a: nat, vm: Entry, v: Visit)
    requires FourLevels(d) && DistinctSlots(KernelPath(d, m, root, a)) && v in KernelPath(d, m, root, a) && v.slot in m
    ensures var m' := KernelWrite(m, ResolvedVm(d, m, root, a), vm); v.slot in m' && m'[v.slot] == KernelLeft(v, vm)
  {
    KernelWriteAt(m, ResolvedVm(d, m, root, a), vm, v.slot);
    PointersTo(d, m, root, a, v, PGD);
    PointersTo(d, m, root, a, v, P4D);
    PointersTo(d, m, root, a, v, PUD);
    PointersTo(d, m, root, a, v, PMD);
    PointersTo(d, m, root, a, v, PTE);
    LevelsAreRanked(d);
    NoP4dVisit(d, m, root, a, v);
    VisitShape(KernelRules(), m, root, a, LevelsOf(d), v);
  }

  /** What the library's update leaves there, given whether the root entry is present. */
  function LibraryLeft(v: Visit, vm: Entry, reported: bool): Word {
    if reported && v.level in vm.valid then vm.Get(v.level) else v.entry
  }

  lemma LibraryLeaves(m: Memory, p: seq<Visit>, q: seq<Visit>, vm: Entry, v: Visit)
    requires ReadFrom(p, m) && DistinctSlots(p) && v in p && v.slot in m && (q == [] || q == p)
    ensures v.slot in WriteUp(m, q, vm) && WriteUp(m, q, vm)[v.slot] == LibraryLeft(v, vm, q != [])
  {
    SameKeys(m, q, vm);
    if q == [] {
      assert WriteUp(m, [], vm) == m;
    } else {
      WrittenVisit(m, p, vm, v);
    }
  }

  /** The kernel changes no word that its walk does not read, and neither does the library. */
  lemma KernelElsewhere(d: Definition, m: Memory, root: nat, a: nat, vm: Entry, x: nat)
    requires FourLevels(d) && forall v :: v in KernelPath(d, m, root, a) ==> v.slot != x
    ensures KernelWrite(m, ResolvedVm(d, m, root, a), vm).Keys == m.Keys
    ensures x in m ==> KernelWrite(m, ResolvedVm(d, m, root, a), vm)[x] == m[x]
  {
    var found := ResolvedVm(d, m, root, a);
    KernelWriteAt(m, found, vm, x);
    forall level
      ensures found.At(level) != Some(x)
    {
      PointerIsVisited(d, m, root, a, level);
    }
  }

  lemma LibraryElsewhere(m: Memory, p: seq<Visit>, vm: Entry, x: nat)
    requires forall v :: v in p ==> v.slot != x
    ensures WriteUp(m, p, vm).Keys == m.Keys
    ensures x in m ==> WriteUp(m, p, vm)[x] == m[x]
  {
    forall level
      ensures !Writes(p, vm, level, x)
    {
      if SlotOf(p, level).Some? {
        var v := VisitOfSlot(p, level);
      }
    }
    UpdateFrame(m, p, vm, x);
  }

  /** Every pointer of the kernel names a slot of its walk. */
  lemma PointerIsVisited(d: Definition, m: Memory, root: nat, a: nat, level: Level)
    requires FourLevels(d)
    ensures var x := ResolvedVm(d, m, root, a).At(level);
            x.Some? ==> exists v :: v in KernelPath(d, m, root, a) && v.slot == x.value
  {
    var p := KernelPath(d, m, root, a);
    LevelsAreRanked(d);
    FoldedPointer(d, m, root, a);
    if level == P4D {
      assert p[0] in p;
    } else if level in LevelsIn(p) {
      var v := VisitOfLevel(p, level);
      KeepFinds(NO_VM, KernelRules(), m, root, a, LevelsOf(d), v);
    } else {
      KeepOthers(NO_VM, p, level);
    }
  }

  /** When both updates leave the same word in a slot. The P4D is folded: at a present root entry the
      kernel writes its P4D value last, and at one that is not present only the kernel writes. A PUD
      or PMD that is zero is written by the library only. */
  predicate LeftAlike(v: Visit, vm: Entry) {
    match v.level
    case PGD =>
      if Present(X86, v.entry) then P4D in vm.valid ==> vm.p4d == if PGD in vm.valid then vm.pgd else v.entry
      else PGD in vm.valid ==> vm.pgd == v.entry
    case P4D => true
    case PUD => v.entry == {} && PUD in vm.valid ==> vm.pud == {}
    case PMD => v.entry == {} && PMD in vm.valid ==> vm.pmd == {}
    case PTE => true
  }

  lemma LeftAlikeMeans(d: Definition, m: Memory, root: nat, a: nat, vm: Entry, v: Visit)
    requires Comparable(d, m, root, a) && v in KernelPath(d, m, root, a)
    ensures LeftAlike(v, vm) <==>
            KernelLeft(v, vm) == LibraryLeft(v, vm, Present(X86, KernelPath(d, m, root, a)[0].entry))
  {
    var p := KernelPath(d, m, root, a);
    ComparableWalks(d, m, root, a);
    NoP4dVisit(d, m, root, a, v);
    PathStep(KernelRules(), m, root, a, LevelsOf(d));
    assert p[0] in p;
    FirstOrBelow(d, m, root, a, v);
  }

  /** Below a root entry that is not present nothing is visited, and the root is visited once. */
  lemma FirstOrBelow(d: Definition, m: Memory, root: nat, a: nat, v: Visit)
    requires Comparable(d, m, root, a) && v in KernelPath(d, m, root, a)
    ensures var p := KernelPath(d, m, root, a);
            && (v.level == PGD ==> v == p[0])
            && (v.level != PGD ==> Present(X86, p[0].entry))
            && (Present(X86, p[0].entry) <==> KernelDescends(PGD, p[0].entry))
  {
    var p := KernelPath(d, m, root, a);
    LevelsAreRanked(d);
    ComparableWalks(d, m, root, a);
    PathStep(KernelRules(), m, root, a, LevelsOf(d));
    assert p[0] in p;
    DescendAlikeMeans(PGD, p[0].entry);
    if v.level == PGD && v != p[0] {
      VisitShape(KernelRules(), m, KernelRules().table(p[0].entry), a, LevelsOf(d).rest, v);
    }
  }

  /** The kernel's update and the library's, each from its own walk, leave the same memory exactly
      when they leave the same word in every slot of the walk that can be written. */
  lemma UpdatesAgree(d: Definition, m: Memory, root: nat, a: nat, vm: Entry)
    requires Comparable(d, m, root, a) && DistinctSlots(KernelPath(d, m, root, a))
    ensures KernelWrite(m, ResolvedVm(d, m, root, a), vm) == UpdatedMemory(X86, d, m, root, a, vm) <==>
            forall v :: v in KernelPath(d, m, root, a) && v.slot in m ==> LeftAlike(v, vm)
  {
    var p := KernelPath(d, m, root, a);
    var k, u := KernelWrite(m, ResolvedVm(d, m, root, a), vm), UpdatedMemory(X86, d, m, root, a, vm);
    forall v | v in p && v.slot in m
      ensures v.slot in k && v.slot in u && (LeftAlike(v, vm) <==> k[v.slot] == u[v.slot])
    {
      WordsLeft(d, m, root, a, vm, v);
    }
    forall x | forall v :: v in p ==> v.slot != x
      ensures k.Keys == m.Keys == u.Keys && (x in m ==> k[x] == u[x])
    {
      WordsElsewhere(d, m, root, a, vm, x);
    }
    KernelWriteAt(m, ResolvedVm(d, m, root, a), vm, 0);
    SameKeys(m, Behind(X86, d, m, root, a), vm);
    SameMemories(m, k, u, p);
  }

  lemma WordsElsewhere(d: Definition, m: Memory, root: nat, a: nat, vm: Entry, x: nat)
    requires Comparable(d, m, root, a) && forall v :: v in KernelPath(d, m, root, a) ==> v.slot != x
    ensures var k, u := KernelWrite(m, ResolvedVm(d, m, root, a), vm), UpdatedMemory(X86, d, m, root, a, vm);
            k.Keys == m.Keys == u.Keys && (x in m ==> k[x] == u[x])
  {
    KernelElsewhere(d, m, root, a, vm, x);
    ComparableBehind(d, m, root, a);
    LibraryElsewhere(m, Behind(X86, d, m, root, a), vm, x);
  }

  lemma WordsLeft(d: Definition, m: Memory, root: nat, a: nat, vm: Entry, v: Visit)
    requires Comparable(d, m, root, a) && DistinctSlots(KernelPath(d, m, root, a))
    requires v in KernelPath(d, m, root, a) && v.slot in m
    ensures var k, u := KernelWrite(m, ResolvedVm(d, m, root, a), vm), UpdatedMemory(X86, d, m, root, a, vm);
            v.slot in k && v.slot in u && (LeftAlike(v, vm) <==> k[v.slot] == u[v.slot])
  {
    var p := KernelPath(d, m, root, a);
    KernelLeaves(d, m, root, a, vm, v);
    KernelReadFrom(d, m, root, a);
    ComparableBehind(d, m, root, a);
    LibraryLeaves(m, p, Behind(X86, d, m, root, a), vm, v);
    LeftAlikeMeans(d, m, root, a, vm, v);
  }

  lemma KernelReadFrom(d: Definition, m: Memory, root: nat, a: nat)
    ensures ReadFrom(KernelPath(d, m, root, a), m)
  {
    LevelsAreRanked(d);
    PathReadFrom(KernelRules(), m, root, a, LevelsOf(d));
  }

  lemma ComparableBehind(d: Definition, m: Memory, root: nat, a: nat)
    requires Comparable(d, m, root, a)
    ensures var p := KernelPath(d, m, root, a);
            p != [] && Behind(X86, d, m, root, a) == if Present(X86, p[0].entry) then p else []
  {
    ComparableWalks(d, m, root, a);
    PathStep(KernelRules(), m, root, a, LevelsOf(d));
  }

  /** Memories that agree outside some slots are equal exactly when they agree there. */
  lemma SameMemories(m: Memory, k: Memory, u: Memory, p: seq<Visit>)
    requires k.Keys == m.Keys == u.Keys
    requires forall x :: x in m && (forall v :: v in p ==> v.slot != x) ==> k[x] == u[x]
    ensures k == u <==> forall v :: v in p && v.slot in m ==> k[v.slot] == u[v.slot]
  {
    if forall v :: v in p && v.slot in m ==> k[v.slot] == u[v.slot] {
      assert forall x :: x in m ==> k[x] == u[x];
    }
  }

  lemma SameKeys(m: Memory, p: seq<Visit>, vm: Entry)
    ensures WriteUp(m, p, vm).Keys == m.Keys
  {
  }
}
