/** Masked multi-level updates: the slots an update writes, the two write orders, and reading back
    what was written. */
module Update {
  import opened Paging
  import opened Radix
  import opened Tree
  import opened Resolve

  /** Where a walk found the entry of a level. */
  function SlotOf(p: seq<Visit>, level: Level): Option<nat> {
    if p == [] then None else if p[0].level == level then Some(p[0].slot) else SlotOf(p[1..], level)
  }

  lemma {:induction false} SlotOfPte(p: seq<Visit>)
    requires PteLast(p)
    ensures SlotOf(p, PTE) == if LastPte(p).Some? then Some(LastPte(p).value.slot) else None
  {
    if |p| > 1 {
      assert forall i :: 0 <= i < |p[1..]| - 1 ==> p[1..][i] == p[i + 1];
      SlotOfPte(p[1..]);
    }
  }

  /** Write one level, if it is selected and has a slot. */
  function WriteAt(m: Memory, slot: Option<nat>, vm: Entry, level: Level): Memory {
    if level in vm.valid && slot.Some? then Write(m, slot.value, vm.Get(level)) else m
  }

  /** Write one level, if it is selected and the walk found it. */
  function WriteLevel(m: Memory, p: seq<Visit>, vm: Entry, level: Level): Memory {
    WriteAt(m, SlotOf(p, level), vm, level)
  }

  /** The library's order: page table first, root last. */
  function WriteUp(m: Memory, p: seq<Visit>, vm: Entry): Memory {
    var m1 := WriteLevel(m, p, vm, PTE);
    var m2 := WriteLevel(m1, p, vm, PMD);
    var m3 := WriteLevel(m2, p, vm, PUD);
    var m4 := WriteLevel(m3, p, vm, P4D);
    WriteLevel(m4, p, vm, PGD)
  }

  /** The kernel's order: root first, page table last. */
  function WriteDown(m: Memory, p: seq<Visit>, vm: Entry): Memory {
    var m1 := WriteLevel(m, p, vm, PGD);
    var m2 := WriteLevel(m1, p, vm, P4D);
    var m3 := WriteLevel(m2, p, vm, PUD);
    var m4 := WriteLevel(m3, p, vm, PMD);
    WriteLevel(m4, p, vm, PTE)
  }

  /** Different levels lie in different slots. */
  predicate DistinctSlots(p: seq<Visit>) {
    forall l, l' :: l != l' && SlotOf(p, l).Some? && SlotOf(p, l').Some? ==> SlotOf(p, l).value != SlotOf(p, l').value
  }

  /** In tree-shaped tables they always do. */
  lemma ShapedIsDistinct(f: Forest, m: Memory, r: nat, a: nat)
    requires f.Shaped(m) && f.Covers(r, a)
    ensures DistinctSlots(Walk(f.walker, m, r, a))
  {
    var p := Walk(f.walker, m, r, a);
    forall l, l' | l != l' && SlotOf(p, l).Some? && SlotOf(p, l').Some?
      ensures SlotOf(p, l).value != SlotOf(p, l').value
    {
      var v := VisitOfSlot(p, l);
      var v' := VisitOfSlot(p, l');
      VisitHasPlace(p, v);
      VisitHasPlace(p, v');
      assert f.Owned(r, a, Place(v.level, v.table)) && f.Owned(r, a, Place(v'.level, v'.table));
      if v.slot == v'.slot {
        SlotSplits(f.walker, f.unit, f.count, m, r, a, v, r, a, v');
      }
    }
  }

  // ---- The two orders ----------------------------------------------------------------

  /** Two levels in different slots can be written in either order. */
  lemma Swap(m: Memory, p: seq<Visit>, vm: Entry, l: Level, l': Level)
    requires DistinctSlots(p)
    ensures WriteLevel(WriteLevel(m, p, vm, l), p, vm, l') == WriteLevel(WriteLevel(m, p, vm, l'), p, vm, l)
  {
  }

  /** Moving the first of five writes to the end. */
  lemma Sink(m: Memory, p: seq<Visit>, vm: Entry, l: Level, l1: Level, l2: Level, l3: Level)
    requires DistinctSlots(p)
    ensures WriteLevel(WriteLevel(WriteLevel(WriteLevel(m, p, vm, l), p, vm, l1), p, vm, l2), p, vm, l3)
         == WriteLevel(WriteLevel(WriteLevel(WriteLevel(m, p, vm, l1), p, vm, l2), p, vm, l3), p, vm, l)
  {
    var m1 := WriteLevel(m, p, vm, l1);
    Swap(m, p, vm, l, l1);
    Swap(m1, p, vm, l, l2);
    Swap(WriteLevel(m1, p, vm, l2), p, vm, l, l3);
  }

  /** From the same walk, writing bottom-up and writing top-down leave the same memory for every
      selection of levels, if the levels lie in different slots. */
  lemma OrdersAgree(m: Memory, p: seq<Visit>, vm: Entry)
    requires DistinctSlots(p)
    ensures WriteUp(m, p, vm) == WriteDown(m, p, vm)
  {
    // Sink PTE below PMD, PUD, P4D, then swap it with PGD; go on with PMD, and so on.
    Sink(m, p, vm, PTE, PMD, PUD, P4D);
    var m3 := WriteLevel(WriteLevel(WriteLevel(m, p, vm, PMD), p, vm, PUD), p, vm, P4D);
    Swap(m3, p, vm, PTE, PGD);
    Sink(m, p, vm, PMD, PUD, P4D, PGD);
    var m2 := WriteLevel(m, p, vm, PUD);
    Swap(m2, p, vm, P4D, PGD);
    Swap(m, p, vm, PUD, PGD);
    Swap(WriteLevel(m, p, vm, PGD), p, vm, PUD, P4D);
  }

  // ---- What an update leaves in memory -------------------------------------------------

  /** The level written at an address, if any. */
  ghost predicate Writes(p: seq<Visit>, vm: Entry, level: Level, x: nat) {
    level in vm.valid && SlotOf(p, level) == Some(x)
  }

  lemma WriteLevelAt(m: Memory, p: seq<Visit>, vm: Entry, level: Level, x: nat)
    ensures var m' := WriteLevel(m, p, vm, level);
            m'.Keys == m.Keys && (x in m ==> m'[x] == if Writes(p, vm, level, x) then vm.Get(level) else m[x])
  {
  }

  /** An update changes no word but the selected slots of the walk. */
  lemma UpdateFrame(m: Memory, p: seq<Visit>, vm: Entry, x: nat)
    requires forall level :: !Writes(p, vm, level, x)
    ensures WriteUp(m, p, vm).Keys == m.Keys && Read(WriteUp(m, p, vm), x) == Read(m, x)
  {
    var m1 := WriteLevel(m, p, vm, PTE);
    var m2 := WriteLevel(m1, p, vm, PMD);
    var m3 := WriteLevel(m2, p, vm, PUD);
    var m4 := WriteLevel(m3, p, vm, P4D);
    WriteLevelAt(m, p, vm, PTE, x);
    WriteLevelAt(m1, p, vm, PMD, x);
    WriteLevelAt(m2, p, vm, PUD, x);
    WriteLevelAt(m3, p, vm, P4D, x);
    WriteLevelAt(m4, p, vm, PGD, x);
  }

  /** An update leaves the new value in every selected slot. */
  lemma UpdateWrites(m: Memory, p: seq<Visit>, vm: Entry, level: Level, x: nat)
    requires DistinctSlots(p) && Writes(p, vm, level, x) && x in m
    ensures x in WriteUp(m, p, vm) && WriteUp(m, p, vm)[x] == vm.Get(level)
  {
    assert forall l :: Writes(p, vm, l, x) ==> l == level;
    var m1 := WriteLevel(m, p, vm, PTE);
    var m2 := WriteLevel(m1, p, vm, PMD);
    var m3 := WriteLevel(m2, p, vm, PUD);
    var m4 := WriteLevel(m3, p, vm, P4D);
    WriteLevelAt(m, p, vm, PTE, x);
    WriteLevelAt(m1, p, vm, PMD, x);
    WriteLevelAt(m2, p, vm, PUD, x);
    WriteLevelAt(m3, p, vm, P4D, x);
    WriteLevelAt(m4, p, vm, PGD, x);
  }

  // ---- Reading back ---------------------------------------------------------------------

  /** The same visits with the words another memory has in their slots. */
  function Reread(p: seq<Visit>, m: Memory): seq<Visit> {
    if p == [] then [] else [p[0].(entry := Read(m, p[0].slot))] + Reread(p[1..], m)
  }

  predicate KeepsCourse(rules: Rules, level: Level, e: Word, e': Word) {
    && rules.descends(level, e) == rules.descends(level, e')
    && (rules.descends(level, e) ==> rules.table(e) == rules.table(e'))
  }

  /** A walk takes the same course in a memory where the entries above the page table still
      lead to the same tables. */
  lemma {:induction false} PathReread(rules: Rules, m: Memory, m': Memory, table: nat, a: nat, levels: Levels)
    requires Ranked(levels)
    requires forall v :: v in Path(rules, m, table, a, levels) && v.level != PTE
                         ==> KeepsCourse(rules, v.level, v.entry, Read(m', v.slot))
    ensures Path(rules, m', table, a, levels) == Reread(Path(rules, m, table, a, levels), m')
    decreases levels
  {
    if levels.More? {
      var p := Path(rules, m, table, a, levels);
      PathStep(rules, m, table, a, levels);
      PathStep(rules, m', table, a, levels);
      assert p[0] in p;
      if levels.level != PTE && rules.descends(levels.level, p[0].entry) {
        assert forall v :: v in p[1..] ==> v in p;
        PathReread(rules, m, m', rules.table(p[0].entry), a, levels.rest);
      }
    }
  }

  lemma {:induction false} RereadLevels(p: seq<Visit>, m: Memory)
    ensures LevelsIn(Reread(p, m)) == LevelsIn(p)
  {
    if p != [] {
      RereadLevels(p[1..], m);
      assert Reread(p, m)[1..] == Reread(p[1..], m);
    }
  }

  lemma {:induction false} RereadVisit(p: seq<Visit>, m: Memory, v: Visit)
    requires v in p
    ensures v.(entry := Read(m, v.slot)) in Reread(p, m)
  {
    if v != p[0] {
      RereadVisit(p[1..], m, v);
    }
  }

  /** Each level of a walk has one slot. */
  lemma {:induction false} SlotOfVisit(rules: Rules, m: Memory, table: nat, a: nat, levels: Levels, v: Visit)
    requires Ranked(levels) && v in Path(rules, m, table, a, levels)
    ensures SlotOf(Path(rules, m, table, a, levels), v.level) == Some(v.slot)
    decreases levels
  {
    var p := Path(rules, m, table, a, levels);
    PathStep(rules, m, table, a, levels);
    if v != p[0] {
      var below := rules.table(p[0].entry);
      LevelOfVisit(p[1..], v);
      PathLevels(rules, m, below, a, levels.rest, v.level);
      SlotOfVisit(rules, m, below, a, levels.rest, v);
    }
  }

  lemma {:induction false} VisitOfSlot(p: seq<Visit>, level: Level) returns (v: Visit)
    requires SlotOf(p, level).Some?
    ensures v in p && v.level == level && v.slot == SlotOf(p, level).value
  {
    v := p[0];
    if v.level != level {
      v := VisitOfSlot(p[1..], level);
    }
  }

  /** Visits as a walk of a memory has them: each level has one slot, and the entries are its words. */
  ghost predicate ReadFrom(p: seq<Visit>, m: Memory) {
    forall v :: v in p ==> SlotOf(p, v.level) == Some(v.slot) && v.entry == Read(m, v.slot)
  }

  lemma PathReadFrom(rules: Rules, m: Memory, table: nat, a: nat, levels: Levels)
    requires Ranked(levels)
    ensures ReadFrom(Path(rules, m, table, a, levels), m)
  {
    forall v | v in Path(rules, m, table, a, levels)
      ensures SlotOf(Path(rules, m, table, a, levels), v.level) == Some(v.slot) && v.entry == Read(m, v.slot)
    {
      SlotOfVisit(rules, m, table, a, levels, v);
      VisitShape(rules, m, table, a, levels, v);
    }
  }

  lemma WalkReadFrom(w: Walker, m: Memory, root: nat, a: nat)
    requires Ranked(w.levels)
    ensures ReadFrom(Walk(w, m, root, a), m)
  {
    if root != 0 {
      PathReadFrom(w.rules, m, root, a, w.levels);
    }
  }

  lemma ReportedReadFrom(arch: Arch, p: seq<Visit>, m: Memory)
    requires ReadFrom(p, m)
    ensures ReadFrom(Reported(arch, p), m)
  {
  }

  lemma BehindReadFrom(arch: Arch, d: Definition, m: Memory, root: nat, a: nat)
    ensures ReadFrom(Behind(arch, d, m, root, a), m)
  {
    LevelsAreRanked(d);
    WalkReadFrom(UserWalker(arch, d), m, Even(root), a);
    ReportedReadFrom(arch, Walk(UserWalker(arch, d), m, Even(root), a), m);
  }

  /** The word in a visited slot after an update. */
  lemma WrittenVisit(m: Memory, p: seq<Visit>, vm: Entry, v: Visit)
    requires ReadFrom(p, m) && DistinctSlots(p) && v in p
    requires v.level in vm.valid ==> v.slot in m
    ensures Read(WriteUp(m, p, vm), v.slot) == if v.level in vm.valid then vm.Get(v.level) else v.entry
  {
    if v.level in vm.valid {
      UpdateWrites(m, p, vm, v.level, v.slot);
    } else {
      UpdateFrame(m, p, vm, v.slot);
    }
  }

  /** The slots of a walk are distinct, the selected ones are writable, and the selected upper
      entries lead where the old ones led: to the same table, or to none. */
  ghost predicate KeepsWalk(rules: Rules, p: seq<Visit>, m: Memory, vm: Entry) {
    && DistinctSlots(p)
    && (forall v :: v in p && v.level in vm.valid ==> v.slot in m)
    && (forall v :: v in p && v.level in vm.valid && v.level != PTE ==>
                      KeepsCourse(rules, v.level, v.entry, vm.Get(v.level)))
  }

  /** Then a walk takes the same course after the update. */
  lemma WrittenPath(rules: Rules, m: Memory, table: nat, a: nat, levels: Levels, vm: Entry)
    requires Ranked(levels) && KeepsWalk(rules, Path(rules, m, table, a, levels), m, vm)
    ensures var p := Path(rules, m, table, a, levels);
            var m' := WriteUp(m, p, vm);
            Path(rules, m', table, a, levels) == Reread(p, m')
  {
    var p := Path(rules, m, table, a, levels);
    var m' := WriteUp(m, p, vm);
    PathReadFrom(rules, m, table, a, levels);
    forall v | v in p && v.level != PTE
      ensures KeepsCourse(rules, v.level, v.entry, Read(m', v.slot))
    {
      WrittenVisit(m, p, vm, v);
    }
    PathReread(rules, m, m', table, a, levels);
  }

  /** The update this library makes: it writes what its own walk reported. */
  function UpdatedMemory(arch: Arch, d: Definition, m: Memory, root: nat, a: nat, vm: Entry): Memory {
    WriteUp(m, Behind(arch, d, m, root, a), vm)
  }

  /** An update that keeps the walk it reported, and a root entry that stays present. The upper
      entries do so if they keep their present bit, size bit and frame. */
  ghost predicate Editable(arch: Arch, d: Definition, m: Memory, root: nat, a: nat, vm: Entry) {
    var p := Behind(arch, d, m, root, a);
    KeepsWalk(UserWalker(arch, d).rules, p, m, vm) && (PGD in vm.valid && p != [] ==> Present(arch, vm.pgd))
  }

  lemma UpdatedEntry(arch: Arch, d: Definition, m: Memory, root: nat, a: nat, vm: Entry, v: Visit)
    requires Editable(arch, d, m, root, a, vm) && v in Behind(arch, d, m, root, a)
    ensures Read(UpdatedMemory(arch, d, m, root, a, vm), v.slot) ==
            if v.level in vm.valid then vm.Get(v.level) else v.entry
  {
    BehindReadFrom(arch, d, m, root, a);
    WrittenVisit(m, Behind(arch, d, m, root, a), vm, v);
  }

  /** A walk that is reported is reported again after an update that keeps it. */
  lemma UpdatedReport(arch: Arch, w: Walker, m: Memory, root: nat, a: nat, vm: Entry)
    requires Ranked(w.levels) && w.levels.More? && Reported(arch, Walk(w, m, root, a)) != []
    requires KeepsWalk(w.rules, Walk(w, m, root, a), m, vm)
    requires w.levels.level in vm.valid ==> Present(arch, vm.Get(w.levels.level))
    ensures var p := Walk(w, m, root, a);
            var m' := WriteUp(m, p, vm);
            Reported(arch, Walk(w, m', root, a)) == Reread(p, m')
  {
    var p := Walk(w, m, root, a);
    PathStep(w.rules, m, root, a, w.levels);
    assert p[0] in p;
    PathReadFrom(w.rules, m, root, a, w.levels);
    WrittenVisit(m, p, vm, p[0]);
    WrittenPath(w.rules, m, root, a, w.levels, vm);
  }

  /** The walk after an update reports the same slots. */
  lemma UpdatedBehind(arch: Arch, d: Definition, m: Memory, root: nat, a: nat, vm: Entry)
    requires Editable(arch, d, m, root, a, vm)
    ensures var m' := UpdatedMemory(arch, d, m, root, a, vm);
            Behind(arch, d, m', root, a) == Reread(Behind(arch, d, m, root, a), m')
  {
    if Behind(arch, d, m, root, a) == [] {
      assert WriteUp(m, [], vm) == m;
    } else {
      LevelsAreRanked(d);
      UpdatedReport(arch, UserWalker(arch, d), m, Even(root), a, vm);
    }
  }

  lemma FirstIsPgd(arch: Arch, d: Definition, m: Memory, root: nat, a: nat)
    requires root != 0
    ensures var p := Walk(UserWalker(arch, d), m, root, a); p != [] && p[0].level == PGD
  {
    PathStep(UserWalker(arch, d).rules, m, root, a, LevelsOf(d));
  }

  /** A result with exactly the selected valid levels replaced. */
  function Overlay(r: Entry, vm: Entry): Entry {
    r.(pgd := Chosen(r, vm, PGD), p4d := Chosen(r, vm, P4D), pud := Chosen(r, vm, PUD), pmd := Chosen(r, vm, PMD),
       pte := Chosen(r, vm, PTE))
  }

  function Chosen(r: Entry, vm: Entry, level: Level): Word {
    if level in r.valid && level in vm.valid then vm.Get(level) else r.Get(level)
  }

  /** A level of the result after an update. */
  lemma UpdatedField(arch: Arch, d: Definition, m: Memory, root: nat, pid: int, a: nat, vm: Entry, level: Level)
    requires Editable(arch, d, m, root, a, vm) && HasLevel(LevelsOf(d), level)
    ensures Resolved(arch, d, UpdatedMemory(arch, d, m, root, a, vm), root, pid, a).Get(level)
         == Chosen(Resolved(arch, d, m, root, pid, a), vm, level)
  {
    var m' := UpdatedMemory(arch, d, m, root, a, vm);
    var p := Behind(arch, d, m, root, a);
    UpdatedBehind(arch, d, m, root, a, vm);
    ResolvedValid(arch, d, m, root, pid, a);
    RereadLevels(p, m');
    if level in LevelsIn(p) {
      var v := VisitOfLevel(p, level);
      UpdatedEntry(arch, d, m, root, a, vm, v);
      RereadVisit(p, m', v);
      ResolvedEntry(arch, d, m, root, pid, a, v);
      ResolvedEntry(arch, d, m', root, pid, a, v.(entry := Read(m', v.slot)));
    } else {
      UnreadField(arch, d, m, root, pid, a, level);
      UnreadField(arch, d, m', root, pid, a, level);
    }
  }

  lemma UnreadField(arch: Arch, d: Definition, m: Memory, root: nat, pid: int, a: nat, level: Level)
    requires level !in LevelsIn(Behind(arch, d, m, root, a)) && HasLevel(LevelsOf(d), level)
    ensures Resolved(arch, d, m, root, pid, a).Get(level) == {}
  {
    LevelsAreRanked(d);
    RecordKeeps(Blank(pid, a), Behind(arch, d, m, root, a), level);
  }

  /** Resolving after an update with any mask returns the walk from before, with exactly the selected
      valid levels replaced and the folded levels copied from those. */
  lemma ReadBack(arch: Arch, d: Definition, m: Memory, root: nat, pid: int, a: nat, vm: Entry)
    requires Editable(arch, d, m, root, a, vm)
    ensures Resolved(arch, d, UpdatedMemory(arch, d, m, root, a, vm), root, pid, a)
         == Fold(arch, d, Overlay(Resolved(arch, d, m, root, pid, a), vm))
  {
    var m' := UpdatedMemory(arch, d, m, root, a, vm);
    var before, after := Resolved(arch, d, m, root, pid, a), Resolved(arch, d, m', root, pid, a);
    forall level | HasLevel(LevelsOf(d), level)
      ensures after.Get(level) == Chosen(before, vm, level)
    {
      UpdatedField(arch, d, m, root, pid, a, vm, level);
    }
    UpdatedFrame(arch, d, m, root, pid, a, vm);
    RealLevels(d);
    FoldsAlike(arch, d, after, Overlay(before, vm));
  }

  /** An entry keeps its present bit, its size bit and its frame. */
  predicate KeepsLink(arch: Arch, e: Word, e': Word) {
    && Present(arch, e) == Present(arch, e') && UserTable(arch, e) == UserTable(arch, e')
    && (arch.X86? ==> Large(e) == Large(e'))
  }

  /** In bits: on x86 bits 0, 7 and 12 to 39 stay; on aarch64 bits 12 to 47 stay, and whether bits 0 and 1
      are both set. All other bits are free. */
  lemma KeepsLinkMeans(arch: Arch, e: Word, e': Word)
    ensures KeepsLink(arch, e, e') <==>
            if arch.X86? then forall b: Bit :: b == 0 || b == 7 || 12 <= b < 40 ==> (b in e <==> b in e')
            else ({0, 1} <= e <==> {0, 1} <= e') && forall b: Bit :: 12 <= b < 48 ==> (b in e <==> b in e')
  {
    FieldIsBits(e, e', 12, if arch.X86? then 28 else 36);
  }

  /** The selected slots are distinct and writable, and the selected upper entries keep their links. */
  ghost predicate KeepsLinks(arch: Arch, p: seq<Visit>, m: Memory, vm: Entry) {
    && DistinctSlots(p)
    && (forall v :: v in p && v.level in vm.valid ==> v.slot in m)
    && (forall v :: v in p && v.level in vm.valid && v.level != PTE ==> KeepsLink(arch, v.entry, vm.Get(v.level)))
  }

  /** So an update that keeps the links of the entries it replaces is read back. */
  lemma KeptLinksReadBack(arch: Arch, d: Definition, m: Memory, root: nat, pid: int, a: nat, vm: Entry)
    requires KeepsLinks(arch, Behind(arch, d, m, root, a), m, vm)
    ensures Editable(arch, d, m, root, a, vm)
    ensures Resolved(arch, d, UpdatedMemory(arch, d, m, root, a, vm), root, pid, a)
         == Fold(arch, d, Overlay(Resolved(arch, d, m, root, pid, a), vm))
  {
    var p := Behind(arch, d, m, root, a);
    if p != [] {
      FirstIsPgd(arch, d, m, Even(root), a);
      assert p[0] in p && p[0].level == PGD;
    }
    ReadBack(arch, d, m, root, pid, a, vm);
  }

  /** The rest of the result after an update. */
  lemma UpdatedFrame(arch: Arch, d: Definition, m: Memory, root: nat, pid: int, a: nat, vm: Entry)
    requires Editable(arch, d, m, root, a, vm)
    ensures var before := Resolved(arch, d, m, root, pid, a);
            var after := Resolved(arch, d, UpdatedMemory(arch, d, m, root, a, vm), root, pid, a);
            after.valid == before.valid && after.pid == before.pid && after.vaddr == before.vaddr
  {
    var m' := UpdatedMemory(arch, d, m, root, a, vm);
    UpdatedBehind(arch, d, m, root, a, vm);
    ResolvedValid(arch, d, m, root, pid, a);
    ResolvedValid(arch, d, m', root, pid, a);
    RereadLevels(Behind(arch, d, m, root, a), m');
    RecordAsked(Blank(pid, a), Behind(arch, d, m, root, a));
    RecordAsked(Blank(pid, a), Behind(arch, d, m', root, a));
  }

  lemma RealLevels(d: Definition)
    ensures HasLevel(LevelsOf(d), PGD) && HasLevel(LevelsOf(d), PTE)
    ensures d.hasP4d ==> HasLevel(LevelsOf(d), P4D)
    ensures d.hasPud ==> HasLevel(LevelsOf(d), PUD)
    ensures d.hasPmd ==> HasLevel(LevelsOf(d), PMD)
  {
    TailLevels(d, PTE);
    TailLevels(d, PUD);
    TailLevels(d, PMD);
  }

  /** Results that agree on all levels that are not folded have the same folded levels. */
  lemma FoldsAlike(arch: Arch, d: Definition, folded: Entry, r: Entry)
    requires folded == Fold(arch, d, folded) && folded.valid == r.valid && folded.pid == r.pid
    requires folded.vaddr == r.vaddr
    requires folded.pgd == r.pgd && folded.pte == r.pte && (d.hasP4d ==> folded.p4d == r.p4d)
    requires (d.hasPud ==> folded.pud == r.pud) && (d.hasPmd ==> folded.pmd == r.pmd)
    ensures folded == Fold(arch, d, r)
  {
  }

  // ---- The slots an update computes from the entries it resolved --------------------------------

  /** A level directly below another. */
  predicate Follows(levels: Levels, l: Level, l': Level) {
    levels.More? && levels.rest.More? &&
    ((levels.level == l && levels.rest.level == l') || Follows(levels.rest, l, l'))
  }

  /** Every visit but the first lies in the table that the visit above it names. */
  lemma {:induction false} ParentOf(rules: Rules, m: Memory, table: nat, a: nat, levels: Levels, v: Visit)
      returns (u: Visit)
    requires v in Path(rules, m, table, a, levels) && v != Path(rules, m, table, a, levels)[0]
    ensures u in Path(rules, m, table, a, levels)
    ensures Follows(levels, u.level, v.level) && v.table == rules.table(u.entry) && rules.descends(u.level, u.entry)
    decreases levels
  {
    PathStep(rules, m, table, a, levels);
    var p := Path(rules, m, table, a, levels);
    var below := rules.table(p[0].entry);
    if levels.rest.More? {
      PathStep(rules, m, below, a, levels.rest);
    }
    if v == p[1] {
      u := p[0];
    } else {
      u := ParentOf(rules, m, below, a, levels.rest, v);
    }
  }

  /** The level above each level of a definition, folded levels left out. */
  function UpperLevel(d: Definition, level: Level): Level {
    match level
    case PTE => LeafLevel(d)
    case PMD => PudSource(d)
    case PUD => P4dSource(d)
    case _ => PGD
  }

  lemma UpperLevelFollows(d: Definition, l: Level, l': Level)
    requires Follows(LevelsOf(d), l, l')
    ensures l == UpperLevel(d, l')
  {
    assert !Follows(FromPt(d), l, l');
    assert Follows(FromPmd(d), l, l') ==> l' == PTE && l == PMD && d.hasPmd;
    assert Follows(FromPud(d), l, l') ==> l == UpperLevel(d, l');
    assert Follows(FromP4d(d), l, l') ==> l == UpperLevel(d, l');
  }

  /** The index the library computes for a level. */
  function LibraryIndex(d: Definition, level: Level, a: nat): nat {
    match level
    case PGD => ShiftIndex(a, d.pageOffset + d.ptEntries + d.pmdEntries + d.pudEntries + d.p4dEntries, d.pgdEntries)
    case P4D => ShiftIndex(a, d.pageOffset + d.ptEntries + d.pmdEntries + d.pudEntries, d.p4dEntries)
    case PUD => ShiftIndex(a, d.pageOffset + d.ptEntries + d.pmdEntries, d.pudEntries)
    case PMD => ShiftIndex(a, d.pageOffset + d.ptEntries, d.pmdEntries)
    case PTE => ShiftIndex(a, d.pageOffset, d.ptEntries)
  }

  lemma LibraryIndexAt(d: Definition, level: Level, a: nat)
    requires HasLevel(LevelsOf(d), level)
    ensures IndexAt(LevelsOf(d), level, a) == LibraryIndex(d, level, a)
  {
    TailLevels(d, level);
    assert level == PTE ==> IndexAt(FromPt(d), level, a) == LibraryIndex(d, level, a);
    assert HasLevel(FromPmd(d), level) ==> IndexAt(FromPmd(d), level, a) == LibraryIndex(d, level, a);
    assert HasLevel(FromPud(d), level) ==> IndexAt(FromPud(d), level, a) == LibraryIndex(d, level, a);
    assert HasLevel(FromP4d(d), level) ==> IndexAt(FromP4d(d), level, a) == LibraryIndex(d, level, a);
  }

  /** The field of the result from which the library takes the table of a level. */
  function FieldAbove(level: Level): Level {
    match level
    case PTE => PMD
    case PMD => PUD
    case PUD => P4D
    case _ => PGD
  }

  /** The address at which the library writes a level. */
  function LibrarySlot(arch: Arch, d: Definition, current: Entry, root: nat, a: nat, level: Level): nat {
    (if level == PGD then Even(root) else UserTable(arch, current.Get(FieldAbove(level)))) +
    8 * LibraryIndex(d, level, a)
  }

  /** The entry that names the table of a visit. */
  lemma ParentEntry(arch: Arch, d: Definition, m: Memory, root: nat, a: nat, v: Visit) returns (u: Visit)
    requires v in Walk(UserWalker(arch, d), m, root, a) && v.level != PGD
    ensures u in Walk(UserWalker(arch, d), m, root, a)
    ensures u.level == UpperLevel(d, v.level) && v.table == UserTable(arch, u.entry)
    ensures UserDescends(arch, u.level, u.entry, LeafLevel(d))
  {
    FirstIsPgd(arch, d, m, root, a);
    u := ParentOf(UserRules(arch, LeafLevel(d)), m, root, a, LevelsOf(d), v);
    UpperLevelFollows(d, u.level, v.level);
  }

  lemma PgdIsFirst(arch: Arch, d: Definition, m: Memory, root: nat, a: nat, v: Visit)
    requires v in Walk(UserWalker(arch, d), m, root, a) && v.level == PGD
    ensures v.table == root
  {
    PathStep(UserRules(arch, LeafLevel(d)), m, root, a, LevelsOf(d));
    var p := Walk(UserWalker(arch, d), m, root, a);
    LevelsAreRanked(d);
    if v != p[0] {
      LevelOfVisit(p[1..], v);
      PathLevels(UserRules(arch, LeafLevel(d)), m, UserTable(arch, p[0].entry), a, LevelsOf(d).rest, PGD);
    }
  }

  /** The slot of a visit, from its table and the index the library computes. */
  lemma VisitSlot(arch: Arch, d: Definition, m: Memory, root: nat, a: nat, v: Visit)
    requires v in Walk(UserWalker(arch, d), m, root, a)
    ensures v.slot == v.table + 8 * LibraryIndex(d, v.level, a)
    ensures SlotOf(Walk(UserWalker(arch, d), m, root, a), v.level) == Some(v.slot)
  {
    LevelsAreRanked(d);
    SlotOfVisit(UserRules(arch, LeafLevel(d)), m, root, a, LevelsOf(d), v);
    VisitShape(UserRules(arch, LeafLevel(d)), m, root, a, LevelsOf(d), v);
    LibraryIndexAt(d, v.level, a);
  }

  /** The field above a level holds the entry above it, folded or not, if that entry is present. */
  lemma FieldHoldsParent(arch: Arch, d: Definition, r: Entry, level: Level)
    requires r == Fold(arch, d, r) && level != PGD && Present(arch, r.Get(UpperLevel(d, level)))
    requires level == P4D ==> d.hasP4d
    ensures r.Get(FieldAbove(level)) == r.Get(UpperLevel(d, level))
  {
  }

  lemma ReportedIsReal(arch: Arch, d: Definition, m: Memory, root: nat, a: nat, v: Visit)
    requires v in Behind(arch, d, m, root, a)
    ensures HasLevel(LevelsOf(d), v.level)
  {
    BehindStart(arch, d, m, root, a);
    LevelsAreRanked(d);
    VisitShape(UserRules(arch, LeafLevel(d)), m, Even(root), a, LevelsOf(d), v);
  }

  lemma ReportedParent(arch: Arch, d: Definition, m: Memory, root: nat, a: nat, v: Visit) returns (u: Visit)
    requires v in Behind(arch, d, m, root, a) && v.level != PGD
    ensures u in Behind(arch, d, m, root, a) && u.level == UpperLevel(d, v.level)
    ensures v.table == UserTable(arch, u.entry) && Present(arch, u.entry)
  {
    u := ParentEntry(arch, d, m, Even(root), a, v);
  }

  lemma TableFromField(arch: Arch, d: Definition, m: Memory, root: nat, pid: int, a: nat, v: Visit)
    requires v in Behind(arch, d, m, root, a) && v.level != PGD
    ensures v.table == UserTable(arch, Resolved(arch, d, m, root, pid, a).Get(FieldAbove(v.level)))
  {
    var u := ReportedParent(arch, d, m, root, a, v);
    ResolvedEntry(arch, d, m, root, pid, a, u);
    ReportedIsReal(arch, d, m, root, a, v);
    LevelsAreRanked(d);
    FieldHoldsParent(arch, d, Resolved(arch, d, m, root, pid, a), v.level);
  }

  lemma PgdIsReported(arch: Arch, d: Definition, m: Memory, root: nat, a: nat)
    requires Behind(arch, d, m, root, a) != []
    ensures PGD in LevelsIn(Behind(arch, d, m, root, a))
  {
    FirstIsPgd(arch, d, m, Even(root), a);
  }

  lemma NoSlotWithoutLevel(p: seq<Visit>, level: Level)
    requires level !in LevelsIn(p)
    ensures SlotOf(p, level) == None
  {
    if SlotOf(p, level).Some? {
      var v := VisitOfSlot(p, level);
      LevelOfVisit(p, v);
    }
  }

  lemma SlotOfReported(arch: Arch, d: Definition, m: Memory, root: nat, pid: int, a: nat, v: Visit)
    requires v in Behind(arch, d, m, root, a)
    requires var r := Resolved(arch, d, m, root, pid, a); PGD in r.valid && v.level in r.valid
    ensures v.slot == LibrarySlot(arch, d, Resolved(arch, d, m, root, pid, a), root, a, v.level)
    ensures SlotOf(Behind(arch, d, m, root, a), v.level) == Some(v.slot)
  {
    VisitSlot(arch, d, m, Even(root), a, v);
    if v.level == PGD {
      PgdIsFirst(arch, d, m, Even(root), a, v);
    } else {
      TableFromField(arch, d, m, root, pid, a, v);
    }
  }

  /** The library writes each level in the slot where its walk read it. */
  lemma SlotFromFields(arch: Arch, d: Definition, m: Memory, root: nat, pid: int, a: nat, level: Level)
    ensures var r := Resolved(arch, d, m, root, pid, a);
            SlotOf(Behind(arch, d, m, root, a), level) ==
            if level in r.valid then Some(LibrarySlot(arch, d, r, root, a, level)) else None
  {
    var p := Behind(arch, d, m, root, a);
    ResolvedValid(arch, d, m, root, pid, a);
    if level in LevelsIn(p) {
      var v := VisitOfLevel(p, level);
      PgdIsReported(arch, d, m, root, a);
      SlotOfReported(arch, d, m, root, pid, a, v);
    } else {
      NoSlotWithoutLevel(p, level);
    }
  }
}
