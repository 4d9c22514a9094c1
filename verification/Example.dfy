/** A concrete forest: one root, one page, four tables in frames 1 to 4. It shows that tree-shaped
    tables with a mapped page exist. */
module Example {
  import opened Paging
  import opened Radix
  import opened Tree
  import opened Resolve
  import opened Update
  import opened Kernel
  import opened Agreement
  import opened Tlb

  /** The words of the four frames: entries that name frames 2, 3 and 4, and a present page. */
  const TO_TWO: Word := {0, 13}
  const TO_THREE: Word := {0, 12, 13}
  const TO_FOUR: Word := {0, 14}
  const PAGE: Word := {0}

  function Words(): Memory {
    map[4096 := TO_TWO, 8192 := TO_THREE, 12288 := TO_FOUR, 16384 := PAGE]
  }

  function Owners(): map<nat, Owner> {
    map[4096 := Owner(4096, PGD, []), 8192 := Owner(4096, PUD, [0]),
        12288 := Owner(4096, PMD, [0, 0]), 16384 := Owner(4096, PTE, [0, 0, 0])]
  }

  function OneTree(d: Definition): Forest {
    Forest(UserWalker(X86, d), 4096, 512, {4096}, 0x1_0000_0000_0000, Owners())
  }

  /** The frame of an entry whose frame bits above bit 14 are clear. */
  lemma SmallFrame(e: Word)
    requires e * Bits(15, 40) == {}
    ensures UserTable(X86, e) ==
            4096 * ((if 12 in e then 1 else 0) + (if 13 in e then 2 else 0) + (if 14 in e then 4 else 0))
  {
    ValueSplits(e, 12, 3, 25);
    ValueIsZero(e, 15, 25);
    assert Pow2(0) == 1 && Pow2(1) == 2 && Pow2(2) == 4;
    assert Value(e, 12, 1) == Value(e, 12, 0) + if 12 in e then 1 else 0;
    assert Value(e, 12, 2) == Value(e, 12, 1) + if 13 in e then 2 else 0;
    assert Value(e, 12, 3) == Value(e, 12, 2) + if 14 in e then 4 else 0;
  }

  /** Only the first slot of each frame holds an entry. */
  lemma WordsInFrame(m: Memory, frame: nat, i: nat)
    requires m == Words() && 1 <= frame <= 4 && 0 < i < 512
    ensures Read(m, 4096 * frame + 8 * i) == {}
  {
  }

  /** Each frame leads to the next. */
  lemma FrameChain(m: Memory)
    requires m == Words()
    ensures UserTable(X86, Read(m, 4096)) == 8192
    ensures UserTable(X86, Read(m, 8192)) == 12288
    ensures UserTable(X86, Read(m, 12288)) == 16384
  {
    SmallFrame(TO_TWO);
    SmallFrame(TO_THREE);
    SmallFrame(TO_FOUR);
  }

  /** A walk that enters a frame at a level: the frame itself, and what its first entry leads to. */
  lemma FramePlaces(m: Memory, levels: Levels, frame: nat, next: nat, a: nat, t: Place)
    requires m == Words() && 1 <= frame <= 4 && levels.More? && levels.count == 512
    requires next == UserTable(X86, Read(m, 4096 * frame))
    requires t in Places(Path(UserRules(X86), m, 4096 * frame, a, levels))
    ensures t == Place(levels.level, 4096 * frame) ||
            (Index(levels, a) == 0 && t in Places(Path(UserRules(X86), m, next, a, levels.rest)))
  {
    PathStep(UserRules(X86), m, 4096 * frame, a, levels);
    if Index(levels, a) != 0 {
      WordsInFrame(m, frame, Index(levels, a));
      assert Places([]) == [];
    }
  }

  /** The chain of indices above each level. */
  lemma Chains(d: Definition, a: nat)
    requires !d.hasP4d && d.hasPud && d.hasPmd
    ensures Above(LevelsOf(d), PGD, a) == []
    ensures Above(LevelsOf(d), PUD, a) == [Index(LevelsOf(d), a)]
    ensures Above(LevelsOf(d), PMD, a) == [Index(LevelsOf(d), a), Index(FromPud(d), a)]
    ensures Above(LevelsOf(d), PTE, a) == [Index(LevelsOf(d), a), Index(FromPud(d), a), Index(FromPmd(d), a)]
  {
    assert Above(FromPt(d), PTE, a) == [];
    assert Above(FromPmd(d), PTE, a) == [Index(FromPmd(d), a)];
    assert Above(FromPud(d), PTE, a) == [Index(FromPud(d), a), Index(FromPmd(d), a)];
    assert Above(FromPud(d), PMD, a) == [Index(FromPud(d), a)];
  }

  lemma LowerPlaces(m: Memory, d: Definition, a: nat, t: Place)
    requires m == Words() && !d.hasP4d && d.hasPud && d.hasPmd && Pow2(d.pmdEntries) == Pow2(d.ptEntries) == 512
    requires t in Places(Path(UserRules(X86), m, 12288, a, FromPmd(d)))
    ensures t == Place(PMD, 12288) || (Index(FromPmd(d), a) == 0 && t == Place(PTE, 16384))
  {
    FrameChain(m);
    FramePlaces(m, FromPmd(d), 3, 16384, a, t);
    if t != Place(PMD, 12288) {
      var next := UserTable(X86, Read(m, 16384));
      FramePlaces(m, FromPt(d), 4, next, a, t);
      NoPlaces(m, next, a);
    }
  }

  lemma UpperPlaces(m: Memory, d: Definition, a: nat, t: Place)
    requires m == Words() && !d.hasP4d && d.hasPud && d.hasPmd && Pow2(d.pgdEntries) == Pow2(d.pudEntries) == 512
    requires t in Places(Path(UserRules(X86), m, 4096, a, LevelsOf(d)))
    ensures t == Place(PGD, 4096) ||
            (Index(LevelsOf(d), a) == 0 &&
             (t == Place(PUD, 8192) ||
              (Index(FromPud(d), a) == 0 && t in Places(Path(UserRules(X86), m, 12288, a, FromPmd(d))))))
  {
    FrameChain(m);
    FramePlaces(m, LevelsOf(d), 1, 8192, a, t);
    if t != Place(PGD, 4096) {
      FramePlaces(m, FromPud(d), 2, 12288, a, t);
    }
  }

  lemma OwnersFit(d: Definition, a: nat, t: Place)
    requires !d.hasP4d && d.hasPud && d.hasPmd
    requires
      || t == Place(PGD, 4096)
      || (t == Place(PUD, 8192) && Index(LevelsOf(d), a) == 0)
      || (t == Place(PMD, 12288) && Index(LevelsOf(d), a) == Index(FromPud(d), a) == 0)
      || (t == Place(PTE, 16384) && Index(LevelsOf(d), a) == Index(FromPud(d), a) == Index(FromPmd(d), a) == 0)
    ensures OneTree(d).Owned(4096, a, t)
  {
    Chains(d, a);
  }

  /** Every table a walk reaches is owned by the path that reaches it. */
  lemma TablesOwned(m: Memory, d: Definition, a: nat, t: Place)
    requires m == Words() && d == X86_64 && t in Places(Path(UserRules(X86), m, 4096, a, LevelsOf(d)))
    ensures OneTree(d).Owned(4096, a, t)
  {
    KnownPowers();
    UpperPlaces(m, d, a, t);
    if t != Place(PGD, 4096) && t != Place(PUD, 8192) {
      LowerPlaces(m, d, a, t);
    }
    OwnersFit(d, a, t);
  }

  lemma NoPlaces(m: Memory, table: nat, a: nat)
    ensures Places(Path(UserRules(X86), m, table, a, Done)) == []
  {
  }

  /** The forest is tree shaped. */
  lemma OneTreeIsShaped(m: Memory, d: Definition)
    requires m == Words() && d == X86_64
    ensures OneTree(d).Shaped(m)
  {
    X86Layout();
    forall r, a, t | OneTree(d).Covers(r, a) && t in Tables(OneTree(d).walker, m, r, a)
      ensures OneTree(d).Owned(r, a, t)
    {
      TablesOwned(m, d, a, t);
    }
  }

  /** A walk of address zero ends where it ends in the table below. */
  lemma EndsBelow(m: Memory, table: nat, levels: Levels, last: Visit)
    requires levels.More? && UserDescends(X86, levels.level, Read(m, table))
    requires var p := Path(UserRules(X86), m, UserTable(X86, Read(m, table)), 0, levels.rest);
             p != [] && p[|p| - 1] == last
    ensures var p := Path(UserRules(X86), m, table, 0, levels); p != [] && p[|p| - 1] == last
  {
    StepAtZero(UserRules(X86), m, table, levels);
  }

  /** It covers all addresses of its root, and its first page has the entry in the fourth frame. */
  lemma OneTreeIsMapped(m: Memory, d: Definition, a: nat)
    requires m == Words() && d == X86_64
    ensures OneTree(d).Covers(4096, a)
    ensures Pte(OneTree(d).walker, m, 4096, 0) == Some(Visit(PTE, 16384, 16384, PAGE)) && 16384 in m
  {
    X86Layout();
    PageBaseIsAddressBits(LevelsOf(d), 4096, a);
    FirstEntry(m, d);
  }

  lemma FirstEntry(m: Memory, d: Definition)
    requires m == Words() && FourLevels(d)
    ensures LastPte(Path(UserRules(X86), m, 4096, 0, LevelsOf(d))) == Some(Visit(PTE, 16384, 16384, PAGE))
  {
    FrameChain(m);
    StepAtZero(UserRules(X86), m, 16384, FromPt(d));
    EndsBelow(m, 12288, FromPmd(d), Visit(PTE, 16384, 16384, PAGE));
    EndsBelow(m, 8192, FromPud(d), Visit(PTE, 16384, 16384, PAGE));
    EndsBelow(m, 4096, LevelsOf(d), Visit(PTE, 16384, 16384, PAGE));
  }

  // ---- Updates that leave different memories ------------------------------------------------

  /** One step of a walk of address zero. */
  lemma StepAtZero(rules: Rules, m: Memory, table: nat, levels: Levels)
    requires levels.More?
    ensures var e := Read(m, table);
            Path(rules, m, table, 0, levels) ==
            [Visit(levels.level, table, table, e)] +
            if rules.descends(levels.level, e) then Path(rules, m, rules.table(e), 0, levels.rest) else []
  {
    PathStep(rules, m, table, 0, levels);
  }

  lemma ZeroRootWalk(d: Definition, m: Memory, root: nat)
    requires FourLevels(d) && root % 2 == 0 && root != 0 && Read(m, root) == {}
    ensures Comparable(d, m, root, 0)
    ensures KernelPath(d, m, root, 0) == [Visit(PGD, root, root, {})]
  {
    StepAtZero(UserRules(X86), m, root, LevelsOf(d));
    ComparableWalks(d, m, root, 0);
  }

  /** A root entry that is zero: only the kernel writes it. */
  lemma ZeroRootDiffers(d: Definition, m: Memory, root: nat, vm: Entry)
    requires FourLevels(d) && m == map[root := {}] && root == 4096 && vm == Blank(0, 0).(pgd := {0}, valid := {PGD})
    ensures KernelWrite(m, ResolvedVm(d, m, root, 0), vm) != UpdatedMemory(X86, d, m, root, 0, vm)
  {
    ZeroRootWalk(d, m, root);
    var v := Visit(PGD, root, root, {});
    assert forall l :: SlotOf([v], l) == if l == PGD then Some(root) else None;
    UpdatesAgree(d, m, root, 0, vm);
    assert v in [v] && !LeftAlike(v, vm);
  }

  /** A chain of tables down to a PMD that is zero. */
  predicate ZeroPmd(m: Memory, pgd: Word, pud: Word) {
    && m == map[4096 := pgd, 8192 := pud, 12288 := {}]
    && UserDescends(X86, PGD, pgd) && UserTable(X86, pgd) == 8192 && Understood(Visit(PGD, 4096, 4096, pgd))
    && UserDescends(X86, PUD, pud) && UserTable(X86, pud) == 12288 && Understood(Visit(PUD, 8192, 8192, pud))
  }

  lemma ZeroPmdWalk(d: Definition, m: Memory, root: nat, pgd: Word, pud: Word)
    requires FourLevels(d) && ZeroPmd(m, pgd, pud) && root == 4096
    ensures Walk(UserWalker(X86, d), m, root, 0) ==
            [Visit(PGD, 4096, 4096, pgd), Visit(PUD, 8192, 8192, pud), Visit(PMD, 12288, 12288, {})]
  {
    var rules := UserRules(X86);
    StepAtZero(rules, m, 12288, FromPmd(d));
    ZeroPmdBelow(rules, d, m, pud);
    StepAtZero(rules, m, 4096, LevelsOf(d));
  }

  lemma ZeroPmdBelow(rules: Rules, d: Definition, m: Memory, pud: Word)
    requires FourLevels(d) && Read(m, 8192) == pud && rules.descends(PUD, pud) && rules.table(pud) == 12288
    requires Path(rules, m, 12288, 0, FromPmd(d)) == [Visit(PMD, 12288, 12288, {})]
    ensures Path(rules, m, 8192, 0, FromPud(d)) == [Visit(PUD, 8192, 8192, pud), Visit(PMD, 12288, 12288, {})]
  {
    StepAtZero(rules, m, 8192, FromPud(d));
  }

  lemma ZeroPmdVisits(p: seq<Visit>, pgd: Visit, pud: Visit, pmd: Visit)
    requires p == [pgd, pud, pmd] && pgd.level == PGD && pud.level == PUD && pmd.level == PMD
    requires pgd.slot != pud.slot && pud.slot != pmd.slot && pgd.slot != pmd.slot
    ensures DistinctSlots(p) && forall v :: v in p ==> v == pgd || v == pud || v == pmd
  {
    assert p[1..] == [pud, pmd] && p[1..][1..] == [pmd] && [pmd][1..] == [];
    assert forall l :: SlotOf([pmd], l) == if l == PMD then Some(pmd.slot) else None;
    assert forall l :: SlotOf([pud, pmd], l) == if l == PUD then Some(pud.slot) else SlotOf([pmd], l);
    assert forall l :: SlotOf(p, l) == if l == PGD then Some(pgd.slot) else SlotOf([pud, pmd], l);
  }

  /** A PMD that is zero: only the library writes it. */
  lemma ZeroPmdDiffers(d: Definition, m: Memory, root: nat, vm: Entry, pgd: Word, pud: Word)
    requires FourLevels(d) && ZeroPmd(m, pgd, pud) && root == 4096 && vm == Blank(0, 0).(pmd := {0}, valid := {PMD})
    ensures KernelWrite(m, ResolvedVm(d, m, root, 0), vm) != UpdatedMemory(X86, d, m, root, 0, vm)
  {
    var p := Walk(UserWalker(X86, d), m, root, 0);
    var pmd := Visit(PMD, 12288, 12288, {});
    ZeroPmdWalk(d, m, root, pgd, pud);
    ZeroPmdVisits(p, Visit(PGD, 4096, 4096, pgd), Visit(PUD, 8192, 8192, pud), pmd);
    ComparableWalks(d, m, root, 0);
    UpdatesAgree(d, m, root, 0, vm);
    assert pmd == p[2] && pmd in p && pmd.slot in m && !LeftAlike(pmd, vm);
  }

  /** An entry that is present and has no flag but that. */
  lemma LowEntry(v: Visit)
    requires v.entry <= {0, 12, 13, 14} && 0 in v.entry && v.level != PTE
    ensures UserDescends(X86, v.level, v.entry) && Understood(v)
    ensures UserTable(X86, v.entry) ==
            4096 * ((if 12 in v.entry then 1 else 0) +
                    (if 13 in v.entry then 2 else 0) + (if 14 in v.entry then 4 else 0))
  {
    SmallFrame(v.entry);
  }

  /** There are such tables. */
  lemma ZeroPmdExists(m: Memory, pgd: Word, pud: Word)
    requires pgd == TO_TWO && pud == TO_THREE && m == map[4096 := pgd, 8192 := pud, 12288 := {}]
    ensures ZeroPmd(m, pgd, pud)
  {
    LowEntry(Visit(PGD, 4096, 4096, pgd));
    LowEntry(Visit(PUD, 8192, 8192, pud));
  }

  // ---- An upper-level update and the neighbour it leaves stale --------------------------------

  /** One step of a walk that uses the first entry of a table. */
  lemma StepAtFirst(rules: Rules, m: Memory, table: nat, a: nat, levels: Levels)
    requires levels.More? && Index(levels, a) == 0 && rules.descends(levels.level, Read(m, table))
    ensures Path(rules, m, table, a, levels) ==
            [Visit(levels.level, table, table, Read(m, table))] +
            Path(rules, m, rules.table(Read(m, table)), a, levels.rest)
  {
    PathStep(rules, m, table, a, levels);
  }

  /** A chain of tables that leads both pages to the PMD in the third frame. */
  predicate LeadsToPmd(rules: Rules, m: Memory) {
    && rules.descends(PGD, Read(m, 4096)) && rules.table(Read(m, 4096)) == 8192
    && rules.descends(PUD, Read(m, 8192)) && rules.table(Read(m, 8192)) == 12288
  }

  lemma ReadsPmd(rules: Rules, m: Memory, root: nat, a: nat, d: Definition) returns (v: Visit)
    requires FourLevels(d) && root == 4096 && LeadsToPmd(rules, m)
    requires Index(LevelsOf(d), a) == Index(FromPud(d), a) == Index(FromPmd(d), a) == 0
    ensures v in Path(rules, m, root, a, LevelsOf(d)) && v.level == PMD && v.slot == 12288
  {
    StepAtFirst(rules, m, root, a, LevelsOf(d));
    StepAtFirst(rules, m, 8192, a, FromPud(d));
    PathStep(rules, m, 12288, a, FromPmd(d));
    v := Path(rules, m, 12288, a, FromPmd(d))[0];
    assert v in Path(rules, m, 8192, a, FromPud(d));
  }

  /** An entry that is present and has no flag but that leads every reader to the same table. */
  lemma LowEntryForAll(level: Level, e: Word)
    requires e <= {0, 12, 13, 14} && 0 in e && (level == PGD || level == PUD)
    ensures UserDescends(X86, level, e) && X86Descends(level, e) && Frame40(e) * 4096 == UserTable(X86, e)
  {
    FrameFieldsAgree(e);
  }

  /** There are such tables. */
  lemma WordsLeadToPmd(m: Memory)
    requires m == Words()
    ensures LeadsToPmd(UserRules(X86), m) && LeadsToPmd(Cpu(X86).rules, m) && 12288 in m
  {
    FrameChain(m);
    LowEntryForAll(PGD, Read(m, 4096));
    LowEntryForAll(PUD, Read(m, 8192));
  }

  lemma FirstTwoPages(d: Definition, a: nat)
    requires d == X86_64 && (a == 0 || a == 4096)
    ensures Index(LevelsOf(d), a) == Index(FromPud(d), a) == Index(FromPmd(d), a) == 0
  {
    KnownPowers();
  }

  /** Clearing the PMD of the first page and invalidating that page leaves the translation of the second
      page stale, if it was cached: its walk reads the same PMD. */
  lemma NeighbourIsStale(d: Definition, pl: Platform, s: State, mm: nat, flushes: set<nat>)
    requires d == X86_64 && pl.cpu == Cpu(X86) && pl.forest.walker == UserWalker(X86, d)
    requires mm in pl.spaces && pl.spaces[mm] == 4096 && (mm, 4096) in s.tlb
    requires LeadsToPmd(pl.forest.walker.rules, s.mem) && LeadsToPmd(pl.cpu.rules, s.mem) && 12288 in s.mem
    ensures exists v :: v in Walk(pl.forest.walker, s.mem, 4096, 0) && v.level == PMD && v.slot == 12288
    ensures (mm, 4096) in Drop(s.tlb, flushes, 0)
    ensures Stale(pl, s.(mem := s.mem[12288 := {}], tlb := Drop(s.tlb, flushes, 0)), (mm, 4096))
  {
    FirstTwoPages(d, 0);
    FirstTwoPages(d, 4096);
    var first := ReadsPmd(pl.forest.walker.rules, s.mem, 4096, 0, d);
    var second := ReadsPmd(pl.cpu.rules, s.mem, 4096, 4096, d);
    assert second in HardwareWalk(pl, s.mem, (mm, 4096));
    ClearedEntryLeavesStale(pl, s, 12288, flushes, 0, (mm, 4096));
  }
}
