/** The library's walk: `ptedit_resolve_user_ext` fills its result structure level by level, with
    folded levels and early returns, and computes what the recursive radix lookup finds. */
module Resolve {
  import opened Paging
  import opened Radix
  import opened Tree

  /** The structure `ptedit_entry_t`; `valid` is its bitmask of levels. */
  datatype Entry = Entry(pid: int, vaddr: nat, pgd: Word, p4d: Word, pud: Word, pmd: Word, pte: Word,
                         valid: set<Level>) {

    function Get(level: Level): Word {
      match level
      case PGD => pgd
      case P4D => p4d
      case PUD => pud
      case PMD => pmd
      case PTE => pte
    }

    function Put(level: Level, x: Word): Entry {
      match level
      case PGD => this.(pgd := x)
      case P4D => this.(p4d := x)
      case PUD => this.(pud := x)
      case PMD => this.(pmd := x)
      case PTE => this.(pte := x)
    }
  }

  function Blank(pid: int, a: nat): Entry {
    Entry(pid, a, {}, {}, {}, {}, {}, {})
  }

  /** The level directly above the page tables. */
  function LeafLevel(d: Definition): Level {
    if d.hasPmd then PMD else if d.hasPud then PUD else if d.hasP4d then P4D else PGD
  }

  function UserWalker(arch: Arch, d: Definition): Walker {
    Walker(UserRules(arch, LeafLevel(d)), LevelsOf(d))
  }

  /** The visits a user walk reports: none if the first entry is not present. */
  function Reported(arch: Arch, p: seq<Visit>): seq<Visit> {
    if p != [] && Present(arch, p[0].entry) then p else []
  }

  /** One visited entry in the result. */
  function Record(r: Entry, v: Visit): Entry {
    r.(valid := r.valid + {v.level}).Put(v.level, v.entry)
  }

  function RecordAll(r: Entry, p: seq<Visit>): Entry
    decreases |p|
  {
    if p == [] then r else RecordAll(Record(r, p[0]), p[1..])
  }

  /** The folded levels of a result: each is a copy of the level above it, if that is present. */
  function Fold(arch: Arch, d: Definition, r: Entry): Entry {
    var p4d := if d.hasP4d then r.p4d else r.pgd;
    var pud := if d.hasPud then r.pud else Copied(arch, p4d);
    var pmd := if d.hasPmd then r.pmd else Copied(arch, pud);
    r.(p4d := p4d, pud := pud, pmd := pmd)
  }

  function Copied(arch: Arch, e: Word): Word {
    if Present(arch, e) then e else {}
  }

  /** A root without its lowest bit. */
  function Even(root: nat): nat {
    root - root % 2
  }

  /** The library follows the even address at or right below the stored root. */
  lemma EvenMeans(root: nat)
    ensures Even(root) % 2 == 0 && Even(root) <= root <= Even(root) + 1
    ensures 2 * (root / 2) == Even(root)
  {
  }

  /** What resolving an address returns, in terms of the recursive lookup. */
  function Resolved(arch: Arch, d: Definition, m: Memory, root: nat, pid: int, a: nat): Entry {
    Fold(arch, d, RecordAll(Blank(pid, a), Behind(arch, d, m, root, a)))
  }

  /** The visits behind a result. */
  function Behind(arch: Arch, d: Definition, m: Memory, root: nat, a: nat): seq<Visit> {
    Reported(arch, Walk(UserWalker(arch, d), m, Even(root), a))
  }

  /** What is recorded when the lookup goes on in a table with part of the result filled in. */
  function Continue(arch: Arch, d: Definition, r: Entry, m: Memory, table: nat, a: nat, levels: Levels): Entry {
    RecordAll(r, Path(UserRules(arch, LeafLevel(d)), m, table, a, levels))
  }

  lemma ContinueStep(arch: Arch, d: Definition, r: Entry, m: Memory, table: nat, a: nat, levels: Levels)
    requires levels.More?
    ensures var slot := table + 8 * Index(levels, a);
            var e := Read(m, slot);
            var r' := Record(r, Visit(levels.level, table, slot, e));
            Continue(arch, d, r, m, table, a, levels) ==
            if UserDescends(arch, levels.level, e, LeafLevel(d))
            then Continue(arch, d, r', m, UserTable(arch, e), a, levels.rest) else r'
  {
    var rules := UserRules(arch, LeafLevel(d));
    PathStep(rules, m, table, a, levels);
    var p := Path(rules, m, table, a, levels);
    var r' := Record(r, p[0]);
    assert Continue(arch, d, r, m, table, a, levels) == RecordAll(r', p[1..]);
    assert RecordAll(r', []) == r';
  }

  /** The visits behind a result, from the root. */
  lemma BehindStart(arch: Arch, d: Definition, m: Memory, root: nat, a: nat)
    ensures var root' := Even(root);
            Behind(arch, d, m, root, a) ==
            if root' == 0 || !Present(arch, Read(m, root' + 8 * Index(LevelsOf(d), a))) then []
            else Path(UserRules(arch, LeafLevel(d)), m, root', a, LevelsOf(d))
  {
    PathStep(UserRules(arch, LeafLevel(d)), m, Even(root), a, LevelsOf(d));
  }

  lemma ResolvedStart(arch: Arch, d: Definition, m: Memory, root: nat, pid: int, a: nat)
    ensures var root' := Even(root);
            Resolved(arch, d, m, root, pid, a) ==
            if root' == 0 || !Present(arch, Read(m, root' + 8 * Index(LevelsOf(d), a))) then Blank(pid, a)
            else Fold(arch, d, Continue(arch, d, Blank(pid, a), m, root', a, LevelsOf(d)))
  {
    BehindStart(arch, d, m, root, a);
    assert Fold(arch, d, Blank(pid, a)) == Blank(pid, a);
  }

  /** The table index that the library computes with a shift and a remainder. */
  function ShiftIndex(address: nat, shift: nat, entries: nat): nat {
    address / Pow2(shift) % Pow2(entries)
  }

  lemma LastStep(arch: Arch, d: Definition, r: Entry, m: Memory, table: nat, a: nat)
    ensures Continue(arch, d, r, m, table, a, Done) == r
  {
  }

  /** The unrolled walk of the library. */
  method ResolveUserExt(arch: Arch, d: Definition, m: Memory, root: nat, pid: int, address: nat)
      returns (resolved: Entry)
    ensures resolved == Resolved(arch, d, m, root, pid, address)
  {
    var root' := Even(root);
    ResolvedStart(arch, d, m, root, pid, address);
    resolved := Blank(pid, address);
    if root' == 0 {
      return;
    }

    var pgdi := ShiftIndex(address, d.pageOffset + d.ptEntries + d.pmdEntries + d.pudEntries + d.p4dEntries,
                           d.pgdEntries);
    var pgdEntry := Read(m, root' + pgdi * 8);
    if !Present(arch, pgdEntry) {
      return;
    }
    ContinueStep(arch, d, resolved, m, root', address, LevelsOf(d));
    resolved := resolved.(pgd := pgdEntry, valid := resolved.valid + {PGD});
    resolved := ResolveUpper(arch, d, m, pgdEntry, address, resolved);
  }

  /** What is recorded below an entry that is present: on x86 nothing if it is directly above the page
      tables and maps a large page. */
  function Below(arch: Arch, d: Definition, r: Entry, m: Memory, e: Word, level: Level, a: nat, levels: Levels): Entry {
    if UserDescends(arch, level, e, LeafLevel(d)) then Continue(arch, d, r, m, UserTable(arch, e), a, levels) else r
  }

  lemma BelowStep(arch: Arch, d: Definition, r: Entry, m: Memory, e: Word, level: Level, a: nat, levels: Levels)
    requires levels.More? && Present(arch, e) && level != LeafLevel(d)
    ensures var slot := UserTable(arch, e) + 8 * Index(levels, a);
            var x := Read(m, slot);
            var r' := Record(r, Visit(levels.level, UserTable(arch, e), slot, x));
            Below(arch, d, r, m, e, level, a, levels) ==
            if Present(arch, x) then Below(arch, d, r', m, x, levels.level, a, levels.rest) else r'
  {
    ContinueStep(arch, d, r, m, UserTable(arch, e), a, levels);
  }

  /** The part of the walk from a present PGD down. */
  method ResolveUpper(arch: Arch, d: Definition, m: Memory, pgdEntry: Word, address: nat, upper: Entry)
      returns (resolved: Entry)
    requires Present(arch, pgdEntry) && upper.pgd == pgdEntry
    requires upper.p4d == upper.pud == upper.pmd == upper.pte == {}
    ensures resolved == Fold(arch, d, Below(arch, d, upper, m, pgdEntry, PGD, address, FromP4d(d)))
  {
    resolved := upper;
    var p4dEntry := pgdEntry;
    if d.hasP4d {
      BelowStep(arch, d, resolved, m, pgdEntry, PGD, address, FromP4d(d));
      var p4di := ShiftIndex(address, d.pageOffset + d.ptEntries + d.pmdEntries + d.pudEntries, d.p4dEntries);
      p4dEntry := Read(m, UserTable(arch, pgdEntry) + p4di * 8);
      resolved := resolved.(valid := resolved.valid + {P4D});
    }
    ghost var raw := if d.hasP4d then resolved.(p4d := p4dEntry) else resolved;
    resolved := resolved.(p4d := p4dEntry);
    if !Present(arch, p4dEntry) {
      return;
    }
    resolved := ResolveMiddle(arch, d, m, p4dEntry, address, resolved, raw);
  }

  /** The level of an entry that was found in, or copied into, the P4D or the PUD field. */
  function P4dSource(d: Definition): Level {
    if d.hasP4d then P4D else PGD
  }

  function PudSource(d: Definition): Level {
    if d.hasPud then PUD else P4dSource(d)
  }

  /** The part of the walk from a present P4D, or its folded copy, down; `raw` is what was recorded so
      far, without copies. */
  method ResolveMiddle(arch: Arch, d: Definition, m: Memory, p4dEntry: Word, address: nat, upper: Entry,
                       ghost raw: Entry)
      returns (resolved: Entry)
    requires Present(arch, p4dEntry) && upper == raw.(p4d := p4dEntry)
    requires raw.pud == raw.pmd == raw.pte == {} && p4dEntry == if d.hasP4d then raw.p4d else raw.pgd
    ensures resolved == Fold(arch, d, Below(arch, d, raw, m, p4dEntry, P4dSource(d), address, FromPud(d)))
  {
    resolved := upper;
    ghost var raw' := raw;
    var pudEntry := p4dEntry;
    if d.hasPud {
      BelowStep(arch, d, raw, m, p4dEntry, P4dSource(d), address, FromPud(d));
      var pudi := ShiftIndex(address, d.pageOffset + d.ptEntries + d.pmdEntries, d.pudEntries);
      pudEntry := Read(m, UserTable(arch, p4dEntry) + pudi * 8);
      resolved := resolved.(valid := resolved.valid + {PUD});
      raw' := raw.(valid := raw.valid + {PUD}, pud := pudEntry);
    }
    resolved := resolved.(pud := pudEntry);
    if !Present(arch, pudEntry) {
      return;
    }
    resolved := ResolveLower(arch, d, m, pudEntry, address, resolved, raw');
  }

  /** The part of the walk from a present PUD, or its folded copy, down. */
  method ResolveLower(arch: Arch, d: Definition, m: Memory, pudEntry: Word, address: nat, upper: Entry,
                      ghost raw: Entry)
      returns (resolved: Entry)
    requires Present(arch, pudEntry) && upper == Fold(arch, d, raw).(pmd := {}) && upper.pud == pudEntry
    requires raw.pmd == raw.pte == {}
    ensures resolved == Fold(arch, d, Below(arch, d, raw, m, pudEntry, PudSource(d), address, FromPmd(d)))
  {
    resolved := upper;
    ghost var raw' := raw;
    var pmdEntry := pudEntry;
    if d.hasPmd {
      BelowStep(arch, d, raw, m, pudEntry, PudSource(d), address, FromPmd(d));
      var pmdi := ShiftIndex(address, d.pageOffset + d.ptEntries, d.pmdEntries);
      pmdEntry := Read(m, UserTable(arch, pudEntry) + pmdi * 8);
      resolved := resolved.(valid := resolved.valid + {PMD});
      raw' := raw.(valid := raw.valid + {PMD}, pmd := pmdEntry);
    }
    resolved := resolved.(pmd := pmdEntry);
    if !Present(arch, pmdEntry) {
      return;
    }
    resolved := ResolvePt(arch, d, m, pmdEntry, address, resolved, raw');
  }

  /** The part of the walk from a present PMD, or its folded copy, down. */
  method ResolvePt(arch: Arch, d: Definition, m: Memory, pmdEntry: Word, address: nat, upper: Entry, ghost raw: Entry)
      returns (resolved: Entry)
    requires Present(arch, pmdEntry) && upper == Fold(arch, d, raw)
    ensures resolved == Fold(arch, d, Below(arch, d, raw, m, pmdEntry, LeafLevel(d), address, FromPt(d)))
  {
    resolved := upper;
    if !(arch.X86? && Large(pmdEntry)) {
      ContinueStep(arch, d, raw, m, UserTable(arch, pmdEntry), address, FromPt(d));
      var pti := ShiftIndex(address, d.pageOffset, d.ptEntries);
      var ptEntry := Read(m, UserTable(arch, pmdEntry) + pti * 8);
      resolved := resolved.(pte := ptEntry, valid := resolved.valid + {PTE});
      LastStep(arch, d, raw.(pte := ptEntry, valid := raw.valid + {PTE}), m, UserTable(arch, ptEntry), address);
    }
  }

  // ---- What the result says about the lookup ----------------------------------------

  function LevelsIn(p: seq<Visit>): set<Level> {
    if p == [] then {} else {p[0].level} + LevelsIn(p[1..])
  }

  lemma TailLevels(d: Definition, l: Level)
    ensures HasLevel(FromPt(d), l) <==> l == PTE
    ensures HasLevel(FromPmd(d), l) <==> l == PTE || (l == PMD && d.hasPmd)
    ensures HasLevel(FromPud(d), l) <==> l == PTE || (l == PMD && d.hasPmd) || (l == PUD && d.hasPud)
    ensures HasLevel(FromP4d(d), l) ==> l != PGD
    ensures HasLevel(FromP4d(d), l) && l == P4D ==> d.hasP4d
    ensures HasLevel(FromP4d(d), l) && l == PUD ==> d.hasPud
    ensures HasLevel(FromP4d(d), l) && l == PMD ==> d.hasPmd
  {
    assert !HasLevel(Done, l);
  }

  /** Every definition lists its levels in order, without repetition and without folded ones. */
  lemma LevelsAreRanked(d: Definition)
    ensures Ranked(LevelsOf(d))
    ensures HasLevel(LevelsOf(d), P4D) ==> d.hasP4d
    ensures HasLevel(LevelsOf(d), PUD) ==> d.hasPud
    ensures HasLevel(LevelsOf(d), PMD) ==> d.hasPmd
  {
    TailLevels(d, PMD);
    TailLevels(d, PUD);
    TailLevels(d, P4D);
    TailLevels(d, PGD);
    assert Ranked(FromPt(d));
    assert Ranked(FromPmd(d));
    assert Ranked(FromPud(d));
    assert Ranked(FromP4d(d));
  }

  lemma {:induction false} RecordValid(r: Entry, p: seq<Visit>)
    ensures RecordAll(r, p).valid == r.valid + LevelsIn(p)
    decreases |p|
  {
    if p != [] {
      RecordValid(Record(r, p[0]), p[1..]);
    }
  }

  /** Entries of other levels leave a level alone. */
  lemma {:induction false} RecordKeeps(r: Entry, p: seq<Visit>, level: Level)
    requires level !in LevelsIn(p)
    ensures RecordAll(r, p).Get(level) == r.Get(level)
    decreases |p|
  {
    if p != [] {
      RecordKeeps(Record(r, p[0]), p[1..], level);
    }
  }

  lemma {:induction false} PathLevels(rules: Rules, m: Memory, table: nat, a: nat, levels: Levels, level: Level)
    requires level in LevelsIn(Path(rules, m, table, a, levels))
    ensures HasLevel(levels, level)
    decreases levels
  {
    PathStep(rules, m, table, a, levels);
    if level != levels.level {
      PathLevels(rules, m, rules.table(Read(m, table + 8 * Index(levels, a))), a, levels.rest, level);
    }
  }

  /** Each visited entry ends up in the field of its level. */
  lemma {:induction false} RecordFinds(rules: Rules, r: Entry, m: Memory, table: nat, a: nat, levels: Levels, v: Visit)
    requires Ranked(levels) && v in Path(rules, m, table, a, levels)
    ensures RecordAll(r, Path(rules, m, table, a, levels)).Get(v.level) == v.entry
    decreases levels
  {
    var p := Path(rules, m, table, a, levels);
    var r' := Record(r, p[0]);
    PathStep(rules, m, table, a, levels);
    var below := rules.table(p[0].entry);
    assert RecordAll(r, p) == RecordAll(r', p[1..]);
    if v == p[0] {
      if v.level in LevelsIn(p[1..]) {
        PathLevels(rules, m, below, a, levels.rest, v.level);
      }
      RecordKeeps(r', p[1..], v.level);
    } else {
      RecordFinds(rules, r', m, below, a, levels.rest, v);
    }
  }

  /** The result marks exactly the levels the lookup read as valid. */
  lemma ResolvedValid(arch: Arch, d: Definition, m: Memory, root: nat, pid: int, a: nat)
    ensures Resolved(arch, d, m, root, pid, a).valid == LevelsIn(Behind(arch, d, m, root, a))
  {
    RecordValid(Blank(pid, a), Behind(arch, d, m, root, a));
  }

  /** The result is for the process and the address that were asked for. */
  lemma ResolvedAsked(arch: Arch, d: Definition, m: Memory, root: nat, pid: int, a: nat)
    ensures Resolved(arch, d, m, root, pid, a).pid == pid && Resolved(arch, d, m, root, pid, a).vaddr == a
  {
    RecordAsked(Blank(pid, a), Behind(arch, d, m, root, a));
  }

  lemma {:induction false} RecordAsked(r: Entry, p: seq<Visit>)
    ensures RecordAll(r, p).pid == r.pid && RecordAll(r, p).vaddr == r.vaddr
    decreases |p|
  {
    if p != [] {
      RecordAsked(Record(r, p[0]), p[1..]);
    }
  }

  /** A level that the definition has and the lookup did not read is zero, and a level that it does not have
      is a copy of the level above it if that is present, and zero otherwise. */
  lemma ResolvedRest(arch: Arch, d: Definition, m: Memory, root: nat, pid: int, a: nat, level: Level)
    ensures var r := Resolved(arch, d, m, root, pid, a);
            && (HasLevel(LevelsOf(d), level) && level !in r.valid ==> r.Get(level) == {})
            && (!d.hasP4d ==> r.p4d == r.pgd)
            && (!d.hasPud ==> r.pud == if Present(arch, r.p4d) then r.p4d else {})
            && (!d.hasPmd ==> r.pmd == if Present(arch, r.pud) then r.pud else {})
  {
    var p := Behind(arch, d, m, root, a);
    ResolvedValid(arch, d, m, root, pid, a);
    LevelsAreRanked(d);
    if level !in LevelsIn(p) {
      RecordKeeps(Blank(pid, a), p, level);
    }
  }

  /** The result holds every entry the lookup read in the field of its level. */
  lemma ResolvedEntry(arch: Arch, d: Definition, m: Memory, root: nat, pid: int, a: nat, v: Visit)
    requires v in Behind(arch, d, m, root, a)
    ensures Resolved(arch, d, m, root, pid, a).Get(v.level) == v.entry
  {
    var w := UserWalker(arch, d);
    var root' := Even(root);
    LevelsAreRanked(d);
    RecordFinds(w.rules, Blank(pid, a), m, root', a, w.levels, v);
    VisitShape(w.rules, m, root', a, w.levels, v);
  }

  lemma {:induction false} VisitOfLevel(p: seq<Visit>, level: Level) returns (v: Visit)
    requires level in LevelsIn(p)
    ensures v in p && v.level == level
  {
    v := p[0];
    if v.level != level {
      v := VisitOfLevel(p[1..], level);
    }
  }

  lemma {:induction false} LevelOfVisit(p: seq<Visit>, v: Visit)
    requires v in p
    ensures v.level in LevelsIn(p)
  {
    if v != p[0] {
      LevelOfVisit(p[1..], v);
    }
  }

  // ---- Page-table entries ---------------------------------------------------------------

  /** Only the last visit may be one of a page table. */
  ghost predicate PteLast(p: seq<Visit>) {
    forall i :: 0 <= i < |p| - 1 ==> p[i].level != PTE
  }

  lemma {:induction false} PathPteLast(rules: Rules, m: Memory, table: nat, a: nat, levels: Levels)
    requires Ranked(levels)
    ensures PteLast(Path(rules, m, table, a, levels))
    decreases levels
  {
    if levels.More? {
      PathStep(rules, m, table, a, levels);
      var p := Path(rules, m, table, a, levels);
      if rules.descends(levels.level, p[0].entry) {
        PathPteLast(rules, m, rules.table(p[0].entry), a, levels.rest);
        assert forall i :: 1 <= i < |p| - 1 ==> p[i] == p[1..][i - 1];
        if levels.level == PTE {
          assert p[1..] == [];
        }
      }
    }
  }

  lemma WalkPteLast(w: Walker, m: Memory, root: nat, a: nat)
    requires Ranked(w.levels)
    ensures PteLast(Walk(w, m, root, a))
  {
    if root != 0 {
      PathPteLast(w.rules, m, root, a, w.levels);
    }
  }

  /** What is recorded of the page-table entry. */
  lemma {:induction false} RecordedPte(r: Entry, p: seq<Visit>)
    requires PteLast(p) && PTE !in r.valid
    ensures PTE in RecordAll(r, p).valid <==> LastPte(p).Some?
    ensures RecordAll(r, p).pte == if LastPte(p).Some? then LastPte(p).value.entry else r.pte
    decreases |p|
  {
    if |p| == 1 {
      assert RecordAll(r, p) == RecordAll(Record(r, p[0]), []);
    } else if p != [] {
      assert p[0].level != PTE && forall i :: 0 <= i < |p[1..]| - 1 ==> p[1..][i] == p[i + 1];
      RecordedPte(Record(r, p[0]), p[1..]);
    }
  }

  /** A walk goes on from its first entry only if that is present. */
  predicate NeedsPresent(arch: Arch, p: seq<Visit>) {
    p != [] ==> p[0].level != PTE && (Present(arch, p[0].entry) || |p| == 1)
  }

  /** Then what is not reported has no page-table entry. */
  lemma ReportedPte(arch: Arch, p: seq<Visit>)
    requires NeedsPresent(arch, p)
    ensures LastPte(Reported(arch, p)) == LastPte(p)
  {
  }

  lemma UserNeedsPresent(arch: Arch, d: Definition, m: Memory, root: nat, a: nat)
    ensures NeedsPresent(arch, Walk(UserWalker(arch, d), m, root, a))
  {
    if root != 0 {
      PathStep(UserRules(arch, LeafLevel(d)), m, root, a, LevelsOf(d));
    }
  }

  lemma BehindPte(arch: Arch, d: Definition, m: Memory, root: nat, a: nat)
    ensures var p := Behind(arch, d, m, root, a);
            PteLast(p) && LastPte(p) == Pte(UserWalker(arch, d), m, Even(root), a)
  {
    LevelsAreRanked(d);
    WalkPteLast(UserWalker(arch, d), m, Even(root), a);
    UserNeedsPresent(arch, d, m, Even(root), a);
    ReportedPte(arch, Walk(UserWalker(arch, d), m, Even(root), a));
  }

  /** The PTE bit is set exactly when the walk reaches a page table, whether or not the entry
      there is present, and then the result holds that entry; otherwise its PTE field is zero. */
  lemma ResolvedPte(arch: Arch, d: Definition, m: Memory, root: nat, pid: int, a: nat)
    ensures var r := Resolved(arch, d, m, root, pid, a);
            var v := Pte(UserWalker(arch, d), m, Even(root), a);
            && (PTE in r.valid <==> v.Some?)
            && r.pte == if v.Some? then v.value.entry else {}
  {
    BehindPte(arch, d, m, root, a);
    RecordedPte(Blank(pid, a), Behind(arch, d, m, root, a));
  }

  // ---- Valid means read, not present --------------------------------------------------

  /** An entry that is present and names frame 1. */
  const FRAME_ONE: Word := {0, 12}

  lemma FrameOneTable()
    ensures UserTable(X86, FRAME_ONE) == 4096
  {
    var e := FRAME_ONE;
    OneBitField(e, 12, 28);
  }

  /** A field with only its lowest bit set has value 1. */
  lemma OneBitField(e: Word, lo: nat, n: nat)
    requires 0 < n && lo + n <= 64 && lo in e && e * Bits(lo + 1, lo + n) == {}
    ensures Value(e, lo, n) == 1
  {
    ValueSplits(e, lo, 1, n - 1);
    ValueIsZero(e, lo + 1, n - 1);
    assert Value(e, lo, 1) == Value(e, lo, 0) + Pow2(0);
  }

  /** With one present entry at the start of frame 1, a walk of page 1 goes round in that frame
      and ends at the zero entry after it. */
  lemma {:induction false} LoopPath(levels: Levels)
    requires levels.More? && Ranked(levels)
    requires forall l :: HasLevel(levels, l) ==> IndexAt(levels, l, 4096) == if l == PTE then 1 else 0
    ensures var p := Path(UserRules(X86), map[4096 := FRAME_ONE], 4096, 4096, levels);
            p != [] && p[|p| - 1] == Visit(PTE, 4096, 4104, {})
    ensures Present(X86, FRAME_ONE)
    decreases levels
  {
    var m: Memory := map[4096 := FRAME_ONE];
    PathStep(UserRules(X86), m, 4096, 4096, levels);
    assert HasLevel(levels, levels.level);
    FrameOneTable();
    if levels.level != PTE {
      forall l | HasLevel(levels.rest, l)
        ensures IndexAt(levels.rest, l, 4096) == if l == PTE then 1 else 0
      {
        assert HasLevel(levels, l);
      }
      LoopPath(levels.rest);
    }
  }

  lemma LoopIndices(d: Definition, l: Level)
    requires d == X86_64 && HasLevel(LevelsOf(d), l)
    ensures IndexAt(LevelsOf(d), l, 4096) == if l == PTE then 1 else 0
  {
    KnownPowers();
    TailLevels(d, l);
    assert l == PTE ==> IndexAt(FromPt(d), l, 4096) == 1;
    assert HasLevel(FromPmd(d), l) ==> IndexAt(FromPmd(d), l, 4096) == if l == PTE then 1 else 0;
    assert HasLevel(FromPud(d), l) ==> IndexAt(FromPud(d), l, 4096) == if l == PTE then 1 else 0;
  }

  lemma LoopPte(d: Definition, m: Memory, root: nat)
    requires d == X86_64 && m == map[4096 := FRAME_ONE] && root == 4096
    ensures Pte(UserWalker(X86, d), m, root, root) == Some(Visit(PTE, 4096, 4104, {}))
  {
    LevelsAreRanked(d);
    forall l | HasLevel(LevelsOf(d), l)
      ensures IndexAt(LevelsOf(d), l, 4096) == if l == PTE then 1 else 0
    {
      LoopIndices(d, l);
    }
    LoopPath(LevelsOf(d));
  }

  lemma PteIsResolved(d: Definition, m: Memory, root: nat, a: nat, v: Visit)
    requires root % 2 == 0 && Pte(UserWalker(X86, d), m, root, a) == Some(v)
    ensures var r := Resolved(X86, d, m, root, 0, a); PTE in r.valid && r.pte == v.entry
  {
    ResolvedPte(X86, d, m, root, 0, a);
  }

  /** `valid` means read, not present: there are tables for which a zero entry is reported as a
      valid PTE. */
  lemma ValidIsNotPresent(d: Definition, m: Memory, root: nat)
    requires d == X86_64 && m == map[4096 := FRAME_ONE] && root == 4096
    ensures var r := Resolved(X86, d, m, root, 0, root);
            PTE in r.valid && !Present(X86, r.pte)
  {
    LoopPte(d, m, root);
    PteIsResolved(d, m, root, root, Visit(PTE, 4096, 4104, {}));
  }

  // ---- Slots in the paging definitions --------------------------------------------------

  lemma SlotInPage(arch: Arch, d: Definition, count: Positive, size: Positive, m: Memory, root: nat, a: nat, v: Visit)
    requires Ranked(LevelsOf(d)) && Uniform(LevelsOf(d), count) && size == 8 * count && 4096 <= size
    requires size % 4096 == 0 && root % size == 0 && root % 8 == 0 && v in Walk(UserWalker(arch, d), m, root, a)
    ensures v.table <= v.slot < v.table + size && v.slot % 8 == 0
    ensures v.table % size == 0 ==> v.slot / size * size == v.table
    ensures v.table == root || v.table % 4096 == 0
    ensures v.table != root && arch.X86? && size == 4096 ==> v.slot < 0x100_0000_0000
  {
    UserFramed(arch, LeafLevel(d));
    var bound := if arch.X86? then 0x100_0000_0000 else 0x1_0000_0000_0000;
    SlotInFrame(UserWalker(arch, d), count, bound, m, root, a, v);
  }

  /** For each of the three paging definitions every slot is 8-byte aligned and lies inside the page
      that starts at its table. On x86 and on aarch64 with 4 KiB pages that page is the frame the
      parent names; with 16 KiB pages it is if the table is aligned to it. Below the root, slots on
      x86 are below 2^40. */
  lemma SlotInDefinition(arch: Arch, d: Definition, size: nat, m: Memory, root: nat, a: nat, v: Visit)
    requires if arch.X86? then d == X86_64 else d == ARM_4K || d == ARM_16K
    requires size == if d == ARM_16K then 16384 else 4096
    requires root % size == 0 && v in Walk(UserWalker(arch, d), m, root, a)
    ensures v.table <= v.slot < v.table + size && v.slot % 8 == 0
    ensures v.table % size == 0 ==> v.slot / size * size == v.table
    ensures d != ARM_16K ==> v.table % size == 0
    ensures v.table != root && arch.X86? ==> v.slot < 0x100_0000_0000
  {
    var count := if d == ARM_16K then 2048 else 512;
    X86Layout();
    Arm16KLayout();
    Arm4KLayout();
    QuotientUnique(root, 8, root / size * count, 0);
    SlotInPage(arch, d, count, size, m, root, a, v);
  }

  lemma UserFramed(arch: Arch, leaf: Level)
    ensures Framed(UserRules(arch, leaf), if arch.X86? then 0x100_0000_0000 else 0x1_0000_0000_0000)
  {
    FrameBounds(Bits(0, 64));
    assert forall e :: UserRules(arch, leaf).table(e) == UserRules(arch).table(e);
  }
}
