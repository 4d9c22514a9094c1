/** The page-table dump of demos/memmap.c: four nested loops that list exactly the pages the
    library's walk resolves to a present leaf, in ascending order, and add up their sizes. */
module MemMap {
  import opened Paging
  import opened Radix

  /** A listed page: its first address, and whether it is a 2 MiB page. */
  datatype Item = Item(va: nat, large: bool)

  function Size(large: bool): nat {
    if large then 0x20_0000 else 4096
  }

  // ---- The reference: what a table and everything below it maps ------------------------------

  /** The entries of a walk as the dump interprets them: the library's tests with the 40-bit frame
      number of `ptedit_get_pfn`. */
  function DumpRules(): Rules {
    Rules((level: Level, e: Word) => UserDescends(X86, level, e), (e: Word) => Frame40(e) * 4096)
  }

  /** Whether a walk ends in a present leaf, and of which size. */
  function LeafKind(p: seq<Visit>): Option<bool> {
    if p == [] then None
    else
      var last := p[|p| - 1];
      if !Present(X86, last.entry) then None
      else if last.level == PTE then Some(false)
      else if last.level == PMD && Large(last.entry) then Some(true)
      else None
  }

  /** A walk from a table finds the page of an item. */
  predicate Maps(m: Memory, table: nat, levels: Levels, item: Item) {
    && LeafKind(Path(DumpRules(), m, table, item.va, levels)) == Some(item.large)
    && item.va % Size(item.large) == 0
  }

  // ---- The listing -----------------------------------------------------------------------------

  /** What the dump lists for the first `n` entries of a table that covers addresses from `base`. */
  function List(m: Memory, table: nat, levels: Levels, base: nat, n: nat): seq<Item>
    decreases levels, n
  {
    if levels.Done? || n == 0 then []
    else List(m, table, levels, base, n - 1) + ListEntry(m, table, levels, base, n - 1)
  }

  function ListEntry(m: Memory, table: nat, levels: Levels, base: nat, i: nat): seq<Item>
    requires levels.More?
    decreases levels, i
  {
    var e := Read(m, table + 8 * i);
    var va := base + i * levels.span;
    if !Present(X86, e) then []
    else if levels.level == PTE then [Item(va, false)]
    else if levels.level == PMD && Large(e) then [Item(va, true)]
    else if levels.rest.More? then List(m, Frame40(e) * 4096, levels.rest, va, levels.rest.count)
    else []
  }

  /** A layout whose page tables map 4 KiB and whose PMDs map 2 MiB per entry. */
  predicate Sized(levels: Levels) {
    levels.More? ==>
      && (levels.level == PTE ==> levels.span == 4096)
      && (levels.level == PMD ==> levels.span == 0x20_0000)
      && Sized(levels.rest)
  }

  // ---- Sound and complete ----------------------------------------------------------------------

  /** An address in the range of entry `i` has index `i`. */
  lemma IndexInRange(levels: Levels, base: nat, i: nat, va: nat)
    requires levels.More? && levels.span * levels.count > 0 && base % (levels.span * levels.count) == 0
    requires i < levels.count && base + i * levels.span <= va < base + (i + 1) * levels.span
    ensures Index(levels, va) == i
  {
    var region := base / (levels.span * levels.count);
    assert base == region * (levels.span * levels.count);
    assert region * (levels.span * levels.count) == region * levels.count * levels.span;
    QuotientUnique(va, levels.span, region * levels.count + i, va - base - i * levels.span);
    QuotientUnique(region * levels.count + i, levels.count, region, i);
  }

  /** The range of entry `i`: it starts at a multiple of its size, and its addresses have index `i`. */
  lemma EntryRange(levels: Levels, base: nat, i: nat, start: nat, va: nat)
    requires levels.More? && levels.span * levels.count > 0 && base % (levels.span * levels.count) == 0
    requires i < levels.count && start == base + i * levels.span
    ensures start % levels.span == 0
    ensures start <= va < start + levels.span ==> Index(levels, va) == i
  {
    var region := base / (levels.span * levels.count);
    assert base == region * (levels.span * levels.count);
    assert region * (levels.span * levels.count) == region * levels.count * levels.span;
    QuotientUnique(start, levels.span, region * levels.count + i, 0);
    if start <= va < start + levels.span {
      assert start + levels.span == base + (i + 1) * levels.span;
      IndexInRange(levels, base, i, va);
    }
  }

  /** The only aligned address in an aligned block of one unit is its first. */
  lemma AlignedInBlock(unit: Positive, start: nat, va: nat)
    requires start % unit == 0 && start <= va < start + unit
    ensures va % unit == 0 <==> va == start
  {
    QuotientUnique(va, unit, start / unit, va - start);
  }

  lemma LeafBelow(m: Memory, table: nat, levels: Levels, a: nat)
    requires levels.More?
    ensures var e := Read(m, table + 8 * Index(levels, a));
            LeafKind(Path(DumpRules(), m, table, a, levels)) ==
            if UserDescends(X86, levels.level, e) && levels.rest.More?
            then LeafKind(Path(DumpRules(), m, Frame40(e) * 4096, a, levels.rest))
            else if !Present(X86, e) then None
            else if levels.level == PTE then Some(false)
            else if levels.level == PMD && Large(e) then Some(true) else None
  {
    PathStep(DumpRules(), m, table, a, levels);
    var p := Path(DumpRules(), m, table, a, levels);
    if UserDescends(X86, levels.level, p[0].entry) && levels.rest.More? {
      PathStep(DumpRules(), m, Frame40(p[0].entry) * 4096, a, levels.rest);
      assert p[|p| - 1] == p[1..][|p| - 2];
    }
  }

  /** Whether the dump goes on below an entry. */
  predicate Inner(levels: Levels, e: Word)
    requires levels.More?
  {
    UserDescends(X86, levels.level, e) && levels.rest.More?
  }

  /** Entries that the dump does not descend from: nothing, or one page. */
  lemma LeafMember(m: Memory, table: nat, levels: Levels, base: nat, i: nat, start: nat, item: Item)
    requires levels.More? && Ranked(levels) && Sized(levels) && start == base + i * levels.span
    requires start % levels.span == 0 && !Inner(levels, Read(m, table + 8 * i))
    requires start <= item.va < start + levels.span ==> Index(levels, item.va) == i
    ensures item in ListEntry(m, table, levels, base, i) <==>
            start <= item.va < start + levels.span && Maps(m, table, levels, item)
  {
    if start <= item.va < start + levels.span {
      LeafBelow(m, table, levels, item.va);
      AlignedInBlock(levels.span, start, item.va);
    }
  }

  lemma InnerMaps(m: Memory, table: nat, levels: Levels, i: nat, item: Item)
    requires levels.More? && Index(levels, item.va) == i && Inner(levels, Read(m, table + 8 * i))
    ensures Maps(m, table, levels, item) <==> Maps(m, Frame40(Read(m, table + 8 * i)) * 4096, levels.rest, item)
  {
    LeafBelow(m, table, levels, item.va);
  }

  /** An item is listed for an entry exactly when it lies in the range of the entry and a walk
      from the table finds it. */
  lemma {:induction false} EntryMember(m: Memory, table: nat, levels: Levels, base: nat, i: nat, start: nat, item: Item)
    requires levels.More? && Contiguous(levels, 4096) && Ranked(levels) && Sized(levels)
    requires base % Reach(levels, 4096) == 0 && i < levels.count && start == base + i * levels.span
    ensures item in ListEntry(m, table, levels, base, i) <==>
            start <= item.va < start + levels.span && Maps(m, table, levels, item)
    decreases levels, i
  {
    var e := Read(m, table + 8 * i);
    EntryRange(levels, base, i, start, item.va);
    if Inner(levels, e) {
      ListMember(m, Frame40(e) * 4096, levels.rest, start, levels.rest.count, item);
      if start <= item.va < start + levels.span {
        InnerMaps(m, table, levels, i, item);
      }
    } else {
      LeafMember(m, table, levels, base, i, start, item);
    }
  }

  /** An item is listed for the first entries of a table exactly when it lies in their range and a
      walk from the table finds it. */
  lemma {:induction false} ListMember(m: Memory, table: nat, levels: Levels, base: nat, n: nat, item: Item)
    requires levels.More? && Contiguous(levels, 4096) && Ranked(levels) && Sized(levels)
    requires base % Reach(levels, 4096) == 0 && n <= levels.count
    ensures item in List(m, table, levels, base, n) <==>
            base <= item.va < base + n * levels.span && Maps(m, table, levels, item)
    decreases levels, n
  {
    if n != 0 {
      ListMember(m, table, levels, base, n - 1, item);
      EntryMember(m, table, levels, base, n - 1, base + (n - 1) * levels.span, item);
      assert base + n * levels.span == base + (n - 1) * levels.span + levels.span;
      assert (n - 1) * levels.span >= 0;
    }
  }

  // ---- Ascending, and never more than the range ---------------------------------------------------

  ghost predicate Ascending(items: seq<Item>) {
    forall i, j :: 0 <= i < j < |items| ==> items[i].va < items[j].va
  }

  ghost predicate Within(items: seq<Item>, lo: nat, hi: nat) {
    forall i :: 0 <= i < |items| ==> lo <= items[i].va < hi
  }

  lemma AscendingConcat(a: seq<Item>, b: seq<Item>, lo: nat, mid: nat, hi: nat)
    requires Ascending(a) && Ascending(b) && Within(a, lo, mid) && Within(b, mid, hi) && lo <= mid <= hi
    ensures Ascending(a + b) && Within(a + b, lo, hi)
  {
  }

  /** The bytes of the listed pages. */
  function Usage(items: seq<Item>): nat {
    if items == [] then 0 else Usage(items[..|items| - 1]) + Size(items[|items| - 1].large)
  }

  lemma {:induction false} UsageConcat(a: seq<Item>, b: seq<Item>)
    ensures Usage(a + b) == Usage(a) + Usage(b)
    decreases |b|
  {
    if b == [] {
      assert a + b == a;
    } else {
      assert (a + b)[..|a + b| - 1] == a + b[..|b| - 1];
      UsageConcat(a, b[..|b| - 1]);
    }
  }

  /** The listed pages lie in the range of the entries, in ascending order, and fit into it. */
  lemma {:induction false} ListOrder(m: Memory, table: nat, levels: Levels, base: nat, n: nat, end: nat)
    requires Contiguous(levels, 4096) && Sized(levels) && n <= (if levels.More? then levels.count else 0)
    requires end == base + if levels.More? then n * levels.span else 0
    ensures Ascending(List(m, table, levels, base, n)) && Within(List(m, table, levels, base, n), base, end)
    ensures Usage(List(m, table, levels, base, n)) <= end - base
    decreases levels, n
  {
    if levels.More? && n != 0 {
      var mid := base + (n - 1) * levels.span;
      assert end == mid + levels.span;
      ListOrder(m, table, levels, base, n - 1, mid);
      EntryOrder(m, table, levels, base, n - 1, mid);
      AscendingConcat(List(m, table, levels, base, n - 1), ListEntry(m, table, levels, base, n - 1), base, mid, end);
      UsageConcat(List(m, table, levels, base, n - 1), ListEntry(m, table, levels, base, n - 1));
    }
  }

  lemma {:induction false} EntryOrder(m: Memory, table: nat, levels: Levels, base: nat, i: nat, start: nat)
    requires levels.More? && Contiguous(levels, 4096) && Sized(levels)
    requires start == base + i * levels.span
    ensures Ascending(ListEntry(m, table, levels, base, i))
    ensures Within(ListEntry(m, table, levels, base, i), start, start + levels.span)
    ensures Usage(ListEntry(m, table, levels, base, i)) <= levels.span
    decreases levels, i
  {
    var e := Read(m, table + 8 * i);
    if Inner(levels, e) && levels.level != PTE {
      ListOrder(m, Frame40(e) * 4096, levels.rest, start, levels.rest.count, start + levels.span);
    }
  }

  lemma {:induction false} UsageCounts(items: seq<Item>)
    ensures Usage(items) == 4096 * Count(items, false) + 0x20_0000 * Count(items, true)
  {
    if items != [] {
      UsageCounts(items[..|items| - 1]);
    }
  }

  function Count(items: seq<Item>, large: bool): nat {
    if items == [] then 0
    else Count(items[..|items| - 1], large) + if items[|items| - 1].large == large then 1 else 0
  }

  // ---- The nested loops ---------------------------------------------------------------------------

  /** The words of a page, as `ptedit_read_physical_page` copies them. */
  function ReadPage(m: Memory, pfn: nat): (page: seq<Word>)
    requires Backed(m, pfn)
    ensures |page| == 512
  {
    seq(512, (i: nat) => Read(m, WordOf(pfn, i)))
  }

  function WordOf(pfn: nat, i: nat): nat {
    pfn * 4096 + 8 * i
  }

  predicate Backed(m: Memory, pfn: nat) {
    forall i :: 0 <= i < 512 ==> WordOf(pfn, i) in m
  }

  /** The table an entry names. */
  function Child(m: Memory, table: nat, i: nat): nat {
    Frame40(Read(m, table + 8 * i)) * 4096
  }

  /** The tables the dump reads below the root, by level. */
  datatype Tables = Tables(pdpts: set<nat>, pds: set<nat>, pts: set<nat>)

  /** A table can be read, and every table its first `n` entries name is among the given ones. */
  predicate Names(m: Memory, table: nat, level: Level, n: nat, below: set<nat>) {
    && table % 4096 == 0 && Backed(m, table / 4096)
    && forall i {:trigger Child(m, table, i)} ::
         0 <= i < n && UserDescends(X86, level, Read(m, table + 8 * i)) ==> Child(m, table, i) in below
  }

  /** Every table the dump reads can be read. */
  predicate Readable(m: Memory, t: Tables) {
    && (forall table :: table in t.pdpts ==> Names(m, table, PUD, 512, t.pds))
    && (forall table :: table in t.pds ==> Names(m, table, PMD, 512, t.pts))
    && (forall table :: table in t.pts ==> table % 4096 == 0 && Backed(m, table / 4096))
  }

  /** The layout of the loops: 512 entries per table, and the spans of the printed shifts. */
  predicate Loops(levels: Levels, level: Level)
    decreases levels
  {
    && levels.More? && levels.level == level && levels.count == 512
    && match level
       case PGD => levels.span == 0x80_0000_0000 && Loops(levels.rest, PUD)
       case P4D => false
       case PUD => levels.span == 0x4000_0000 && Loops(levels.rest, PMD)
       case PMD => levels.span == 0x20_0000 && Loops(levels.rest, PTE)
       case PTE => levels.span == 4096 && levels.rest.Done?
  }

  /** A word of a table page. */
  lemma PageWord(m: Memory, table: nat, i: nat)
    requires table % 4096 == 0 && Backed(m, table / 4096) && i < 512
    ensures ReadPage(m, table / 4096)[i] == Read(m, table + 8 * i)
  {
    assert WordOf(table / 4096, i) == table + 8 * i;
  }

  lemma OnePage(items: seq<Item>, item: Item)
    ensures Usage(items + [item]) == Usage(items) + Size(item.large)
  {
    assert (items + [item])[..|items|] == items;
  }

  /** The entry after the first `i` is not present: the listing stays as it is. */
  lemma SkipEntry(m: Memory, table: nat, levels: Levels, base: nat, i: nat, head: seq<Item>)
    requires levels.More? && !Present(X86, Read(m, table + 8 * i))
    ensures head + List(m, table, levels, base, i + 1) == head + List(m, table, levels, base, i)
  {
    assert ListEntry(m, table, levels, base, i) == [];
  }

  /** It is a page: the page is listed next. */
  lemma PageEntry(m: Memory, table: nat, levels: Levels, base: nat, i: nat, head: seq<Item>, item: Item, span: nat)
    requires levels.More? && levels.span == span && Present(X86, Read(m, table + 8 * i)) && item.va == base + i * span
    requires if item.large then levels.level == PMD && Large(Read(m, table + 8 * i)) else levels.level == PTE
    ensures head + List(m, table, levels, base, i + 1) == head + List(m, table, levels, base, i) + [item]
  {
    assert ListEntry(m, table, levels, base, i) == [item];
  }

  /** It is a table: everything below it is listed next. */
  lemma TableEntry(m: Memory, table: nat, levels: Levels, base: nat, i: nat, head: seq<Item>, start: nat, span: nat)
    requires levels.More? && levels.span == span && levels.level != PTE
    requires Inner(levels, Read(m, table + 8 * i)) && start == base + i * span && levels.rest.count == 512
    ensures head + List(m, table, levels, base, i + 1)
         == head + List(m, table, levels, base, i) + List(m, Child(m, table, i), levels.rest, start, 512)
  {
    assert ListEntry(m, table, levels, base, i) == List(m, Child(m, table, i), levels.rest, start, 512);
  }

  /** The loop over a page table. Each loop gets what was listed before and the total so far. */
  method DumpPt(m: Memory, table: nat, base: nat, ghost t: Tables, ghost levels: Levels, items0: seq<Item>, usage0: nat)
      returns (items: seq<Item>, usage: nat)
    requires Loops(levels, PTE) && Readable(m, t) && table in t.pts && usage0 == Usage(items0)
    ensures items == items0 + List(m, table, levels, base, 512) && usage == Usage(items)
  {
    items, usage := items0, usage0;
    var pt := ReadPage(m, table / 4096);
    for pti := 0 to 512
      invariant items == items0 + List(m, table, levels, base, pti) && usage == Usage(items)
    {
      PageWord(m, table, pti);
      var ptEntry := pt[pti];
      if !Present(X86, ptEntry) {
        SkipEntry(m, table, levels, base, pti, items0);
        continue;
      }
      var page := Item(base + pti * 4096, false);
      PageEntry(m, table, levels, base, pti, items0, page, 4096);
      OnePage(items, page);
      items, usage := items + [page], usage + 4096;
    }
  }

  /** The loop over a page directory: page tables and 2 MiB pages. */
  method DumpPd(m: Memory, table: nat, base: nat, ghost t: Tables, ghost levels: Levels, items0: seq<Item>, usage0: nat)
      returns (items: seq<Item>, usage: nat)
    requires Loops(levels, PMD) && Readable(m, t) && table in t.pds && usage0 == Usage(items0)
    ensures items == items0 + List(m, table, levels, base, 512) && usage == Usage(items)
  {
    items, usage := items0, usage0;
    var pd := ReadPage(m, table / 4096);
    for pdi := 0 to 512
      invariant items == items0 + List(m, table, levels, base, pdi) && usage == Usage(items)
    {
      PageWord(m, table, pdi);
      var pdEntry := pd[pdi];
      if !Present(X86, pdEntry) {
        SkipEntry(m, table, levels, base, pdi, items0);
        continue;
      }
      var start := base + pdi * 0x20_0000;
      if !Large(pdEntry) {
        assert Child(m, table, pdi) in t.pts;
        TableEntry(m, table, levels, base, pdi, items0, start, 0x20_0000);
        items, usage := DumpPt(m, Frame40(pdEntry) * 4096, start, t, levels.rest, items, usage);
      } else {
        PageEntry(m, table, levels, base, pdi, items0, Item(start, true), 0x20_0000);
        OnePage(items, Item(start, true));
        items, usage := items + [Item(start, true)], usage + 2 * 1024 * 1024;
      }
    }
  }

  /** The loop over a page-directory-pointer table. */
  method DumpPdpt(m: Memory, table: nat, base: nat, ghost t: Tables, ghost levels: Levels, items0: seq<Item>,
                  usage0: nat)
      returns (items: seq<Item>, usage: nat)
    requires Loops(levels, PUD) && Readable(m, t) && table in t.pdpts && usage0 == Usage(items0)
    ensures items == items0 + List(m, table, levels, base, 512) && usage == Usage(items)
  {
    items, usage := items0, usage0;
    var pdpt := ReadPage(m, table / 4096);
    for pdpti := 0 to 512
      invariant items == items0 + List(m, table, levels, base, pdpti) && usage == Usage(items)
    {
      PageWord(m, table, pdpti);
      var pdptEntry := pdpt[pdpti];
      if !Present(X86, pdptEntry) {
        SkipEntry(m, table, levels, base, pdpti, items0);
        continue;
      }
      var start := base + pdpti * 0x4000_0000;
      assert Child(m, table, pdpti) in t.pds;
      TableEntry(m, table, levels, base, pdpti, items0, start, 0x4000_0000);
      items, usage := DumpPd(m, Frame40(pdptEntry) * 4096, start, t, levels.rest, items, usage);
    }
  }

  /** The outer loop of `main`, over the first entries of the root table. */
  method DumpPml4(m: Memory, root: nat, base: nat, entries: nat, ghost t: Tables, ghost levels: Levels,
                  items0: seq<Item>, usage0: nat)
      returns (items: seq<Item>, usage: nat)
    requires Loops(levels, PGD) && Readable(m, t) && Names(m, root, PGD, entries, t.pdpts) && entries <= 512
    requires usage0 == Usage(items0)
    ensures items == items0 + List(m, root, levels, base, entries) && usage == Usage(items)
  {
    items, usage := items0, usage0;
    var pml4 := ReadPage(m, root / 4096);
    for pml4i := 0 to entries
      invariant items == items0 + List(m, root, levels, base, pml4i) && usage == Usage(items)
    {
      PageWord(m, root, pml4i);
      var pml4Entry := pml4[pml4i];
      if !Present(X86, pml4Entry) {
        SkipEntry(m, root, levels, base, pml4i, items0);
        continue;
      }
      var start := base + pml4i * 0x80_0000_0000;
      assert Child(m, root, pml4i) in t.pdpts;
      TableEntry(m, root, levels, base, pml4i, items0, start, 0x80_0000_0000);
      items, usage := DumpPdpt(m, Frame40(pml4Entry) * 4096, start, t, levels.rest, items, usage);
    }
  }

  /** The dump of `main`: the lower half of the address space. */
  method Dump(m: Memory, root: nat, ghost t: Tables, ghost levels: Levels) returns (items: seq<Item>, usage: nat)
    requires Loops(levels, PGD) && Readable(m, t) && Names(m, root, PGD, 256, t.pdpts)
    ensures items == List(m, root, levels, 0, 256) && usage == Usage(items)
  {
    items, usage := DumpPml4(m, root, 0, 256, t, levels, [], 0);
    assert [] + List(m, root, levels, 0, 256) == List(m, root, levels, 0, 256);
  }

  // ---- The dump against the library's walk -------------------------------------------------------------

  /** An entry that names a table names one whose frame fits into the narrow frame field. */
  predicate NarrowFrame(v: Visit) {
    UserDescends(X86, v.level, v.entry) ==> v.entry * Bits(40, 52) == {}
  }

  /** The dump follows the library's walk exactly when the frames of all tables fit into the narrow
      frame field. */
  lemma DumpPathAgrees(m: Memory, table: nat, a: nat, levels: Levels)
    requires Ranked(levels)
    ensures Path(DumpRules(), m, table, a, levels) == Path(UserRules(X86), m, table, a, levels) <==>
            forall v :: v in Path(UserRules(X86), m, table, a, levels) && v.level != PTE ==> NarrowFrame(v)
  {
    SamePaths(UserRules(X86), DumpRules(), m, table, a, levels);
    forall v: Visit
      ensures NarrowFrame(v) <==> Alike(UserRules(X86), DumpRules(), v)
    {
      FrameFieldsAgree(v.entry);
    }
  }

  lemma LoopLayout()
    ensures Loops(LevelsOf(X86_64), PGD) && Sized(LevelsOf(X86_64))
  {
    KnownLevels();
  }

  /** The dump lists a page exactly when it lies in the lower half and the library's walk of its
      first address ends in a present 4 KiB PTE or a present 2 MiB PMD. It lists pages in strictly
      ascending order, and its total is the size of the listed pages, at most 2^47 bytes. */
  lemma DumpIsExact(m: Memory, root: nat, levels: Levels, item: Item)
    requires levels == LevelsOf(X86_64) && root != 0
    requires forall v :: v in Walk(Walker(UserRules(X86), levels), m, root, item.va) && v.level != PTE ==>
                           NarrowFrame(v)
    ensures var items := List(m, root, levels, 0, 256);
            && (item in items <==>
                  && item.va < 0x8000_0000_0000 && item.va % Size(item.large) == 0
                  && LeafKind(Walk(Walker(UserRules(X86), levels), m, root, item.va)) == Some(item.large))
            && Ascending(items)
            && Usage(items) == 4096 * Count(items, false) + 0x20_0000 * Count(items, true)
            && Usage(items) <= 0x8000_0000_0000
  {
    LoopLayout();
    X86Layout();
    ListMember(m, root, levels, 0, 256, item);
    DumpPathAgrees(m, root, item.va, levels);
    ListOrder(m, root, levels, 0, 256, 0x8000_0000_0000);
    UsageCounts(List(m, root, levels, 0, 256));
  }
}
