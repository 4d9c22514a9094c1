/** The radix tree seen generically: indices, the recursive lookup, and the arithmetic of
    splitting an address into level indices and putting it together again. */
module Radix {
  import opened Paging

  /** The index of an address in a table of the topmost level. */
  function Index(levels: Levels, a: nat): (i: nat)
    requires levels.More?
  {
    a / levels.span % levels.count
  }

  /** One entry read by a walk: its level, the table it lies in, its address and its value. */
  datatype Visit = Visit(level: Level, table: nat, slot: nat, entry: Word)

  /** The recursive radix-tree lookup: everything a walk reads, from the given table down. */
  function Path(rules: Rules, m: Memory, table: nat, a: nat, levels: Levels): seq<Visit>
    decreases levels
  {
    match levels
    case Done => []
    case More(level, span, count, rest) =>
      var slot := table + 8 * Index(levels, a);
      var e := Read(m, slot);
      [Visit(level, table, slot, e)] +
      if rules.descends(level, e) then Path(rules, m, rules.table(e), a, rest) else []
  }

  /** One step of the lookup, for a table that is known. */
  lemma PathStep(rules: Rules, m: Memory, table: nat, a: nat, levels: Levels)
    requires levels.More?
    ensures var p := Path(rules, m, table, a, levels);
            var slot := table + 8 * Index(levels, a);
            var e := Read(m, slot);
            && p != [] && p[0] == Visit(levels.level, table, slot, e)
            && p[1..] == if rules.descends(levels.level, e) then Path(rules, m, rules.table(e), a, levels.rest) else []
  {
  }

  /** What interprets the tables: the entry rules and the tree layout. */
  datatype Walker = Walker(rules: Rules, levels: Levels)

  /** A walk from the root of an address space; a null root is never followed. */
  function Walk(w: Walker, m: Memory, root: nat, a: nat): seq<Visit> {
    if root == 0 then [] else Path(w.rules, m, root, a, w.levels)
  }

  // ---- Layouts ---------------------------------------------------------------------

  /** The bytes of address space one table of the topmost level covers. */
  function Reach(levels: Levels, unit: Positive): Positive {
    match levels
    case Done => unit
    case More(_, span, count, _) => MulPositive(span, count); span * count
  }

  lemma MulPositive(x: Positive, y: Positive)
    ensures x * y > 0
  {
  }

  /** Each entry covers exactly what the table below it covers; the last one covers a page. */
  predicate Contiguous(levels: Levels, unit: Positive) {
    levels.More? ==>
      && levels.span == Reach(levels.rest, unit)
      && Contiguous(levels.rest, unit)
  }

  /** All tables hold the same number of entries. */
  predicate Uniform(levels: Levels, count: Positive) {
    levels.More? ==> levels.count == count && Uniform(levels.rest, count)
  }

  predicate HasLevel(levels: Levels, level: Level) {
    levels.More? && (levels.level == level || HasLevel(levels.rest, level))
  }

  /** No level occurs twice, and only page tables are last. */
  predicate Ranked(levels: Levels) {
    levels.More? ==>
      && !HasLevel(levels.rest, levels.level)
      && (levels.level == PTE <==> levels.rest.Done?)
      && Ranked(levels.rest)
  }

  /** A radix layout with pages of `unit` bytes and tables of `count` entries. */
  predicate Proper(levels: Levels, unit: Positive, count: Positive) {
    Contiguous(levels, unit) && Uniform(levels, count) && Ranked(levels)
  }

  /** A level put on top of a layout: its entries cover what the table below them covers. */
  lemma OnTop(top: Levels, unit: Positive, count: Positive)
    requires top.More? && top.count == count && Proper(top.rest, unit, count) && top.span == Reach(top.rest, unit)
    requires !HasLevel(top.rest, top.level) && (top.level == PTE <==> top.rest.Done?)
    ensures Proper(top, unit, count) && Reach(top, unit) == top.span * count
  {
  }

  /** Every paging definition of the library is a radix layout, covering 48, 58 and 39 bits. */
  lemma X86Layout()
    ensures Proper(LevelsOf(X86_64), 4096, 512)
    ensures Reach(LevelsOf(X86_64), 4096) == 0x1_0000_0000_0000
  {
    KnownLevels();
    var levels := LevelsOf(X86_64);
    OnTop(levels.rest.rest.rest, 4096, 512);
    OnTop(levels.rest.rest, 4096, 512);
    OnTop(levels.rest, 4096, 512);
    OnTop(levels, 4096, 512);
  }

  lemma Arm16KLayout()
    ensures Proper(LevelsOf(ARM_16K), 16384, 2048)
    ensures Reach(LevelsOf(ARM_16K), 16384) == 0x400_0000_0000_0000
  {
    KnownLevels();
    var levels := LevelsOf(ARM_16K);
    OnTop(levels.rest.rest.rest, 16384, 2048);
    OnTop(levels.rest.rest, 16384, 2048);
    OnTop(levels.rest, 16384, 2048);
    OnTop(levels, 16384, 2048);
  }

  lemma Arm4KLayout()
    ensures Proper(LevelsOf(ARM_4K), 4096, 512)
    ensures Reach(LevelsOf(ARM_4K), 4096) == 0x80_0000_0000
  {
    KnownLevels();
    var levels := LevelsOf(ARM_4K);
    OnTop(levels.rest.rest, 4096, 512);
    OnTop(levels.rest, 4096, 512);
    OnTop(levels, 4096, 512);
  }

  // ---- Splitting and reassembling addresses ----------------------------------------

  /** All level indices of an address, root first. */
  function Indices(levels: Levels, a: nat): seq<nat> {
    if levels.Done? then [] else [Index(levels, a)] + Indices(levels.rest, a)
  }

  /** The address that indices and a page offset make up: each index times its span. */
  function Assemble(levels: Levels, indices: seq<nat>, offset: nat): nat {
    if levels.Done? || indices == [] then offset
    else indices[0] * levels.span + Assemble(levels.rest, indices[1..], offset)
  }

  /** The address bits a walk looks at: the first address of the page, in the covered range. */
  function PageBase(levels: Levels, a: nat): nat {
    Assemble(levels, Indices(levels, a), 0)
  }

  /** One index per level, each within its table. */
  predicate IndicesFit(levels: Levels, indices: seq<nat>) {
    if levels.Done? then indices == []
    else indices != [] && indices[0] < levels.count && IndicesFit(levels.rest, indices[1..])
  }

  lemma QuotientUnique(x: int, d: int, q: int, r: int)
    requires d > 0 && x == q * d + r && 0 <= r < d
    ensures x / d == q && x % d == r
  {
    var gap := q - x / d;
    assert gap * d == x % d - r;
    if gap >= 1 {
      ScaleUp(gap, d);
    } else if gap <= -1 {
      ScaleUp(-gap, d);
    }
  }

  lemma ScaleUp(k: int, d: int)
    requires k >= 1 && d > 0
    ensures k * d >= d
  {
  }

  lemma SumTimes(q: int, high: int, digit: int, low: int)
    ensures (q * high + digit) * low == q * (low * high) + digit * low
  {
  }

  lemma DigitFits(digit: nat, high: nat, low: nat)
    requires digit < high
    ensures digit * low + low <= low * high
  {
    assert (digit + 1) * low <= high * low;
  }

  /** A remainder by a product is the two digits it is made of. */
  lemma TwoDigits(x: nat, low: Positive, high: Positive)
    ensures low * high > 0
    ensures x % (low * high) == x / low % high * low + x % low
  {
    var digit := x / low % high;
    var rest := x % low;
    MulPositive(low, high);
    assert x == (x / low / high * high + digit) * low + rest;
    SumTimes(x / low / high, high, digit, low);
    DigitFits(digit, high, low);
    QuotientUnique(x, low * high, x / low / high, digit * low + rest);
  }

  /** Indices and offset put together give back the address modulo the covered range. */
  lemma {:induction false} SplitThenAssemble(levels: Levels, unit: Positive, a: nat)
    requires Contiguous(levels, unit)
    ensures IndicesFit(levels, Indices(levels, a))
    ensures Assemble(levels, Indices(levels, a), a % unit) == a % Reach(levels, unit)
  {
    if levels.More? {
      SplitThenAssemble(levels.rest, unit, a);
      TwoDigits(a, levels.span, levels.count);
      assert Indices(levels, a)[1..] == Indices(levels.rest, a);
    }
  }

  /** Fitting indices stay below the covered range. */
  lemma {:induction false} AssembleBound(levels: Levels, unit: Positive, indices: seq<nat>, offset: nat)
    requires Contiguous(levels, unit) && IndicesFit(levels, indices) && offset < unit
    ensures Assemble(levels, indices, offset) < Reach(levels, unit)
  {
    if levels.More? {
      AssembleBound(levels.rest, unit, indices[1..], offset);
      assert (indices[0] + 1) * levels.span <= levels.count * levels.span;
    }
  }

  /** Indices of an address do not depend on what lies above the covered range. */
  lemma {:induction false} IndicesModulo(levels: Levels, unit: Positive, a: nat, k: nat)
    requires Contiguous(levels, unit)
    ensures k * Reach(levels, unit) >= 0
    ensures Indices(levels, a + k * Reach(levels, unit)) == Indices(levels, a)
  {
    if levels.More? {
      var reach := Reach(levels, unit);
      var b := a + k * reach;
      assert k * reach == k * levels.count * levels.span;
      QuotientUnique(b, levels.span, a / levels.span + k * levels.count, a % levels.span);
      QuotientUnique(b / levels.span, levels.count, a / levels.span / levels.count + k, a / levels.span % levels.count);
      IndicesModulo(levels.rest, unit, a, k * levels.count);
      assert k * levels.count * Reach(levels.rest, unit) == k * reach;
    }
  }

  /** Splitting an assembled address gives back the indices it was made of. */
  lemma {:induction false} AssembleThenSplit(levels: Levels, unit: Positive, indices: seq<nat>, offset: nat)
    requires Contiguous(levels, unit) && IndicesFit(levels, indices) && offset < unit
    ensures Indices(levels, Assemble(levels, indices, offset)) == indices
  {
    if levels.More? {
      var low := Assemble(levels.rest, indices[1..], offset);
      AssembleBound(levels.rest, unit, indices[1..], offset);
      AssembleThenSplit(levels.rest, unit, indices[1..], offset);
      IndicesModulo(levels.rest, unit, low, indices[0]);
      var a := Assemble(levels, indices, offset);
      assert a == low + indices[0] * Reach(levels.rest, unit);
      QuotientUnique(a, levels.span, indices[0], low);
      QuotientUnique(indices[0], levels.count, 0, indices[0]);
      assert indices == [indices[0]] + indices[1..];
    }
  }

  /** The page base is the address without its page offset, modulo the covered range. */
  lemma PageBaseIsAddressBits(levels: Levels, unit: Positive, a: nat)
    requires Contiguous(levels, unit)
    ensures PageBase(levels, a) == a % Reach(levels, unit) - a % unit
    ensures Indices(levels, PageBase(levels, a)) == Indices(levels, a)
  {
    SplitThenAssemble(levels, unit, a);
    OffsetAdds(levels, Indices(levels, a), a % unit);
    AssembleThenSplit(levels, unit, Indices(levels, a), 0);
  }

  lemma {:induction false} OffsetAdds(levels: Levels, indices: seq<nat>, offset: nat)
    ensures Assemble(levels, indices, offset) == Assemble(levels, indices, 0) + offset
  {
    if levels.More? && indices != [] {
      OffsetAdds(levels.rest, indices[1..], offset);
    }
  }

  /** Two addresses have the same indices exactly when they lie in the same page. */
  lemma SamePageSameIndices(levels: Levels, unit: Positive, a: nat, b: nat)
    requires Contiguous(levels, unit)
    ensures Indices(levels, a) == Indices(levels, b) <==> PageBase(levels, a) == PageBase(levels, b)
  {
    PageBaseIsAddressBits(levels, unit, a);
    PageBaseIsAddressBits(levels, unit, b);
  }

  // ---- Facts about walks -----------------------------------------------------------

  /** A walk depends on the address only through its indices. */
  lemma {:induction false} PathByIndices(rules: Rules, m: Memory, table: nat, a: nat, b: nat, levels: Levels)
    requires Indices(levels, a) == Indices(levels, b)
    ensures Path(rules, m, table, a, levels) == Path(rules, m, table, b, levels)
    decreases levels
  {
    if levels.More? {
      assert Indices(levels, a)[0] == Indices(levels, b)[0];
      assert Indices(levels, a)[1..] == Indices(levels, b)[1..];
      var e := Read(m, table + 8 * Index(levels, a));
      PathByIndices(rules, m, rules.table(e), a, b, levels.rest);
    }
  }

  /** All addresses of a page resolve alike. */
  lemma SamePageSameWalk(w: Walker, unit: Positive, m: Memory, root: nat, a: nat, b: nat)
    requires Contiguous(w.levels, unit) && PageBase(w.levels, a) == PageBase(w.levels, b)
    ensures Walk(w, m, root, a) == Walk(w, m, root, b)
  {
    SamePageSameIndices(w.levels, unit, a, b);
    PathByIndices(w.rules, m, root, a, b, w.levels);
  }

  /** Two ways of reading entries take a visit alike: both go on, to the same table, or neither. */
  predicate Alike(rules: Rules, rules': Rules, v: Visit) {
    && rules.descends(v.level, v.entry) == rules'.descends(v.level, v.entry)
    && (rules.descends(v.level, v.entry) ==> rules.table(v.entry) == rules'.table(v.entry))
  }

  /** Two ways of reading entries make the same walk exactly when they take every entry above the
      page table alike. */
  lemma {:induction false} SamePaths(rules: Rules, rules': Rules, m: Memory, table: nat, a: nat, levels: Levels)
    requires Ranked(levels)
    ensures Path(rules', m, table, a, levels) == Path(rules, m, table, a, levels) <==>
            forall v :: v in Path(rules, m, table, a, levels) && v.level != PTE ==> Alike(rules, rules', v)
    decreases levels
  {
    if levels.More? {
      var p, p' := Path(rules, m, table, a, levels), Path(rules', m, table, a, levels);
      var v0 := Visit(levels.level, table, table + 8 * Index(levels, a), Read(m, table + 8 * Index(levels, a)));
      assert p[0] == v0 && p'[0] == v0 && v0 in p;
      if levels.level != PTE && Alike(rules, rules', v0) {
        if rules.descends(v0.level, v0.entry) {
          var below := rules.table(v0.entry);
          SamePaths(rules, rules', m, below, a, levels.rest);
          assert p == [v0] + Path(rules, m, below, a, levels.rest);
          assert p' == [v0] + Path(rules', m, below, a, levels.rest);
          assert p[1..] == Path(rules, m, below, a, levels.rest) && p'[1..] == Path(rules', m, below, a, levels.rest);
        }
      } else if levels.level != PTE {
        OtherCourse(rules, rules', m, table, a, levels);
      }
    }
  }

  /** Where an entry is not taken alike, the walks differ right after it. */
  lemma OtherCourse(rules: Rules, rules': Rules, m: Memory, table: nat, a: nat, levels: Levels)
    requires levels.More? && levels.rest.More?
    requires var slot := table + 8 * Index(levels, a);
             !Alike(rules, rules', Visit(levels.level, table, slot, Read(m, slot)))
    ensures Path(rules', m, table, a, levels) != Path(rules, m, table, a, levels)
  {
    PathStep(rules, m, table, a, levels);
    PathStep(rules', m, table, a, levels);
    var e := Read(m, table + 8 * Index(levels, a));
    PathStep(rules, m, rules.table(e), a, levels.rest);
    PathStep(rules', m, rules'.table(e), a, levels.rest);
  }

  /** The index used at a level. */
  function IndexAt(levels: Levels, level: Level, a: nat): nat
    requires HasLevel(levels, level)
  {
    if levels.level == level then Index(levels, a) else IndexAt(levels.rest, level, a)
  }

  /** Every visit reads the slot its index selects in its table. */
  lemma {:induction false} VisitShape(rules: Rules, m: Memory, table: nat, a: nat, levels: Levels, v: Visit)
    requires Ranked(levels) && v in Path(rules, m, table, a, levels)
    ensures HasLevel(levels, v.level)
    ensures v.slot == v.table + 8 * IndexAt(levels, v.level, a)
    ensures v.entry == Read(m, v.slot)
    decreases levels
  {
    if v in Path(rules, m, table, a, levels)[1..] {
      VisitShape(rules, m, rules.table(Read(m, table + 8 * Index(levels, a))), a, levels.rest, v);
    }
  }

  /** Every table below the root is named by an entry. */
  lemma {:induction false} VisitFrame(rules: Rules, bound: nat, m: Memory, table: nat, a: nat, levels: Levels, v: Visit)
    requires Framed(rules, bound) && v in Path(rules, m, table, a, levels)
    ensures v.table == table || (v.table % 4096 == 0 && v.table < bound)
    decreases levels
  {
    if v in Path(rules, m, table, a, levels)[1..] {
      VisitFrame(rules, bound, m, rules.table(Read(m, table + 8 * Index(levels, a))), a, levels.rest, v);
    }
  }

  lemma {:induction false} IndexInTable(levels: Levels, count: Positive, level: Level, a: nat)
    requires Uniform(levels, count) && HasLevel(levels, level)
    ensures IndexAt(levels, level, a) < count
  {
    if levels.level != level {
      IndexInTable(levels.rest, count, level, a);
    }
  }

  lemma SlotArithmetic(table: nat, i: nat, count: Positive, bound: nat)
    requires i < count
    ensures table <= table + 8 * i < table + 8 * count
    ensures table % 8 == 0 ==> (table + 8 * i) % 8 == 0
    ensures table % (8 * count) == 0 ==> (table + 8 * i) / (8 * count) * (8 * count) == table
    ensures table % (8 * count) == 0 && bound % (8 * count) == 0 && table < bound ==> table + 8 * i < bound
  {
    if table % 8 == 0 {
      QuotientUnique(table + 8 * i, 8, table / 8 + i, 0);
    }
    if table % (8 * count) == 0 {
      SlotOfAligned(table, 8 * i, 8 * count, bound);
    }
  }

  lemma SlotOfAligned(table: nat, offset: nat, size: Positive, bound: nat)
    requires offset < size && table % size == 0
    ensures (table + offset) / size * size == table
    ensures bound % size == 0 && table < bound ==> table + offset < bound
  {
    QuotientUnique(table + offset, size, table / size, offset);
    if bound % size == 0 && table < bound {
      AlignedBelow(table / size, bound / size, size);
    }
  }

  lemma AlignedBelow(q: nat, q': nat, size: Positive)
    requires q * size < q' * size
    ensures q * size + size <= q' * size
  {
    assert q < q';
    assert (q + 1) * size <= q' * size;
  }

  /** Every slot lies in its table, 8-byte aligned if the root is. A table that is aligned to its
      size is the frame of all its slots, and they stay below the bound of the frame field. */
  lemma SlotInFrame(w: Walker, count: Positive, bound: nat, m: Memory, root: nat, a: nat, v: Visit)
    requires Ranked(w.levels) && Uniform(w.levels, count) && Framed(w.rules, bound)
    requires v in Walk(w, m, root, a)
    ensures v.table <= v.slot < v.table + 8 * count
    ensures root % 8 == 0 ==> v.slot % 8 == 0
    ensures v.table % (8 * count) == 0 ==> v.slot / (8 * count) * (8 * count) == v.table
    ensures v.table == root || (v.table % 4096 == 0 && v.table < bound)
    ensures v.table != root && v.table % (8 * count) == 0 && bound % (8 * count) == 0 ==> v.slot < bound
  {
    VisitShape(w.rules, m, root, a, w.levels, v);
    VisitFrame(w.rules, bound, m, root, a, w.levels, v);
    IndexInTable(w.levels, count, v.level, a);
    SlotArithmetic(v.table, IndexAt(w.levels, v.level, a), count, bound);
    if v.table % 4096 == 0 {
      QuotientUnique(v.table, 8, v.table / 4096 * 512, 0);
    }
  }
}
