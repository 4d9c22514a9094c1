/** Tree-shaped tables in one flat memory: a slot belongs to one page, so writing a page-table
    entry is a point update of the flat map from (address space, page) to entry. */
module Tree {
  import opened Paging
  import opened Radix

  /** A table as a walk reaches it: its level and its address. */
  datatype Place = Place(level: Level, table: nat)

  function Places(p: seq<Visit>): seq<Place> {
    if p == [] then [] else [Place(p[0].level, p[0].table)] + Places(p[1..])
  }

  /** The tables on the way to an address. */
  function Tables(w: Walker, m: Memory, root: nat, a: nat): seq<Place> {
    Places(Walk(w, m, root, a))
  }

  /** The indices of an address above a level: the chain of entries that leads to its table. */
  function Above(levels: Levels, level: Level, a: nat): seq<nat> {
    if levels.Done? || levels.level == level then [] else [Index(levels, a)] + Above(levels.rest, level, a)
  }

  /** The one path that leads to a table: its root, its level, and the chain of entries. */
  datatype Owner = Owner(root: nat, level: Level, above: seq<nat>)

  /** The address spaces of a set of roots, with pages of `unit` bytes and tables of `count`
      entries, and the path that owns each table. Only pages below `limit` are looked at, so that
      the kernel half, which processes share, can be left out. */
  datatype Forest = Forest(walker: Walker, unit: Positive, count: Positive,
                           roots: set<nat>, limit: nat, owners: map<nat, Owner>) {

    predicate Covers(r: nat, a: nat) {
      r in roots && Page(a) < limit
    }

    /** Tree-shaped tables: every table a walk reaches, for any root and any address, is aligned
        to its size and is reached by the one path that owns it. */
    ghost predicate Shaped(m: Memory) {
      && Proper(walker.levels, unit, count)
      && forall r, a, t :: Covers(r, a) && t in Tables(walker, m, r, a) ==> Owned(r, a, t)
    }

    predicate Owned(r: nat, a: nat, t: Place) {
      && t.table % (8 * count) == 0
      && t.table in owners
      && owners[t.table] == Owner(r, t.level, Above(walker.levels, t.level, a))
    }

    /** The first address of the page of an address, within the range the tables cover. */
    function Page(a: nat): nat {
      PageBase(walker.levels, a)
    }
  }

  /** The page-table entry of an address, if the walk gets that far. It is found by its upper
      levels alone: the entry itself need not be present. */
  function Pte(w: Walker, m: Memory, root: nat, a: nat): (v: Option<Visit>)
    ensures v.Some? ==> v.value in Walk(w, m, root, a) && v.value.level == PTE
  {
    LastPte(Walk(w, m, root, a))
  }

  function LastPte(p: seq<Visit>): (v: Option<Visit>)
    ensures v.Some? ==> v.value in p && v.value.level == PTE
  {
    if p != [] && p[|p| - 1].level == PTE then Some(p[|p| - 1]) else None
  }

  // ---- A slot identifies its page --------------------------------------------------

  lemma {:induction false} VisitHasPlace(p: seq<Visit>, v: Visit)
    requires v in p
    ensures Place(v.level, v.table) in Places(p)
  {
    if v != p[0] {
      VisitHasPlace(p[1..], v);
    }
  }

  lemma EqualSlots(size: Positive, t: nat, i: nat, t': nat, i': nat)
    requires t % size == 0 && t' % size == 0 && i < size && i' < size
    requires t + i == t' + i'
    ensures t == t' && i == i'
  {
    QuotientUnique(t + i, size, t / size, i);
    QuotientUnique(t + i, size, t' / size, i');
  }

  lemma SlotSplits(w: Walker, unit: Positive, count: Positive, m: Memory,
                   r: nat, a: nat, v: Visit, r': nat, a': nat, v': Visit)
    requires Proper(w.levels, unit, count)
    requires v in Walk(w, m, r, a) && v.table % (8 * count) == 0
    requires v' in Walk(w, m, r', a') && v'.table % (8 * count) == 0
    requires v.slot == v'.slot
    ensures v.table == v'.table && HasLevel(w.levels, v.level) && HasLevel(w.levels, v'.level)
    ensures IndexAt(w.levels, v.level, a) == IndexAt(w.levels, v'.level, a')
  {
    VisitShape(w.rules, m, r, a, w.levels, v);
    VisitShape(w.rules, m, r', a', w.levels, v');
    IndexInTable(w.levels, count, v.level, a);
    IndexInTable(w.levels, count, v'.level, a');
    EqualSlots(8 * count, v.table, 8 * IndexAt(w.levels, v.level, a), v'.table, 8 * IndexAt(w.levels, v'.level, a'));
  }

  lemma {:induction false} AgreeEverywhere(levels: Levels, a: nat, b: nat)
    requires Ranked(levels) && HasLevel(levels, PTE)
    requires Above(levels, PTE, a) == Above(levels, PTE, b) && IndexAt(levels, PTE, a) == IndexAt(levels, PTE, b)
    ensures Indices(levels, a) == Indices(levels, b)
  {
    if levels.level != PTE {
      assert Above(levels, PTE, a)[0] == Above(levels, PTE, b)[0];
      assert Above(levels, PTE, a)[1..] == Above(levels, PTE, b)[1..];
      AgreeEverywhere(levels.rest, a, b);
    }
  }

  /** In tree-shaped tables two pages share a page-table slot only if they are the same page. */
  lemma SlotHasOnePage(f: Forest, m: Memory, r: nat, a: nat, v: Visit, r': nat, a': nat, v': Visit)
    requires f.Shaped(m) && f.Covers(r, a) && f.Covers(r', a')
    requires v in Walk(f.walker, m, r, a) && v' in Walk(f.walker, m, r', a')
    requires v.slot == v'.slot && v.level == PTE
    ensures v'.level == PTE && r == r' && f.Page(a) == f.Page(a')
  {
    VisitHasPlace(Walk(f.walker, m, r, a), v);
    VisitHasPlace(Walk(f.walker, m, r', a'), v');
    assert Place(v.level, v.table) in Tables(f.walker, m, r, a);
    assert Place(v'.level, v'.table) in Tables(f.walker, m, r', a');
    SlotSplits(f.walker, f.unit, f.count, m, r, a, v, r', a', v');
    AgreeEverywhere(f.walker.levels, a, a');
  }

  /** A walk reads a slot only as a page-table entry, and only if it is a walk of its page. */
  ghost predicate OnlyPte(p: seq<Visit>, slot: nat, here: bool) {
    forall v :: v in p && v.slot == slot ==> v.level == PTE && here
  }

  lemma PteSlotIsPrivate(f: Forest, m: Memory, r: nat, a: nat, r': nat, a': nat)
    requires f.Shaped(m) && f.Covers(r, a) && f.Covers(r', a') && Pte(f.walker, m, r, a).Some?
    ensures OnlyPte(Walk(f.walker, m, r', a'), Pte(f.walker, m, r, a).value.slot, r' == r && f.Page(a') == f.Page(a))
  {
    var v := Pte(f.walker, m, r, a).value;
    forall v' | v' in Walk(f.walker, m, r', a') && v'.slot == v.slot
      ensures v'.level == PTE && r' == r && f.Page(a') == f.Page(a)
    {
      SlotHasOnePage(f, m, r, a, v, r', a', v');
    }
  }

  // ---- Writing one page-table entry ------------------------------------------------

  /** The visits of a walk after the word at one slot changed its value. */
  function Retouch(p: seq<Visit>, slot: nat, x: Word): seq<Visit> {
    if p == [] then []
    else [if p[0].slot == slot then p[0].(entry := x) else p[0]] + Retouch(p[1..], slot, x)
  }

  lemma OnlyPteBelow(p: seq<Visit>, slot: nat, here: bool)
    requires p != [] && OnlyPte(p, slot, here)
    ensures OnlyPte(p[1..], slot, here)
  {
    forall v | v in p[1..] && v.slot == slot
      ensures v.level == PTE && here
    {
      assert v in p;
    }
  }

  /** Writing a slot that is read at most as a page-table entry leaves the course of a walk alone. */
  lemma {:induction false} PathAfterWrite(rules: Rules, m: Memory, slot: nat, x: Word, table: nat, a: nat,
                                          levels: Levels, here: bool)
    requires Ranked(levels)
    requires OnlyPte(Path(rules, m, table, a, levels), slot, here)
    ensures Path(rules, Write(m, slot, x), table, a, levels)
         == Retouch(Path(rules, m, table, a, levels), slot, Read(Write(m, slot, x), slot))
    decreases levels
  {
    if levels.More? {
      var p := Path(rules, m, table, a, levels);
      var e := p[0].entry;
      assert p[0] in p;
      if rules.descends(levels.level, e) {
        var below := Path(rules, m, rules.table(e), a, levels.rest);
        assert p[1..] == below;
        OnlyPteBelow(p, slot, here);
        PathAfterWrite(rules, m, slot, x, rules.table(e), a, levels.rest, here);
      } else {
        assert p[1..] == [];
      }
    }
  }

  lemma {:induction false} RetouchElsewhere(p: seq<Visit>, slot: nat, x: Word)
    requires forall v :: v in p ==> v.slot != slot
    ensures Retouch(p, slot, x) == p
  {
    if p != [] {
      assert p[0] in p && forall v :: v in p[1..] ==> v in p;
      RetouchElsewhere(p[1..], slot, x);
    }
  }

  lemma {:induction false} RetouchAt(p: seq<Visit>, slot: nat, x: Word, i: nat)
    requires i < |p|
    ensures |Retouch(p, slot, x)| == |p|
    ensures Retouch(p, slot, x)[i] == if p[i].slot == slot then p[i].(entry := x) else p[i]
  {
    if i == 0 {
      if |p| > 1 {
        RetouchAt(p[1..], slot, x, 0);
      }
    } else {
      RetouchAt(p[1..], slot, x, i - 1);
    }
  }

  lemma WalkAfterWrite(w: Walker, m: Memory, slot: nat, x: Word, r: nat, a: nat, here: bool)
    requires Ranked(w.levels) && OnlyPte(Walk(w, m, r, a), slot, here)
    ensures var m' := Write(m, slot, x);
            Walk(w, m', r, a) == if here then Retouch(Walk(w, m, r, a), slot, Read(m', slot)) else Walk(w, m, r, a)
  {
    if r != 0 {
      PathAfterWrite(w.rules, m, slot, x, r, a, w.levels, here);
      if !here {
        RetouchElsewhere(Walk(w, m, r, a), slot, Read(Write(m, slot, x), slot));
      }
    }
  }

  /** Writing the page-table entry of one page changes the walks of that page only, and of
      those only the page-table entry. */
  lemma PointUpdate(f: Forest, m: Memory, r: nat, a: nat, x: Word, r': nat, a': nat)
    requires f.Shaped(m) && f.Covers(r, a) && f.Covers(r', a') && Pte(f.walker, m, r, a).Some?
    ensures var slot := Pte(f.walker, m, r, a).value.slot;
            var m' := Write(m, slot, x);
            Walk(f.walker, m', r', a') ==
            if r' == r && f.Page(a') == f.Page(a)
            then Retouch(Walk(f.walker, m, r', a'), slot, Read(m', slot)) else Walk(f.walker, m, r', a')
  {
    PteSlotIsPrivate(f, m, r, a, r', a');
    WalkAfterWrite(f.walker, m, Pte(f.walker, m, r, a).value.slot, x, r', a', r' == r && f.Page(a') == f.Page(a));
  }

  /** The page-table entry found after the write: the same slot, with the new value in the
      written page and the old one in every other. */
  lemma PteAfterWrite(f: Forest, m: Memory, r: nat, a: nat, x: Word, r': nat, a': nat)
    requires f.Shaped(m) && f.Covers(r, a) && f.Covers(r', a') && Pte(f.walker, m, r, a).Some?
    ensures var slot := Pte(f.walker, m, r, a).value.slot;
            var m' := Write(m, slot, x);
            Pte(f.walker, m', r', a') ==
            if r' == r && f.Page(a') == f.Page(a)
            then Some(Pte(f.walker, m, r, a).value.(entry := Read(m', slot))) else Pte(f.walker, m, r', a')
  {
    PointUpdate(f, m, r, a, x, r', a');
    if r' == r && f.Page(a') == f.Page(a) {
      SamePageSameWalk(f.walker, f.unit, m, r, a, a');
      var v := Pte(f.walker, m, r, a).value;
      RetouchLast(Walk(f.walker, m, r, a), v, Read(Write(m, v.slot, x), v.slot));
    }
  }

  lemma RetouchLast(p: seq<Visit>, v: Visit, x: Word)
    requires p != [] && p[|p| - 1] == v
    ensures var q := Retouch(p, v.slot, x); |q| == |p| && q[|q| - 1] == v.(entry := x)
  {
    RetouchAt(p, v.slot, x, |p| - 1);
  }

  lemma {:induction false} RetouchKeepsPlaces(p: seq<Visit>, slot: nat, x: Word)
    ensures Places(Retouch(p, slot, x)) == Places(p)
  {
    if p != [] {
      RetouchKeepsPlaces(p[1..], slot, x);
      assert Retouch(p, slot, x)[1..] == Retouch(p[1..], slot, x);
    }
  }

  /** Tables stay tree shaped when a page-table entry is written. */
  lemma WriteKeepsTree(f: Forest, m: Memory, r: nat, a: nat, x: Word)
    requires f.Shaped(m) && f.Covers(r, a) && Pte(f.walker, m, r, a).Some?
    ensures f.Shaped(Write(m, Pte(f.walker, m, r, a).value.slot, x))
  {
    var slot := Pte(f.walker, m, r, a).value.slot;
    var m' := Write(m, slot, x);
    forall r', a', t | f.Covers(r', a') && t in Tables(f.walker, m', r', a')
      ensures f.Owned(r', a', t)
    {
      PointUpdate(f, m, r, a, x, r', a');
      RetouchKeepsPlaces(Walk(f.walker, m, r', a'), slot, Read(m', slot));
      assert t in Tables(f.walker, m, r', a');
    }
  }
}
