/** Data refinement of the PTE-level API over whole runs: on tree-shaped tables any sequence of
    bit and frame edits is a sequence of point updates of a flat map. */
module Runs {
  import opened Paging
  import opened Radix
  import opened Tree
  import opened EntryBits
  import opened Reordering

  /** The abstract view: page-table entries by root and page base. */
  type Flat = imap<(nat, nat), Word>

  /** The entry of a page, if there is a page-table slot for it in readable memory. */
  function EntryAt(w: Walker, m: Memory, r: nat, a: nat): Option<Word> {
    var v := Pte(w, m, r, a);
    if v.Some? && v.value.slot in m then Some(v.value.entry) else None
  }

  /** The pages of the forest that have an entry, by root and page base, and their entries. */
  predicate Listed(f: Forest, m: Memory, k: (nat, nat)) {
    f.Covers(k.0, k.1) && f.Page(k.1) == k.1 && EntryAt(f.walker, m, k.0, k.1).Some?
  }

  function Listing(f: Forest, m: Memory, k: (nat, nat)): Word
    requires Listed(f, m, k)
  {
    EntryAt(f.walker, m, k.0, k.1).value
  }

  ghost function Flatten(f: Forest, m: Memory): Flat {
    imap k: (nat, nat) | Listed(f, m, k) :: Listing(f, m, k)
  }

  /** The effect of one PTE edit on memory: nothing without a page-table slot. */
  function EditPte(w: Walker, m: Memory, r: nat, a: nat, edit: Edit): Memory {
    var v := Pte(w, m, r, a);
    if v.Some? then Write(m, v.value.slot, Apply(edit, v.value.entry)) else m
  }

  /** The effect on the flat map: one entry, if there is one. */
  ghost function EditFlat(flat: Flat, k: (nat, nat), edit: Edit): Flat {
    if k in flat then flat[k := Apply(edit, flat[k])] else flat
  }

  /** One call of the PTE-level API. */
  datatype Op = Op(pid: int, address: nat, edit: Edit)

  /** The roots from which the walks of the processes start; an unknown process has none. */
  type Roots = map<int, nat>

  function RootOf(roots: Roots, pid: int): nat {
    if pid in roots then roots[pid] else 0
  }

  function Run(w: Walker, roots: Roots, m: Memory, ops: seq<Op>): Memory
    decreases |ops|
  {
    if ops == [] then m
    else Run(w, roots, EditPte(w, m, RootOf(roots, ops[0].pid), ops[0].address, ops[0].edit), ops[1..])
  }

  ghost function RunFlat(f: Forest, roots: Roots, flat: Flat, ops: seq<Op>): Flat
    decreases |ops|
  {
    if ops == [] then flat
    else RunFlat(f, roots, EditFlat(flat, (RootOf(roots, ops[0].pid), f.Page(ops[0].address)), ops[0].edit), ops[1..])
  }

  /** The operations stay in the address spaces of the forest, or name no process at all. */
  ghost predicate Known(f: Forest, roots: Roots, ops: seq<Op>) {
    forall op :: op in ops ==> RootOf(roots, op.pid) == 0 || f.Covers(RootOf(roots, op.pid), op.address)
  }

  // ---- One edit ---------------------------------------------------------------------

  /** A page base is its own page, and every address resolves like its page base. */
  lemma EntryOfPage(f: Forest, m: Memory, r: nat, a: nat)
    requires f.Shaped(m)
    ensures f.Page(f.Page(a)) == f.Page(a)
    ensures Walk(f.walker, m, r, f.Page(a)) == Walk(f.walker, m, r, a)
  {
    PageBaseIsAddressBits(f.walker.levels, f.unit, a);
    SamePageSameWalk(f.walker, f.unit, m, r, f.Page(a), a);
  }

  lemma EntryAfterEdit(f: Forest, m: Memory, r: nat, a: nat, edit: Edit, k: (nat, nat))
    requires f.Shaped(m) && f.Covers(r, a) && f.Covers(k.0, k.1) && f.Page(k.1) == k.1
    ensures var before := EntryAt(f.walker, m, k.0, k.1);
            EntryAt(f.walker, EditPte(f.walker, m, r, a, edit), k.0, k.1) ==
            if k == (r, f.Page(a)) && before.Some? then Some(Apply(edit, before.value)) else before
  {
    var v := Pte(f.walker, m, r, a);
    EntryOfPage(f, m, r, a);
    if v.Some? {
      PteAfterWrite(f, m, r, a, Apply(edit, v.value.entry), k.0, k.1);
    }
  }

  lemma EditKeepsTree(f: Forest, m: Memory, r: nat, a: nat, edit: Edit)
    requires f.Shaped(m) && (r == 0 || f.Covers(r, a))
    ensures f.Shaped(EditPte(f.walker, m, r, a, edit))
    ensures EditPte(f.walker, m, r, a, edit).Keys == m.Keys
  {
    var v := Pte(f.walker, m, r, a);
    if v.Some? {
      WriteKeepsTree(f, m, r, a, Apply(edit, v.value.entry));
    }
  }

  lemma ListingAfterEdit(f: Forest, m: Memory, r: nat, a: nat, edit: Edit, k: (nat, nat))
    requires f.Shaped(m) && (r == 0 || f.Covers(r, a))
    ensures var m' := EditPte(f.walker, m, r, a, edit);
            && (Listed(f, m', k) <==> Listed(f, m, k))
            && (Listed(f, m, k) ==>
                  Listing(f, m', k) == if k == (r, f.Page(a)) then Apply(edit, Listing(f, m, k)) else Listing(f, m, k))
  {
    if f.Covers(k.0, k.1) && f.Page(k.1) == k.1 && r != 0 {
      EntryAfterEdit(f, m, r, a, edit, k);
    }
  }

  /** A flat map with the entries that are listed is the abstract view. */
  lemma SameFlat(f: Forest, m: Memory, flat: Flat)
    requires forall k: (nat, nat) :: Listed(f, m, k) <==> k in flat
    requires forall k: (nat, nat) :: Listed(f, m, k) ==> Listing(f, m, k) == flat[k]
    ensures Flatten(f, m) == flat
  {
  }

  /** One edit is one point update. */
  lemma EditRefinesFlat(f: Forest, m: Memory, r: nat, a: nat, edit: Edit)
    requires f.Shaped(m) && (r == 0 || f.Covers(r, a))
    ensures Flatten(f, EditPte(f.walker, m, r, a, edit)) == EditFlat(Flatten(f, m), (r, f.Page(a)), edit)
  {
    var flat, k0 := Flatten(f, m), (r, f.Page(a));
    var m' := EditPte(f.walker, m, r, a, edit);
    forall k: (nat, nat)
      ensures Listed(f, m', k) <==> k in EditFlat(flat, k0, edit)
      ensures Listed(f, m', k) ==> Listing(f, m', k) == EditFlat(flat, k0, edit)[k]
    {
      ListingAfterEdit(f, m, r, a, edit, k);
      assert k in flat <==> Listed(f, m, k);
    }
    SameFlat(f, m', EditFlat(flat, k0, edit));
  }

  // ---- Whole runs -------------------------------------------------------------------

  /** Any sequence of edits on any addresses and processes behaves like point updates on the flat
      map, and leaves the tables tree shaped. */
  lemma {:induction false} RunRefinesFlat(f: Forest, roots: Roots, m: Memory, ops: seq<Op>)
    requires f.Shaped(m) && Known(f, roots, ops)
    ensures f.Shaped(Run(f.walker, roots, m, ops))
    ensures Flatten(f, Run(f.walker, roots, m, ops)) == RunFlat(f, roots, Flatten(f, m), ops)
    decreases |ops|
  {
    if ops != [] {
      assert ops[0] in ops && forall op :: op in ops[1..] ==> op in ops;
      var r := RootOf(roots, ops[0].pid);
      EditKeepsTree(f, m, r, ops[0].address, ops[0].edit);
      EditRefinesFlat(f, m, r, ops[0].address, ops[0].edit);
      RunRefinesFlat(f, roots, EditPte(f.walker, m, r, ops[0].address, ops[0].edit), ops[1..]);
    }
  }

  /** Two walks read the same slots, and the same entries above the page table. */
  ghost predicate SameUpper(p: seq<Visit>, q: seq<Visit>) {
    && |p| == |q|
    && forall i :: 0 <= i < |p| ==> q[i] == p[i] || (p[i].level == PTE && q[i] == p[i].(entry := q[i].entry))
  }

  /** Whatever is written to a page-table entry, the walks of all pages keep their upper entries. */
  lemma WriteKeepsUpper(f: Forest, m: Memory, r: nat, a: nat, x: Word, r': nat, a': nat)
    requires f.Shaped(m) && f.Covers(r, a) && f.Covers(r', a') && Pte(f.walker, m, r, a).Some?
    ensures var m' := Write(m, Pte(f.walker, m, r, a).value.slot, x);
            SameUpper(Walk(f.walker, m, r', a'), Walk(f.walker, m', r', a'))
  {
    var slot := Pte(f.walker, m, r, a).value.slot;
    PointUpdate(f, m, r, a, x, r', a');
    PteSlotIsPrivate(f, m, r, a, r', a');
    RetouchIsSameUpper(Walk(f.walker, m, r', a'), slot, Read(Write(m, slot, x), slot));
  }

  lemma EditKeepsUpper(f: Forest, m: Memory, r: nat, a: nat, edit: Edit, r': nat, a': nat)
    requires f.Shaped(m) && (r == 0 || f.Covers(r, a)) && f.Covers(r', a')
    ensures SameUpper(Walk(f.walker, m, r', a'), Walk(f.walker, EditPte(f.walker, m, r, a, edit), r', a'))
  {
    var v := Pte(f.walker, m, r, a);
    if v.Some? {
      WriteKeepsUpper(f, m, r, a, Apply(edit, v.value.entry), r', a');
    }
  }

  lemma RetouchIsSameUpper(p: seq<Visit>, slot: nat, x: Word)
    requires OnlyPte(p, slot, true)
    ensures SameUpper(p, Retouch(p, slot, x))
  {
    if p != [] {
      RetouchAt(p, slot, x, 0);
    }
    forall i | 0 <= i < |p|
      ensures var q := Retouch(p, slot, x);
              q[i] == p[i] || (p[i].level == PTE && q[i] == p[i].(entry := q[i].entry))
    {
      RetouchAt(p, slot, x, i);
      assert p[i] in p;
    }
  }

  lemma UpperVisit(p: seq<Visit>, q: seq<Visit>, v: Visit)
    requires SameUpper(p, q) && v in q && v.level != PTE
    ensures v in p
  {
    var i :| 0 <= i < |q| && q[i] == v;
    assert q[i] == p[i];
  }

  /** Another way of reading entries, that of the kernel or of the processor, takes every entry above
      the page tables like the forest's own walker. */
  ghost predicate AllAlike(f: Forest, rules: Rules, m: Memory) {
    forall r, a, v :: f.Covers(r, a) && v in Walk(f.walker, m, r, a) && v.level != PTE ==>
                        Alike(f.walker.rules, rules, v)
  }

  /** Then it makes the same walks. */
  lemma AlikeWalks(f: Forest, rules: Rules, m: Memory, r: nat, a: nat)
    requires f.Shaped(m) && AllAlike(f, rules, m) && f.Covers(r, a)
    ensures Walk(Walker(rules, f.walker.levels), m, r, a) == Walk(f.walker, m, r, a)
  {
    if r != 0 {
      SamePaths(f.walker.rules, rules, m, r, a, f.walker.levels);
    }
  }

  lemma WriteKeepsAlike(f: Forest, rules: Rules, m: Memory, r: nat, a: nat, x: Word)
    requires f.Shaped(m) && f.Covers(r, a) && Pte(f.walker, m, r, a).Some? && AllAlike(f, rules, m)
    ensures AllAlike(f, rules, Write(m, Pte(f.walker, m, r, a).value.slot, x))
  {
    var m' := Write(m, Pte(f.walker, m, r, a).value.slot, x);
    forall r', a', v | f.Covers(r', a') && v in Walk(f.walker, m', r', a') && v.level != PTE
      ensures Alike(f.walker.rules, rules, v)
    {
      WriteKeepsUpper(f, m, r, a, x, r', a');
      UpperVisit(Walk(f.walker, m, r', a'), Walk(f.walker, m', r', a'), v);
    }
  }

  /** No run changes an entry above the page tables, or where any walk goes. */
  lemma {:induction false} RunKeepsUpper(f: Forest, roots: Roots, m: Memory, ops: seq<Op>, r: nat, a: nat)
    requires f.Shaped(m) && Known(f, roots, ops) && f.Covers(r, a)
    ensures SameUpper(Walk(f.walker, m, r, a), Walk(f.walker, Run(f.walker, roots, m, ops), r, a))
    decreases |ops|
  {
    if ops != [] {
      assert ops[0] in ops && forall op :: op in ops[1..] ==> op in ops;
      var r' := RootOf(roots, ops[0].pid);
      EditKeepsTree(f, m, r', ops[0].address, ops[0].edit);
      EditKeepsUpper(f, m, r', ops[0].address, ops[0].edit, r, a);
      RunKeepsUpper(f, roots, EditPte(f.walker, m, r', ops[0].address, ops[0].edit), ops[1..], r, a);
    }
  }

  /** The slot an operation addresses. */
  predicate Targets(w: Walker, roots: Roots, m: Memory, op: Op, x: nat) {
    var v := Pte(w, m, RootOf(roots, op.pid), op.address);
    v.Some? && v.value.slot == x
  }

  lemma TargetsAfterEdit(f: Forest, roots: Roots, m: Memory, first: Op, op: Op, x: nat)
    requires f.Shaped(m) && Known(f, roots, [first, op])
    ensures var m' := EditPte(f.walker, m, RootOf(roots, first.pid), first.address, first.edit);
            Targets(f.walker, roots, m', op, x) <==> Targets(f.walker, roots, m, op, x)
  {
    var r, r' := RootOf(roots, first.pid), RootOf(roots, op.pid);
    assert first in [first, op] && op in [first, op];
    var v := Pte(f.walker, m, r, first.address);
    if v.Some? && r' != 0 {
      PteAfterWrite(f, m, r, first.address, Apply(first.edit, v.value.entry), r', op.address);
      if r' == r && f.Page(op.address) == f.Page(first.address) {
        SamePageSameWalk(f.walker, f.unit, m, r, first.address, op.address);
      }
    }
  }

  /** A run changes no word of memory but the page-table slots its operations address, as they
      were before the run. */
  lemma {:induction false} RunFrame(f: Forest, roots: Roots, m: Memory, ops: seq<Op>, x: nat)
    requires f.Shaped(m) && Known(f, roots, ops)
    requires forall op :: op in ops ==> !Targets(f.walker, roots, m, op, x)
    ensures Run(f.walker, roots, m, ops).Keys == m.Keys
    ensures Read(Run(f.walker, roots, m, ops), x) == Read(m, x)
    decreases |ops|
  {
    if ops != [] {
      assert ops[0] in ops && forall op :: op in ops[1..] ==> op in ops;
      var r := RootOf(roots, ops[0].pid);
      assert !Targets(f.walker, roots, m, ops[0], x);
      EditKeepsTree(f, m, r, ops[0].address, ops[0].edit);
      forall op | op in ops[1..]
        ensures !Targets(f.walker, roots, EditPte(f.walker, m, r, ops[0].address, ops[0].edit), op, x)
      {
        assert op in ops;
        TargetsAfterEdit(f, roots, m, ops[0], op, x);
      }
      RunFrame(f, roots, EditPte(f.walker, m, r, ops[0].address, ops[0].edit), ops[1..], x);
    }
  }

  // ---- Edits in any order -----------------------------------------------------------

  /** The page of an operation. */
  function PageOf(f: Forest, roots: Roots, op: Op): (nat, nat) {
    (RootOf(roots, op.pid), f.Page(op.address))
  }

  function Step(w: Walker, roots: Roots, m: Memory, op: Op): Memory {
    EditPte(w, m, RootOf(roots, op.pid), op.address, op.edit)
  }

  /** An edit leaves the page-table entries of other pages alone. */
  lemma PteAfterOther(f: Forest, roots: Roots, m: Memory, p: Op, q: Op)
    requires f.Shaped(m) && Known(f, roots, [p]) && Known(f, roots, [q]) && PageOf(f, roots, p) != PageOf(f, roots, q)
    ensures var r := RootOf(roots, q.pid);
            Pte(f.walker, Step(f.walker, roots, m, p), r, q.address) == Pte(f.walker, m, r, q.address)
  {
    assert p in [p] && q in [q];
    var r, r' := RootOf(roots, p.pid), RootOf(roots, q.pid);
    var v := Pte(f.walker, m, r, p.address);
    if v.Some? && r' != 0 {
      PteAfterWrite(f, m, r, p.address, Apply(p.edit, v.value.entry), r', q.address);
    }
  }

  lemma DifferentSlots(f: Forest, roots: Roots, m: Memory, p: Op, q: Op)
    requires f.Shaped(m) && Known(f, roots, [p]) && Known(f, roots, [q]) && PageOf(f, roots, p) != PageOf(f, roots, q)
    ensures var v := Pte(f.walker, m, RootOf(roots, p.pid), p.address);
            var v' := Pte(f.walker, m, RootOf(roots, q.pid), q.address);
            v.Some? && v'.Some? ==> v.value.slot != v'.value.slot
  {
    assert p in [p] && q in [q];
    var r, r' := RootOf(roots, p.pid), RootOf(roots, q.pid);
    if Pte(f.walker, m, r, p.address).Some? && Pte(f.walker, m, r', q.address).Some? {
      PteSlotIsPrivate(f, m, r, p.address, r', q.address);
    }
  }

  /** Edits of different pages commute. */
  lemma EditsCommute(f: Forest, roots: Roots, m: Memory, p: Op, q: Op)
    requires f.Shaped(m) && Known(f, roots, [p]) && Known(f, roots, [q]) && PageOf(f, roots, p) != PageOf(f, roots, q)
    ensures Step(f.walker, roots, Step(f.walker, roots, m, p), q) ==
            Step(f.walker, roots, Step(f.walker, roots, m, q), p)
  {
    PteAfterOther(f, roots, m, p, q);
    PteAfterOther(f, roots, m, q, p);
    DifferentSlots(f, roots, m, p, q);
  }

  /** The entry that an operation addresses. */
  function OpEntry(f: Forest, roots: Roots, m: Memory, op: Op): Option<Word> {
    EntryAt(f.walker, m, RootOf(roots, op.pid), op.address)
  }

  /** Two operations on one page find the same slot, and the second one finds what the first one left. */
  lemma OnePage(f: Forest, roots: Roots, m: Memory, p: Op, q: Op)
    requires f.Shaped(m) && Known(f, roots, [p]) && Known(f, roots, [q]) && PageOf(f, roots, p) == PageOf(f, roots, q)
    ensures OpEntry(f, roots, m, p) == OpEntry(f, roots, m, q)
    ensures var m' := Step(f.walker, roots, Step(f.walker, roots, m, p), q);
            if OpEntry(f, roots, m, p).Some?
            then m' == m[Pte(f.walker, m, RootOf(roots, p.pid), p.address).value.slot :=
                         Apply(q.edit, Apply(p.edit, OpEntry(f, roots, m, p).value))]
            else m' == m
  {
    assert p in [p] && q in [q];
    var r := RootOf(roots, p.pid);
    if r != 0 {
      SamePageSameWalk(f.walker, f.unit, m, r, p.address, q.address);
      var v := Pte(f.walker, m, r, p.address);
      if v.Some? {
        PteAfterWrite(f, m, r, p.address, Apply(p.edit, v.value.entry), r, q.address);
      }
    }
  }

  /** Two operations do not depend on their order: they edit different pages, or a page without an
      entry, or their edits are compatible. */
  predicate Harmless(f: Forest, roots: Roots, m: Memory, p: Op, q: Op) {
    || PageOf(f, roots, p) != PageOf(f, roots, q)
    || OpEntry(f, roots, m, p).None?
    || Compatible(PteEdit(p.edit), PteEdit(q.edit))
  }

  lemma HarmlessMeans(f: Forest, roots: Roots, m: Memory, p: Op, q: Op)
    requires f.Shaped(m) && Known(f, roots, [p]) && Known(f, roots, [q])
    ensures Harmless(f, roots, m, p, q) <==>
            Step(f.walker, roots, Step(f.walker, roots, m, p), q) ==
              Step(f.walker, roots, Step(f.walker, roots, m, q), p)
  {
    if PageOf(f, roots, p) != PageOf(f, roots, q) {
      EditsCommute(f, roots, m, p, q);
    } else {
      OnePage(f, roots, m, p, q);
      OnePage(f, roots, m, q, p);
      if OpEntry(f, roots, m, p).Some? {
        SameSlot(f, roots, m, p, q);
        var e := OpEntry(f, roots, m, p).value;
        Commute(e, PteEdit(p.edit), PteEdit(q.edit));
        var x, y := Apply(q.edit, Apply(p.edit, e)), Apply(p.edit, Apply(q.edit, e));
        var slot := Pte(f.walker, m, RootOf(roots, p.pid), p.address).value.slot;
        assert m[slot := x] == m[slot := y] <==> x == y by {
          assert m[slot := x][slot] == x && m[slot := y][slot] == y;
        }
      }
    }
  }

  lemma SameSlot(f: Forest, roots: Roots, m: Memory, p: Op, q: Op)
    requires f.Shaped(m) && Known(f, roots, [p]) && Known(f, roots, [q]) && PageOf(f, roots, p) == PageOf(f, roots, q)
    ensures Pte(f.walker, m, RootOf(roots, p.pid), p.address) == Pte(f.walker, m, RootOf(roots, q.pid), q.address)
  {
    assert p in [p] && q in [q];
    if RootOf(roots, p.pid) != 0 {
      SamePageSameWalk(f.walker, f.unit, m, RootOf(roots, p.pid), p.address, q.address);
    }
  }

  /** A memory with tree-shaped tables in which the same pages have entries. */
  ghost predicate SamePages(f: Forest, m: Memory, m': Memory) {
    && f.Shaped(m')
    && forall r, a :: f.Covers(r, a) ==> (EntryAt(f.walker, m', r, a).Some? <==> EntryAt(f.walker, m, r, a).Some?)
  }

  lemma StepKeepsPages(f: Forest, roots: Roots, m: Memory, m': Memory, op: Op)
    requires SamePages(f, m, m') && Known(f, roots, [op])
    ensures SamePages(f, m, Step(f.walker, roots, m', op))
  {
    assert op in [op];
    var r := RootOf(roots, op.pid);
    EditKeepsTree(f, m', r, op.address, op.edit);
    var v := Pte(f.walker, m', r, op.address);
    if v.Some? {
      forall r', a' | f.Covers(r', a')
        ensures EntryAt(f.walker, Step(f.walker, roots, m', op), r', a').Some? <==> EntryAt(f.walker, m', r', a').Some?
      {
        PteAfterWrite(f, m', r, op.address, Apply(op.edit, v.value.entry), r', a');
        if r' == r && f.Page(a') == f.Page(op.address) {
          SamePageSameWalk(f.walker, f.unit, m', r, a', op.address);
        }
      }
    }
  }

  lemma SameEntries(f: Forest, roots: Roots, m: Memory, m': Memory, op: Op)
    requires SamePages(f, m, m') && Known(f, roots, [op])
    ensures OpEntry(f, roots, m', op).Some? <==> OpEntry(f, roots, m, op).Some?
  {
    assert op in [op];
  }

  lemma {:induction false} RunIsFold(w: Walker, roots: Roots, m: Memory, ops: seq<Op>)
    ensures Run(w, roots, m, ops) == Fold((m: Memory, op: Op) => Step(w, roots, m, op), m, ops)
    decreases |ops|
  {
    if ops != [] {
      RunIsFold(w, roots, Step(w, roots, m, ops[0]), ops[1..]);
    }
  }

  /** A run does not depend on the order of its operations. */
  ghost predicate OrderFree(f: Forest, roots: Roots, m: Memory, ops: seq<Op>) {
    forall others :: multiset(others) == multiset(ops) ==>
                       Run(f.walker, roots, m, others) == Run(f.walker, roots, m, ops)
  }

  ghost predicate AllHarmless(f: Forest, roots: Roots, m: Memory, ops: seq<Op>) {
    forall i, j :: 0 <= i < j < |ops| ==> Harmless(f, roots, m, ops[i], ops[j])
  }

  lemma HarmlessIsCommuting(f: Forest, roots: Roots, m: Memory)
    requires f.Shaped(m)
    ensures Commuting((m: Memory, op: Op) => Step(f.walker, roots, m, op), (m': Memory) => SamePages(f, m, m'),
                      (op: Op) => Known(f, roots, [op]), (p: Op, q: Op) => Harmless(f, roots, m, p, q))
  {
    forall m', op | SamePages(f, m, m') && Known(f, roots, [op])
      ensures SamePages(f, m, Step(f.walker, roots, m', op))
    {
      StepKeepsPages(f, roots, m, m', op);
    }
    forall m', p, q | SamePages(f, m, m') && Known(f, roots, [p]) && Known(f, roots, [q])
      ensures Harmless(f, roots, m, p, q) <==>
              Step(f.walker, roots, Step(f.walker, roots, m', p), q) ==
                Step(f.walker, roots, Step(f.walker, roots, m', q), p)
    {
      SameEntries(f, roots, m, m', p);
      HarmlessMeans(f, roots, m', p, q);
    }
  }

  /** A run of edits leaves the same memory in every order exactly when any two of its edits of one page
      that has an entry are compatible. */
  lemma RunInAnyOrder(f: Forest, roots: Roots, m: Memory, ops: seq<Op>)
    requires f.Shaped(m) && Known(f, roots, ops)
    ensures OrderFree(f, roots, m, ops) <==> AllHarmless(f, roots, m, ops)
  {
    var step := (m: Memory, op: Op) => Step(f.walker, roots, m, op);
    var good := (m': Memory) => SamePages(f, m, m');
    var allowed := (op: Op) => Known(f, roots, [op]);
    var apart := (p: Op, q: Op) => Harmless(f, roots, m, p, q);
    HarmlessIsCommuting(f, roots, m);
    AnyOrder(step, good, allowed, apart, m, ops);
    forall others
      ensures Run(f.walker, roots, m, others) == Fold(step, m, others)
    {
      RunIsFold(f.walker, roots, m, others);
    }
    assert OrderFree(f, roots, m, ops) <==> SameInEveryOrder(step, m, ops);
    assert AllHarmless(f, roots, m, ops) <==> AllApart(apart, ops);
  }

  // ---- Undoing, and sharing ---------------------------------------------------------

  /** Clearing a set bit of a page-table entry, the present bit included, is undone by setting it:
      the slot is found by upper levels only. */
  lemma ClearIsUndoable(w: Walker, m: Memory, r: nat, a: nat, b: Bit)
    requires Ranked(w.levels) && EntryAt(w, m, r, a).Some? && b in EntryAt(w, m, r, a).value
    requires OnlyPte(Walk(w, m, r, a), Pte(w, m, r, a).value.slot, true)
    ensures EditPte(w, EditPte(w, m, r, a, ClearBit(b)), r, a, SetBit(b)) == m
  {
    var v := Pte(w, m, r, a).value;
    PteAfterShared(w, m, v.slot, Apply(ClearBit(b), v.entry), r, a);
    ClearThenSetBit(b, v.entry);
    VisitShape(w.rules, m, r, a, w.levels, v);
  }

  /** Why the tables must be tree shaped: pages that share a page-table slot change together. */
  lemma SharedSlotChanges(w: Walker, m: Memory, r: nat, a: nat, edit: Edit, r': nat, a': nat)
    requires Ranked(w.levels) && EntryAt(w, m, r, a).Some? && Pte(w, m, r', a').Some?
    requires Pte(w, m, r', a').value.slot == Pte(w, m, r, a).value.slot
    requires OnlyPte(Walk(w, m, r', a'), Pte(w, m, r, a).value.slot, true)
    ensures EntryAt(w, EditPte(w, m, r, a, edit), r', a') == Some(Apply(edit, EntryAt(w, m, r', a').value))
  {
    var v, v' := Pte(w, m, r, a).value, Pte(w, m, r', a').value;
    VisitShape(w.rules, m, r, a, w.levels, v);
    VisitShape(w.rules, m, r', a', w.levels, v');
    PteAfterShared(w, m, v.slot, Apply(edit, v.entry), r', a');
  }

  lemma PteAfterShared(w: Walker, m: Memory, slot: nat, x: Word, r: nat, a: nat)
    requires Ranked(w.levels) && slot in m && Pte(w, m, r, a).Some? && Pte(w, m, r, a).value.slot == slot
    requires OnlyPte(Walk(w, m, r, a), slot, true)
    ensures Pte(w, Write(m, slot, x), r, a) == Some(Pte(w, m, r, a).value.(entry := x))
  {
    WalkAfterWrite(w, m, slot, x, r, a, true);
    RetouchLast(Walk(w, m, r, a), Pte(w, m, r, a).value, x);
  }
}
