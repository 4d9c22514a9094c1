/** The virtual-to-physical computation of demos/virt2phys.c against the address translation of the
    Intel SDM, Volume 3A, section 4.5. */
module Translation {
  import opened Paging
  import opened Radix
  import opened EntryBits
  import opened Resolve
  import opened Update
  import opened MemMap
  import Tlb

  /** The number a word spells. */
  function Number(x: Word): nat {
    Value(x, 0, 64)
  }

  /** The demo's computation from the resolved PMD and PTE: frame or-ed with page offset. */
  function Phys(pmd: Word, pte: Word, addr: Word): Word {
    if !Large(pmd) then Shl(GetPfn(X86, pte), 12) + addr * Bits(0, 12)
    else Shl(GetPfn(X86, pmd), 12) + addr * Bits(0, 21)
  }

  /** Section 4.5: bits 51 to 12 come from the PTE of a 4 KiB page, or bits 51 to 21 from the PDE of
      a 2 MiB page, and the lower bits from the linear address. */
  function SdmSmall(pte: Word, addr: Word): nat {
    Value(pte, 12, 40) * 4096 + Number(addr) % 4096
  }

  function SdmLarge(pmd: Word, addr: Word): nat {
    Value(pmd, 21, 31) * 0x20_0000 + Number(addr) % 0x20_0000
  }

  /** A number by its low bits and the rest. */
  lemma NumberSplits(x: Word, n: nat)
    requires 0 < n < 64
    ensures Number(x) == Value(x, 0, n) + Pow2(n) * Value(x, n, 64 - n)
    ensures Number(x) % Pow2(n) == Value(x, 0, n)
  {
    ValueSplits(x, 0, n, 64 - n);
    LowPart(Value(x, 0, n), Pow2(n), Value(x, n, 64 - n));
  }

  lemma LowPart(low: nat, unit: Positive, high: nat)
    requires low < unit
    ensures (low + unit * high) % unit == low
  {
    QuotientUnique(low + unit * high, unit, high, low);
  }

  /** The frame number shifted back is the frame field in place. */
  lemma FrameInPlace(e: Word)
    ensures Shl(GetPfn(X86, e), 12) == e * Bits(12, 52)
  {
    forall b | b in e * Bits(12, 52)
      ensures b in Shl(GetPfn(X86, e), 12)
    {
      assert b - 12 in GetPfn(X86, e);
    }
  }

  /** A word made of a field of another word above bit `n` and the low bits of an address. */
  lemma JoinedNumber(x: Word, e: Word, addr: Word, n: nat, hi: nat)
    requires 0 < n <= hi <= 64 && n < 64 && x == e * Bits(n, hi) + addr * Bits(0, n)
    ensures Number(x) == Value(addr, 0, n) + Pow2(n) * Value(e, n, hi - n)
  {
    NumberSplits(x, n);
    MovedField(x, 0, addr, 0, n);
    MovedField(x, n, e, n, hi - n);
    ValueSplits(x, n, hi - n, 64 - hi);
    ValueIsZero(x, hi, 64 - hi);
    assert x * Bits(hi, 64) == {};
    ScaledIsZero(Pow2(hi - n), Value(x, hi, 64 - hi));
  }

  /** In a 4 KiB page the demo computes the translation of the SDM, for every address. */
  lemma SmallIsCorrect(pmd: Word, pte: Word, addr: Word)
    requires !Large(pmd)
    ensures Number(Phys(pmd, pte, addr)) == SdmSmall(pte, addr)
  {
    FrameInPlace(pte);
    JoinedNumber(Phys(pmd, pte, addr), pte, addr, 12, 52);
    NumberSplits(addr, 12);
    KnownPowers();
  }

  /** In a 2 MiB page it does so for an address exactly when bits 12 to 20 of the entry add
      nothing to the address. */
  lemma LargeIsCorrect(pmd: Word, pte: Word, addr: Word)
    requires Large(pmd)
    ensures Number(Phys(pmd, pte, addr)) == SdmLarge(pmd, addr) <==> pmd * Bits(12, 21) <= addr
  {
    var x := Phys(pmd, pte, addr);
    var clean := pmd * Bits(21, 52) + addr * Bits(0, 21);
    FrameInPlace(pmd);
    JoinedNumber(clean, pmd, addr, 21, 52);
    NumberSplits(addr, 21);
    KnownPowers();
    assert x == clean + pmd * Bits(12, 21);
    SameNumber(x, clean);
    if !(pmd * Bits(12, 21) <= addr) {
      var b :| b in pmd * Bits(12, 21) && b !in addr;
      assert b in x && b !in clean;
    }
  }

  /** Numbers determine words. */
  lemma SameNumber(x: Word, y: Word)
    ensures Number(x) == Number(y) <==> x == y
  {
    FieldIsBits(x, y, 0, 64);
    if Number(x) == Number(y) {
      assert forall b: Bit :: b in x <==> b in y;
    }
  }

  /** So the demo is right on all of a 2 MiB page exactly when bits 12 to 20 of its entry are clear. */
  lemma LargeIsCorrectEverywhere(pmd: Word, pte: Word)
    requires Large(pmd)
    ensures (forall addr: Word :: Number(Phys(pmd, pte, addr)) == SdmLarge(pmd, addr)) <==> pmd * Bits(12, 21) == {}
  {
    forall addr: Word
      ensures Number(Phys(pmd, pte, addr)) == SdmLarge(pmd, addr) <==> pmd * Bits(12, 21) <= addr
    {
      LargeIsCorrect(pmd, pte, addr);
    }
    if forall addr: Word :: Number(Phys(pmd, pte, addr)) == SdmLarge(pmd, addr) {
      var zero: Word := {};
      assert Number(Phys(pmd, pte, zero)) == SdmLarge(pmd, zero);
    }
  }

  /** Setting a memory type of a huge page keeps the demo right exactly for the types whose index
      leaves bit 12 clear: 0 to 3. */
  lemma HugeTypeKeepsTranslation(pmd: Word, pte: Word, mt: Word)
    requires Large(pmd) && pmd * Bits(13, 21) == {}
    ensures var typed := ApplyMt(X86, true, pmd, mt);
            && Large(typed)
            && ((forall addr: Word :: Number(Phys(typed, pte, addr)) == SdmLarge(typed, addr)) <==> 2 !in mt)
  {
    var typed := ApplyMt(X86, true, pmd, mt);
    LargeIsCorrectEverywhere(typed, pte);
    if 2 in mt {
      assert 12 in typed * Bits(12, 21);
    } else {
      assert typed * Bits(12, 21) <= pmd * Bits(13, 21);
    }
  }

  /** Offsets map contiguously: two addresses of one page are as far apart as their images. */
  lemma SmallIsContiguous(pmd: Word, pte: Word, a: Word, b: Word)
    requires !Large(pmd) && Number(a) / 4096 == Number(b) / 4096
    ensures Number(Phys(pmd, pte, a)) - Number(Phys(pmd, pte, b)) == Number(a) - Number(b)
  {
    SmallIsCorrect(pmd, pte, a);
    SmallIsCorrect(pmd, pte, b);
  }

  lemma LargeIsContiguous(pmd: Word, pte: Word, a: Word, b: Word)
    requires Large(pmd) && pmd * Bits(12, 21) == {} && Number(a) / 0x20_0000 == Number(b) / 0x20_0000
    ensures Number(Phys(pmd, pte, a)) - Number(Phys(pmd, pte, b)) == Number(a) - Number(b)
  {
    LargeIsCorrect(pmd, pte, a);
    LargeIsCorrect(pmd, pte, b);
  }

  /** The resolved entries of an address whose walk ends in a present leaf. */
  lemma LeafEntries(d: Definition, m: Memory, root: nat, pid: int, a: nat)
    requires d.hasPmd && LeafKind(Behind(X86, d, m, root, a)).Some?
    ensures var p := Behind(X86, d, m, root, a);
            var leaf := p[|p| - 1].entry;
            var r := Resolved(X86, d, m, root, pid, a);
            if LeafKind(p).value then Large(r.pmd) && r.pmd == leaf else !Large(r.pmd) && r.pte == leaf
  {
    var p := Behind(X86, d, m, root, a);
    var last := p[|p| - 1];
    assert last in p;
    ResolvedEntry(X86, d, m, root, pid, a, last);
    if !LeafKind(p).value {
      var u := ParentEntry(X86, d, m, Even(root), a, last);
      ResolvedEntry(X86, d, m, root, pid, a, u);
    }
  }

  /** End to end: where the library's walk of an address ends in a present leaf, the demo's computation
      on the resolved entries takes the branch of that leaf and yields the translation of the SDM: always
      for a 4 KiB page, and for a 2 MiB page exactly when bits 12 to 20 of its entry add nothing. */
  lemma PhysUsesTheLeaf(d: Definition, m: Memory, root: nat, pid: int, addr: Word)
    requires d.hasPmd && LeafKind(Behind(X86, d, m, root, Number(addr))).Some?
    ensures var p := Behind(X86, d, m, root, Number(addr));
            var leaf := p[|p| - 1].entry;
            var r := Resolved(X86, d, m, root, pid, Number(addr));
            var phys := Number(Phys(r.pmd, r.pte, addr));
            if LeafKind(p).value then phys == SdmLarge(leaf, addr) <==> leaf * Bits(12, 21) <= addr
            else phys == SdmSmall(leaf, addr)
  {
    var r := Resolved(X86, d, m, root, pid, Number(addr));
    LeafEntries(d, m, root, pid, Number(addr));
    if Large(r.pmd) {
      LargeIsCorrect(r.pmd, r.pte, addr);
    } else {
      SmallIsCorrect(r.pmd, r.pte, addr);
    }
  }

  /** Where the processor reads the entries above the page table as the library does, it translates an
      address exactly if the library's walk ends in a present leaf, and that is the leaf it uses. */
  lemma ProcessorUsesTheLeaf(pl: Tlb.Platform, m: Memory, root: nat, a: nat)
    requires pl.cpu == Tlb.Cpu(X86) && pl.forest.walker == UserWalker(X86, X86_64)
    requires forall v :: v in Walk(pl.forest.walker, m, root, a) && v.level != PTE ==> Tlb.ReadAlike(X86, v)
    ensures var p := Walk(pl.forest.walker, m, root, a);
            pl.Translation(m, root, a) == if LeafKind(p).Some? then Some(p[|p| - 1].entry) else None
  {
    var w := pl.forest.walker;
    if root != 0 {
      SameProcessorWalk(w, m, root, a);
      PathStep(w.rules, m, root, a, w.levels);
      LastVisit(Walk(w, m, root, a));
    }
  }

  lemma SameProcessorWalk(w: Walker, m: Memory, root: nat, a: nat)
    requires w == UserWalker(X86, X86_64)
    requires forall v :: v in Walk(w, m, root, a) && v.level != PTE ==> Tlb.ReadAlike(X86, v)
    ensures Walk(Walker(Tlb.Cpu(X86).rules, w.levels), m, root, a) == Walk(w, m, root, a)
  {
    LevelsAreRanked(X86_64);
    forall v: Visit | v.level != PTE
      ensures Tlb.ReadAlike(X86, v) <==> Alike(w.rules, Tlb.Cpu(X86).rules, v)
    {
      Tlb.ReadAlikeMeans(X86, v);
    }
    SamePaths(w.rules, Tlb.Cpu(X86).rules, m, root, a, w.levels);
  }

  /** A walk whose last entry is not a 1 GiB leaf ends in a leaf exactly if the processor has its page there. */
  lemma LastVisit(p: seq<Visit>)
    requires p != [] && forall v :: v in p && v.level != PTE ==> Tlb.ReadAlike(X86, v)
    ensures Tlb.X86Maps(p[|p| - 1].level, p[|p| - 1].entry) <==> LeafKind(p).Some?
  {
    assert p[|p| - 1] in p;
  }

  // ---- Addresses put together with shifts and ors ------------------------------------------------

  /** A word without bits from `n` on is its low field. */
  lemma ShortNumber(x: Word, n: nat)
    requires 0 < n < 64 && x <= Bits(0, n)
    ensures Number(x) == Value(x, 0, n)
  {
    NumberSplits(x, n);
    ValueIsZero(x, n, 64 - n);
    assert x * Bits(n, 64) == {};
  }

  lemma OrBits(x: Word, high: Word, low: Word, k: nat)
    requires 0 < k < 64 && low <= Bits(0, k) && x == Shl(high, k) + low
    ensures Value(x, 0, k) == Value(low, 0, k) && Value(x, k, 64 - k) == Value(high, 0, 64 - k)
  {
    MovedField(x, 0, low, 0, k);
    forall i | 0 <= i < 64 - k
      ensures SameBit(x, k, high, 0, i)
    {
      assert FromBelow(high, k + i, k) <==> i in high;
    }
    MovedField(x, k, high, 0, 64 - k);
  }

  /** Or is addition where the bits do not meet. */
  lemma OrIsSum(high: Word, low: Word, k: nat)
    requires 0 < k < 64 && high <= Bits(0, 64 - k) && low <= Bits(0, k)
    ensures Number(Shl(high, k) + low) == Pow2(k) * Number(high) + Number(low)
  {
    var x := Shl(high, k) + low;
    NumberSplits(x, k);
    OrBits(x, high, low, k);
    ShortNumber(low, k);
    ShortNumber(high, 64 - k);
  }

  /** The shift-or of indices, root first. */
  function ShiftOr(shifts: seq<nat>, indices: seq<Word>): Word {
    if shifts == [] || indices == [] then {} else Shl(indices[0], shifts[0]) + ShiftOr(shifts[1..], indices[1..])
  }

  function Numbers(words: seq<Word>): seq<nat> {
    if words == [] then [] else [Number(words[0])] + Numbers(words[1..])
  }

  /** Each index has its own bits of the address, below `top` and above the next one. */
  predicate Stacked(levels: Levels, shifts: seq<nat>, indices: seq<Word>, top: nat) {
    if levels.Done? then shifts == [] && indices == []
    else
      && shifts != [] && indices != [] && 0 < shifts[0] < top <= 64
      && levels.span == Pow2(shifts[0]) && indices[0] <= Bits(0, top - shifts[0])
      && Stacked(levels.rest, shifts[1..], indices[1..], shifts[0])
  }

  lemma AssembleFirst(levels: Levels, indices: seq<Word>)
    requires levels.More? && indices != []
    ensures Assemble(levels, Numbers(indices), 0)
         == Number(indices[0]) * levels.span + Assemble(levels.rest, Numbers(indices[1..]), 0)
  {
    assert Numbers(indices)[1..] == Numbers(indices[1..]) && Numbers(indices)[0] == Number(indices[0]);
  }

  lemma MulCommutes(x: int, y: int)
    ensures x * y == y * x
  {
  }

  lemma ShiftOrBound(high: Word, low: Word, k: nat, top: nat)
    requires k < top <= 64 && high <= Bits(0, top - k) && low <= Bits(0, k)
    ensures Shl(high, k) + low <= Bits(0, top)
  {
  }

  /** The shift-or of the indices is the sum that reassembles them. */
  lemma {:induction false} ShiftOrAssembles(levels: Levels, shifts: seq<nat>, indices: seq<Word>, top: nat)
    requires Stacked(levels, shifts, indices, top)
    ensures Number(ShiftOr(shifts, indices)) == Assemble(levels, Numbers(indices), 0)
    ensures ShiftOr(shifts, indices) <= Bits(0, top)
    decreases levels
  {
    if levels.Done? {
      ValueIsZero({}, 0, 64);
      assert {} * Bits(0, 64) == {};
    } else {
      var low := ShiftOr(shifts[1..], indices[1..]);
      ShiftOrAssembles(levels.rest, shifts[1..], indices[1..], shifts[0]);
      OrIsSum(indices[0], low, shifts[0]);
      ShiftOrBound(indices[0], low, shifts[0], top);
      AssembleFirst(levels, indices);
      MulCommutes(levels.span, Number(indices[0]));
    }
  }

  lemma X86Stacked(levels: Levels, shifts: seq<nat>, indices: seq<Word>)
    requires levels == LevelsOf(X86_64) && shifts == [39, 30, 21, 12] && |indices| == 4
    requires forall i :: 0 <= i < 4 ==> indices[i] <= Bits(0, 9)
    ensures Stacked(levels, shifts, indices, 48)
  {
    KnownLevels();
    KnownPowers();
    assert Stacked(Done, shifts[1..][1..][1..][1..], indices[1..][1..][1..][1..], 12);
    assert Stacked(levels.rest.rest.rest, shifts[1..][1..][1..], indices[1..][1..][1..], 21);
    assert Stacked(levels.rest.rest, shifts[1..][1..], indices[1..][1..], 30);
    assert Stacked(levels.rest, shifts[1..], indices[1..], 39);
  }

  lemma FourShifts(shifts: seq<nat>, a: Word, b: Word, c: Word, d: Word)
    requires |shifts| == 4
    ensures ShiftOr(shifts, [a, b, c, d]) ==
            Shl(d, shifts[3]) + Shl(c, shifts[2]) + Shl(b, shifts[1]) + Shl(a, shifts[0])
  {
    assert [a, b, c, d][1..] == [b, c, d] && [b, c, d][1..] == [c, d] && [c, d][1..] == [d];
    assert ShiftOr(shifts[1..][1..][1..], [d]) == Shl(d, shifts[3]);
    assert ShiftOr(shifts[1..][1..], [c, d]) == Shl(c, shifts[2]) + ShiftOr(shifts[1..][1..][1..], [d]);
    assert ShiftOr(shifts[1..], [b, c, d]) == Shl(b, shifts[1]) + ShiftOr(shifts[1..][1..], [c, d]);
  }

  /** The address the dump prints on x86; for a 2 MiB page the last index is zero. */
  lemma PrintedAddress(levels: Levels, pml4i: Word, pdpti: Word, pdi: Word, pti: Word)
    requires pml4i <= Bits(0, 9) && pdpti <= Bits(0, 9) && pdi <= Bits(0, 9) && pti <= Bits(0, 9)
    requires levels == LevelsOf(X86_64)
    ensures Number(Shl(pti, 12) + Shl(pdi, 21) + Shl(pdpti, 30) + Shl(pml4i, 39))
         == Assemble(levels, Numbers([pml4i, pdpti, pdi, pti]), 0)
  {
    var shifts, indices := [39, 30, 21, 12], [pml4i, pdpti, pdi, pti];
    X86Stacked(levels, shifts, indices);
    ShiftOrAssembles(levels, shifts, indices, 48);
    FourShifts(shifts, pml4i, pdpti, pdi, pti);
  }
}
