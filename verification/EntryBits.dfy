/** The pure entry editors of the library: frame number, single bits, memory-type index.
    Each one overwrites a bit field, and editors of disjoint fields commute. */
module EntryBits {
  import opened Paging
  import opened Reordering

  /** C's `x << k` and `x >> k` on 64-bit words. */
  function Shl(x: Word, k: nat): Word {
    set b: Bit | 0 <= b < 64 && FromBelow(x, b, k)
  }

  function Shr(x: Word, k: nat): Word {
    set b: Bit | 0 <= b < 64 && FromAbove(x, b, k)
  }

  predicate FromBelow(x: Word, b: Bit, k: nat) {
    0 <= b - k && b - k in x
  }

  predicate FromAbove(x: Word, b: Bit, k: nat) {
    b + k < 64 && b + k in x
  }

  /** The frame field of `ptedit_set_pfn` and `ptedit_get_pfn`: 40 bits on x86, 36 on aarch64. */
  function PfnMask(arch: Arch): Word {
    match arch
    case X86 => Bits(12, 52)
    case Arm => Bits(12, 48)
  }

  function SetPfn(arch: Arch, e: Word, pfn: Word): Word {
    e - PfnMask(arch) + Shl(pfn, 12)
  }

  function GetPfn(arch: Arch, e: Word): Word {
    Shr(e * PfnMask(arch), 12)
  }

  /** The edits of `ptedit_pte_set_bit`, `ptedit_pte_clear_bit` and `ptedit_pte_set_pfn`. */
  datatype Edit = SetBit(bit: Bit) | ClearBit(bit: Bit) | SetFrame(arch: Arch, pfn: Word)

  function Apply(edit: Edit, e: Word): Word {
    match edit
    case SetBit(b) => e + {b}
    case ClearBit(b) => e - {b}
    case SetFrame(arch, pfn) => SetPfn(arch, e, pfn)
  }

  /** The memory-type bits of an entry, low bit first: PWT, PCD and PAT on x86, where large pages
      have PAT elsewhere, and the attribute index on aarch64. */
  function MtBits(arch: Arch, huge: bool): (Bit, Bit, Bit) {
    match arch
    case X86 => (3, 4, if huge then 12 else 7)
    case Arm => (2, 3, 4)
  }

  function MtMask(arch: Arch, huge: bool): Word {
    var (b0, b1, b2) := MtBits(arch, huge);
    {b0, b1, b2}
  }

  /** The bits `ptedit_apply_mt` sets for the low three bits of a memory-type index. */
  function MtSpread(arch: Arch, huge: bool, mt: Word): Word {
    var (b0, b1, b2) := MtBits(arch, huge);
    (if 0 in mt then {b0} else {}) + (if 1 in mt then {b1} else {}) + (if 2 in mt then {b2} else {})
  }

  /** `ptedit_apply_mt`, and `ptedit_apply_mt_huge` for huge pages. */
  function ApplyMt(arch: Arch, huge: bool, e: Word, mt: Word): Word {
    e - MtMask(arch, huge) + MtSpread(arch, huge, mt)
  }

  /** `ptedit_extract_mt`, and `ptedit_extract_mt_huge` for huge pages. */
  function ExtractMt(arch: Arch, huge: bool, e: Word): Word {
    var (b0, b1, b2) := MtBits(arch, huge);
    (if b0 in e then {0} else {}) + (if b1 in e then {1} else {}) + (if b2 in e then {2} else {})
  }

  // ---- Laws of the single editors ---------------------------------------------------

  /** Shifted frame bits that fall outside the frame field. */
  function FrameOverflow(arch: Arch, pfn: Word): Word {
    Shl(pfn, 12) - PfnMask(arch)
  }

  /** The frame number that is read is the one that bits 12 to 51 of an entry spell on x86, and bits 12 to
      47 on aarch64. */
  lemma GetPfnMeans(arch: Arch, e: Word)
    ensures var n := if arch.X86? then 40 else 36;
            GetPfn(arch, e) <= Bits(0, n) && Value(GetPfn(arch, e), 0, n) == Value(e, 12, n)
  {
    MovedField(GetPfn(arch, e), 0, e, 12, if arch.X86? then 40 else 36);
  }

  /** A frame number that is set is spelled by these bits, truncated to them; every other bit stays, but
      for those that the frame number has beyond them. */
  lemma SetPfnMeans(arch: Arch, e: Word, pfn: Word)
    ensures var n := if arch.X86? then 40 else 36;
            && Value(SetPfn(arch, e, pfn), 12, n) == Value(pfn, 0, n)
            && forall b: Bit :: b < 12 || b >= 12 + n ==>
                 (b in SetPfn(arch, e, pfn) <==> b in e || (b >= 12 && b - 12 in pfn))
  {
    MovedField(SetPfn(arch, e, pfn), 12, pfn, 0, if arch.X86? then 40 else 36);
  }

  /** What was stored is read back truncated to the field: the frame number modulo 2^40 on x86
      and 2^36 on aarch64, whatever it was. */
  lemma PutGetPfn(arch: Arch, e: Word, pfn: Word)
    ensures GetPfn(arch, SetPfn(arch, e, pfn)) == pfn * if arch.X86? then Bits(0, 40) else Bits(0, 36)
  {
  }

  /** Storing what was read changes nothing. */
  lemma GetPutPfn(arch: Arch, e: Word)
    ensures SetPfn(arch, e, GetPfn(arch, e)) == e
  {
    assert Shl(GetPfn(arch, e), 12) == e * PfnMask(arch) by {
      forall b | b in e * PfnMask(arch)
        ensures b in Shl(GetPfn(arch, e), 12)
      {
        assert b - 12 in GetPfn(arch, e);
      }
    }
  }

  /** The second of two frame numbers wins exactly when the first one left no bits outside the
      field that neither the entry nor the second one has. */
  lemma PutPutPfn(arch: Arch, e: Word, p: Word, q: Word)
    ensures SetPfn(arch, SetPfn(arch, e, p), q) == SetPfn(arch, e, q) <==>
            FrameOverflow(arch, p) <= e + FrameOverflow(arch, q)
  {
    var first, second := SetPfn(arch, SetPfn(arch, e, p), q), SetPfn(arch, e, q);
    if FrameOverflow(arch, p) <= e + FrameOverflow(arch, q) {
      forall b: Bit
        ensures b in first <==> b in second
      {
        if b in Shl(p, 12) && b !in PfnMask(arch) {
          assert b in FrameOverflow(arch, p);
        }
      }
    } else {
      var b :| b in FrameOverflow(arch, p) && b !in e + FrameOverflow(arch, q);
      assert b in first && b !in second;
    }
  }

  /** On x86 the three bits of a memory-type index go to PWT (bit 3), PCD (bit 4) and PAT (bit 7, but bit 12
      in large pages), in this order; all other bits stay. */
  lemma ApplyMtMeans(huge: bool, e: Word, mt: Word)
    ensures var r, pat := ApplyMt(X86, huge, e, mt), if huge then 12 else 7;
            && (3 in r <==> 0 in mt) && (4 in r <==> 1 in mt) && (pat in r <==> 2 in mt)
            && forall b: Bit :: b != 3 && b != 4 && b != pat ==> (b in r <==> b in e)
  {
  }

  /** On aarch64 bits 2 to 4, the attribute index, spell it in pages of any size. */
  lemma ArmApplyMtMeans(huge: bool, e: Word, mt: Word)
    ensures var r := ApplyMt(Arm, huge, e, mt);
            && Value(r, 2, 3) == Value(mt, 0, 3)
            && forall b: Bit :: b < 2 || b > 4 ==> (b in r <==> b in e)
  {
    MovedField(ApplyMt(Arm, huge, e, mt), 2, mt, 0, 3);
  }

  /** The memory-type index that was applied is extracted again, applying the extracted one changes
      nothing, and the second of two applied ones wins. */
  lemma PutGetMt(arch: Arch, huge: bool, e: Word, mt: Word)
    ensures ExtractMt(arch, huge, ApplyMt(arch, huge, e, mt)) == mt * {0, 1, 2}
  {
  }

  lemma GetPutMt(arch: Arch, huge: bool, e: Word)
    ensures ApplyMt(arch, huge, e, ExtractMt(arch, huge, e)) == e
  {
  }

  lemma PutPutMt(arch: Arch, huge: bool, e: Word, mt: Word, nt: Word)
    ensures ApplyMt(arch, huge, ApplyMt(arch, huge, e, mt), nt) == ApplyMt(arch, huge, e, nt)
  {
  }

  /** `ptedit_get_pfn` spells the 28-bit frame field of the entry structures exactly when bits
      40 to 51 are clear. */
  lemma GetPfnIsBitField(e: Word)
    ensures Value(GetPfn(X86, e), 0, 40) == Frame28(e) <==> e * Bits(40, 52) == {}
  {
    GetPfnValue(e, 40);
    FrameFieldsAgree(e);
  }

  /** `ptedit_get_pfn` spells bits 12 to 51. */
  lemma {:induction false} GetPfnValue(e: Word, n: nat)
    requires n <= 40
    ensures Value(GetPfn(X86, e), 0, n) == Value(e, 12, n)
  {
    if n != 0 {
      GetPfnValue(e, n - 1);
      assert n - 1 in GetPfn(X86, e) <==> 12 + n - 1 in e;
    }
  }

  /** Setting a bit that clearing had removed restores the entry. */
  lemma ClearThenSetBit(b: Bit, e: Word)
    requires b in e
    ensures Apply(SetBit(b), Apply(ClearBit(b), e)) == e
  {
  }

  // ---- Compositions of editors -------------------------------------------------------

  /** Replace the bits of `mask` by those of `bits`. */
  datatype Patch = Patch(mask: Word, bits: Word)

  function Overwrite(e: Word, p: Patch): Word {
    e - p.mask + p.bits * p.mask
  }

  /** The field an edit means to overwrite, and with what. */
  function EditPatch(edit: Edit): Patch {
    match edit
    case SetBit(b) => Patch({b}, {b})
    case ClearBit(b) => Patch({b}, {})
    case SetFrame(arch, pfn) => Patch(PfnMask(arch), Shl(pfn, 12))
  }

  /** An edit overwrites its own field and nothing else, except that frame bits outside the field
      are or-ed in: it does so exactly when none of those is new. */
  lemma EditIsPatch(edit: Edit, e: Word)
    ensures Apply(edit, e) == Overwrite(e, EditPatch(edit)) <==>
            (edit.SetFrame? ==> FrameOverflow(edit.arch, edit.pfn) <= e)
  {
    if edit.SetFrame? && !(FrameOverflow(edit.arch, edit.pfn) <= e) {
      var b :| b in FrameOverflow(edit.arch, edit.pfn) && b !in e;
      assert b in Apply(edit, e) && b !in Overwrite(e, EditPatch(edit));
    }
  }

  /** Setting a memory type overwrites exactly the three memory-type bits. */
  lemma MtIsPatch(arch: Arch, huge: bool, e: Word, mt: Word)
    ensures ApplyMt(arch, huge, e, mt) == Overwrite(e, Patch(MtMask(arch, huge), MtSpread(arch, huge, mt)))
  {
  }

  /** The editors of entries: the edits of the PTE-level calls, and applying a memory type. */
  datatype Editor = PteEdit(edit: Edit) | TypeEdit(arch: Arch, huge: bool, mt: Word)

  function ApplyEditor(e: Word, ed: Editor): Word {
    match ed
    case PteEdit(edit) => Apply(edit, e)
    case TypeEdit(arch, huge, mt) => ApplyMt(arch, huge, e, mt)
  }

  /** The bits an editor clears, and those it sets afterwards. */
  function Cleared(ed: Editor): Word {
    match ed
    case PteEdit(edit) => EditPatch(edit).mask
    case TypeEdit(arch, huge, _) => MtMask(arch, huge)
  }

  function Put(ed: Editor): Word {
    match ed
    case PteEdit(edit) => EditPatch(edit).bits
    case TypeEdit(arch, huge, mt) => MtSpread(arch, huge, mt)
  }

  /** Neither editor sets a bit that the other one clears and does not set. */
  predicate Compatible(p: Editor, q: Editor) {
    Put(p) * Cleared(q) <= Put(q) && Put(q) * Cleared(p) <= Put(p)
  }

  /** Two editors commute, on any entry, exactly when they are compatible. */
  lemma Commute(e: Word, p: Editor, q: Editor)
    ensures ApplyEditor(ApplyEditor(e, p), q) == ApplyEditor(ApplyEditor(e, q), p) <==> Compatible(p, q)
  {
    var pq := (e - Cleared(p) + Put(p)) - Cleared(q) + Put(q);
    var qp := (e - Cleared(q) + Put(q)) - Cleared(p) + Put(p);
    assert ApplyEditor(ApplyEditor(e, p), q) == pq && ApplyEditor(ApplyEditor(e, q), p) == qp;
    if Compatible(p, q) {
      assert forall b: Bit :: b in pq <==> b in qp;
    } else if !(Put(p) * Cleared(q) <= Put(q)) {
      var b :| b in Put(p) * Cleared(q) && b !in Put(q);
      assert b in qp && b !in pq;
    } else {
      var b :| b in Put(q) * Cleared(p) && b !in Put(p);
      assert b in pq && b !in qp;
    }
  }

  /** Only frame numbers that do not fit put bits outside the field of their editor. Editors of
      disjoint fields are compatible exactly when those bits do not disturb the other one. */
  lemma DisjointCompatible(p: Editor, q: Editor)
    requires Cleared(p) !! Cleared(q)
    ensures Compatible(p, q) <==> Overflow(p) * Cleared(q) <= Put(q) && Overflow(q) * Cleared(p) <= Put(p)
  {
    assert Overflow(p) == Put(p) - Cleared(p) && Overflow(q) == Put(q) - Cleared(q);
    assert Overflow(p) * Cleared(q) == Put(p) * Cleared(q);
    assert Overflow(q) * Cleared(p) == Put(q) * Cleared(p);
  }

  function Overflow(ed: Editor): Word {
    if ed.PteEdit? && ed.edit.SetFrame? then FrameOverflow(ed.edit.arch, ed.edit.pfn) else {}
  }

  /** Any sequence of editors gives the same entry in every order exactly when they are pairwise
      compatible. */
  lemma EditorsInAnyOrder(e: Word, eds: seq<Editor>)
    ensures SameInEveryOrder(ApplyEditor, e, eds) <==> AllApart(Compatible, eds)
  {
    forall e: Word, p: Editor, q: Editor
      ensures Compatible(p, q) <==> ApplyEditor(ApplyEditor(e, p), q) == ApplyEditor(ApplyEditor(e, q), p)
    {
      Commute(e, p, q);
    }
    AnyOrder(ApplyEditor, (e: Word) => true, (ed: Editor) => true, Compatible, e, eds);
  }

  /** Editors of disjoint fields that do not commute: a frame number with a bit beyond the field, and
      clearing the bit it overflows into. */
  lemma OverflowBreaksOrder(frame: Editor, clear: Editor)
    requires frame == PteEdit(SetFrame(X86, {48})) && clear == PteEdit(ClearBit(60))
    ensures Cleared(frame) !! Cleared(clear)
    ensures Fold(ApplyEditor, {}, [frame, clear]) != Fold(ApplyEditor, {}, [clear, frame])
  {
    assert 60 in Put(frame);
    Commute({}, frame, clear);
    FoldAppend(ApplyEditor, {}, [], frame, clear);
    FoldAppend(ApplyEditor, {}, [], clear, frame);
    assert [] + [frame, clear] == [frame, clear] && [] + [clear, frame] == [clear, frame];
  }
}
