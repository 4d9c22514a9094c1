/** Memory types: the PAT or MAIR register as eight packed bytes, the search for a type, applying it
    to an entry, and runs of register writes through C integer conversions. */
module MemoryTypes {
  import opened Paging
  import opened EntryBits

  // ---- Searching the register -------------------------------------------------------------------

  /** The byte of a register slot, and the three bits of it that x86 uses. */
  function Byte(mts: Word, i: nat): Word {
    Shr(mts, 8 * i) * Bits(0, 8)
  }

  /** `ptedit_get_mt`. */
  function GetMt(arch: Arch, mts: Word, i: nat): Word {
    match arch
    case X86 => Shr(mts, 8 * i) * Bits(0, 3)
    case Arm => Byte(mts, i)
  }

  /** The upper half of a byte. */
  function HighNibble(b: Word): Word {
    Shr(b, 4) * Bits(0, 4)
  }

  function LowNibble(b: Word): Word {
    b * Bits(0, 4)
  }

  /** Whether a slot holds a type: on aarch64 also if both halves of the byte spell it. */
  predicate Holds(arch: Arch, mts: Word, i: nat, t: Word) {
    match arch
    case X86 => GetMt(X86, mts, i) == t
    case Arm =>
      || Byte(mts, i) == t
      || (LowNibble(Byte(mts, i)) == HighNibble(Byte(mts, i)) && LowNibble(Byte(mts, i)) == t)
  }

  /** The numbers that slots and halves of bytes spell. */
  lemma SlotMeans(arch: Arch, mts: Word, i: nat)
    requires i < 8
    ensures var n := if arch.X86? then 3 else 8;
            GetMt(arch, mts, i) <= Bits(0, n) && Value(GetMt(arch, mts, i), 0, n) == Value(mts, 8 * i, n)
  {
    MovedField(GetMt(arch, mts, i), 0, mts, 8 * i, if arch.X86? then 3 else 8);
  }

  lemma NibblesMean(b: Word)
    ensures LowNibble(b) <= Bits(0, 4) && Value(LowNibble(b), 0, 4) == Value(b, 0, 4)
    ensures HighNibble(b) <= Bits(0, 4) && Value(HighNibble(b), 0, 4) == Value(b, 4, 4)
  {
    MovedField(LowNibble(b), 0, b, 0, 4);
    MovedField(HighNibble(b), 0, b, 4, 4);
  }

  /** Words of few bits are equal exactly when they spell the same number. */
  lemma ShortWords(x: Word, y: Word, n: nat, k: nat)
    requires n <= k <= 64 && x <= Bits(0, n) && y <= Bits(0, k)
    ensures x == y <==> Value(x, 0, n) == Value(y, 0, k)
  {
    ValueSplits(x, 0, n, k - n);
    ValueIsZero(x, n, k - n);
    assert x * Bits(n, k) == {};
    ScaledIsZero(Pow2(n), Value(x, n, k - n));
    FieldIsBits(x, y, 0, k);
    if Value(x, 0, n) == Value(y, 0, k) {
      assert forall b: Bit :: b in x <==> b in y;
    }
  }

  /** A slot holds a type on x86 if its three bits spell it, and on aarch64 if its byte does or if both
      halves of its byte do. */
  lemma HoldsMeans(arch: Arch, mts: Word, i: nat, t: Word)
    requires i < 8 && t <= Bits(0, 8)
    ensures Holds(arch, mts, i, t) <==>
            if arch.X86? then Value(mts, 8 * i, 3) == Value(t, 0, 8)
            else
              || Value(mts, 8 * i, 8) == Value(t, 0, 8)
              || (Value(mts, 8 * i, 4) == Value(t, 0, 8) && Value(mts, 8 * i + 4, 4) == Value(t, 0, 8))
  {
    SlotMeans(arch, mts, i);
    if arch.X86? {
      ShortWords(GetMt(X86, mts, i), t, 3, 8);
    } else {
      var b := Byte(mts, i);
      NibblesMean(b);
      MovedField(b, 0, mts, 8 * i, 4);
      MovedField(b, 4, mts, 8 * i + 4, 4);
      ShortWords(b, t, 8, 8);
      ShortWords(LowNibble(b), t, 4, 8);
      ShortWords(HighNibble(b), t, 4, 8);
    }
  }

  /** `ptedit_find_mt`: the result is a bitmask of slots. */
  method FindMt(arch: Arch, mts: Word, t: Word) returns (found: Word)
    ensures forall i: Bit :: i in found <==> i < 8 && Holds(arch, mts, i, t)
  {
    found := {};
    for i := 0 to 8
      invariant forall k: Bit :: k in found <==> k < i && Holds(arch, mts, k, t)
    {
      if arch.X86? {
        if Shr(mts, 8 * i) * Bits(0, 3) == t {
          found := found + {i};
        }
      } else {
        if Shr(mts, 8 * i) * Bits(0, 8) == t {
          found := found + {i};
        } else {
          var low := LowNibble(Byte(mts, i));
          var high := HighNibble(Byte(mts, i));
          if low == high && low == t {
            found := found + {i};
          }
        }
      }
    }
  }

  /** `__builtin_ffs`: one plus the number of the lowest bit, or zero. */
  method Ffs(x: Word) returns (r: nat)
    ensures x * Bits(0, 8) == {} <==> r == 0
    ensures r != 0 ==> r <= 8 && r - 1 in x && forall b :: b in x ==> r - 1 <= b
  {
    for i := 0 to 8
      invariant forall b: Bit :: b in x ==> b >= i
    {
      if i in x {
        assert i in x * Bits(0, 8);
        return i + 1;
      }
    }
    return 0;
  }

  /** `ptedit_find_first_mt`: the least slot of the type, or -1 exactly when there is none. */
  method FindFirstMt(arch: Arch, mts: Word, t: Word) returns (slot: int)
    ensures slot == -1 <==> forall i: nat :: i < 8 ==> !Holds(arch, mts, i, t)
    ensures slot != -1 ==> 0 <= slot < 8 && Holds(arch, mts, slot, t)
    ensures slot != -1 ==> forall j: nat :: j < slot ==> !Holds(arch, mts, j, t)
  {
    var found := FindMt(arch, mts, t);
    var first: int := Ffs(found);
    slot := first - 1;
    if first == 0 {
      forall i: nat | i < 8
        ensures !Holds(arch, mts, i, t)
      {
        assert i in Bits(0, 8) && i !in found * Bits(0, 8);
      }
    }
  }

  // ---- Applying a type and reading it back -----------------------------------------------------------

  /** A slot number as the bits of an index byte. */
  function IndexBits(i: nat): Word
    requires i < 8
  {
    (if i % 2 == 1 then {0} else {}) + (if i / 2 % 2 == 1 then {1} else {}) + (if i / 4 == 1 then {2} else {})
  }

  lemma IndexBitsValue(i: nat)
    requires i < 8
    ensures Value(IndexBits(i), 0, 8) == i && IndexBits(i) * {0, 1, 2} == IndexBits(i)
  {
    LowThree(IndexBits(i));
  }

  /** The register slot that the processor uses for a page: on x86 the number that PAT, PCD and PWT spell
      (section 11.12 of Intel SDM Volume 3A), on aarch64 the attribute index. */
  function ProcessorSlot(arch: Arch, huge: bool, e: Word): nat {
    match arch
    case X86 =>
      var pat := if huge then 12 else 7;
      4 * (if pat in e then 1 else 0) + 2 * (if 4 in e then 1 else 0) + if 3 in e then 1 else 0
    case Arm => Value(e, 2, 3)
  }

  /** The processor uses the slot that was applied, and it is the one that is extracted. */
  lemma ProcessorUsesSlot(arch: Arch, huge: bool, e: Word, slot: nat)
    requires slot < 8
    ensures ProcessorSlot(arch, huge, ApplyMt(arch, huge, e, IndexBits(slot))) == slot
    ensures Value(ExtractMt(arch, huge, e), 0, 8) == ProcessorSlot(arch, huge, e)
  {
    var typed := ApplyMt(arch, huge, e, IndexBits(slot));
    ExtractedSlot(arch, huge, e);
    ExtractedSlot(arch, huge, typed);
    PutGetMt(arch, huge, e, IndexBits(slot));
    IndexBitsValue(slot);
  }

  lemma ExtractedSlot(arch: Arch, huge: bool, e: Word)
    ensures Value(ExtractMt(arch, huge, e), 0, 8) == ProcessorSlot(arch, huge, e)
  {
    LowThree(ExtractMt(arch, huge, e));
    if arch.Arm? {
      MovedField(ExtractMt(Arm, huge, e), 0, e, 2, 3);
    }
  }

  lemma LowThree(w: Word)
    requires w <= {0, 1, 2}
    ensures Value(w, 0, 8) == Value(w, 0, 3)
    ensures Value(w, 0, 3) == (if 0 in w then 1 else 0) + (if 1 in w then 2 else 0) + if 2 in w then 4 else 0
  {
    ValueSplits(w, 0, 3, 5);
    ValueIsZero(w, 3, 5);
    assert w * Bits(3, 8) == {};
    assert Value(w, 0, 1) == (if 0 in w then 1 else 0);
    assert Value(w, 0, 2) == Value(w, 0, 1) + (if 1 in w then 2 else 0);
    assert Value(w, 0, 3) == Value(w, 0, 2) + (if 2 in w then 4 else 0);
  }

  /** End to end: the slot found for a type, applied to any entry and extracted again, selects a
      register slot of that type, and the processor uses that slot. On x86 its value is the type; on
      aarch64 the byte is the type, or the type in both halves. */
  lemma AppliedTypeIsRead(arch: Arch, huge: bool, mts: Word, t: Word, e: Word, slot: nat)
    requires slot < 8 && Holds(arch, mts, slot, t)
    ensures var index := Value(ExtractMt(arch, huge, ApplyMt(arch, huge, e, IndexBits(slot))), 0, 8);
            && index == slot
            && ProcessorSlot(arch, huge, ApplyMt(arch, huge, e, IndexBits(slot))) == slot
            && (arch.X86? ==> GetMt(X86, mts, index) == t)
            && (arch.Arm? ==> GetMt(Arm, mts, index) == t ||
                              (LowNibble(GetMt(Arm, mts, index)) == t && HighNibble(GetMt(Arm, mts, index)) == t))
  {
    PutGetMt(arch, huge, e, IndexBits(slot));
    IndexBitsValue(slot);
    ProcessorUsesSlot(arch, huge, e, slot);
  }

  // ---- The register through C integers -----------------------------------------------------------------

  /** A 32-bit `int` converted to a 64-bit word: the sign bit is copied upwards. */
  function SignExtend(x: Word): Word {
    x * Bits(0, 32) + if 31 in x then Bits(32, 64) else {}
  }

  /** The register as `ptedit_get_mts` returns it on x86: its halves pass through signed 32-bit
      integers. */
  function ReadPat(pat: Word): Word {
    SignExtend(pat) + pat * Bits(32, 64)
  }

  /** Reading is exact exactly when the low half is not negative or the high half is all ones. */
  lemma ReadPatExact(pat: Word)
    ensures ReadPat(pat) == pat <==> 31 !in pat || Bits(32, 64) <= pat
  {
    if 31 in pat && !(Bits(32, 64) <= pat) {
      var b :| b in Bits(32, 64) && b !in pat;
      assert b in ReadPat(pat);
    }
  }

  /** C's `~(mask << shift)` on a 32-bit `int`, converted to 64 bits. The shift count of a 32-bit
      shift instruction is taken modulo 32. */
  function ClearMask(width: nat, shift: nat): Word {
    SignExtend(Bits(0, 32) - Shl(Bits(0, width), shift % 32))
  }

  /** The mask clears the intended field and nothing else exactly when the field ends below bit 31:
      slots 0 to 3 on x86 with 3 bits, slots 0 to 2 on aarch64 with 8 bits, although slots 0 to 7 are
      documented. */
  lemma ClearMaskExact(width: nat, mt: nat)
    requires (width == 3 || width == 8) && mt < 8
    ensures ClearMask(width, 8 * mt) == Bits(0, 64) - Shl(Bits(0, width), 8 * mt) <==>
            mt < if width == 3 then 4 else 3
  {
    var mask := ClearMask(width, 8 * mt);
    var meant := Bits(0, 64) - Shl(Bits(0, width), 8 * mt);
    if 8 * mt + width < 32 {
      assert 31 in Bits(0, 32) - Shl(Bits(0, width), 8 * mt);
      assert mask == meant;
    } else if mt >= 4 {
      assert 8 * mt % 32 == 8 * mt - 32;
      assert 8 * mt - 32 in meant && 8 * mt - 32 !in mask;
    } else {
      assert 31 !in Bits(0, 32) - Shl(Bits(0, 8), 24);
      assert 32 in meant && 32 !in mask;
    }
  }

  /** `ptedit_set_mt` on x86: read, clear, set, write. */
  function SetMt(pat: Word, mt: nat, value: Word): Word {
    ReadPat(pat) * ClearMask(3, 8 * mt) + Shl(value, 8 * mt)
  }

  /** All reserved bits of the PAT register are zero. */
  predicate Legal(pat: Word) {
    forall b :: b in pat ==> b % 8 < 3
  }

  /** From a legal register, writing slots 0 to 3 replaces exactly the addressed slot and leaves the
      register legal, so that it is read back exactly. */
  lemma SetMtIsExact(pat: Word, mt: nat, value: Word)
    requires Legal(pat) && mt < 4 && value <= Bits(0, 3)
    ensures SetMt(pat, mt, value) == pat - Shl(Bits(0, 3), 8 * mt) + Shl(value, 8 * mt)
    ensures Legal(SetMt(pat, mt, value))
    ensures ReadPat(SetMt(pat, mt, value)) == SetMt(pat, mt, value)
  {
    ReadPatExact(pat);
    ClearMaskExact(3, mt);
    var next := SetMt(pat, mt, value);
    forall b | b in next
      ensures b % 8 < 3
    {
      if b in Shl(value, 8 * mt) {
        assert b - 8 * mt in Bits(0, 3);
      }
    }
    ReadPatExact(next);
  }

  /** The register as eight slots. */
  function Decode(pat: Word): seq<Word> {
    seq(8, (i: nat) => GetMt(X86, pat, i))
  }

  lemma DecodeAfterSet(pat: Word, mt: nat, value: Word)
    requires Legal(pat) && mt < 4 && value <= Bits(0, 3)
    ensures Decode(SetMt(pat, mt, value)) == Decode(pat)[mt := value]
  {
    var next := SetMt(pat, mt, value);
    SetMtIsExact(pat, mt, value);
    forall i | 0 <= i < 8
      ensures GetMt(X86, next, i) == if i == mt then value else GetMt(X86, pat, i)
    {
      SlotAfterSet(pat, mt, value, i);
    }
  }

  lemma SlotAfterSet(pat: Word, mt: nat, value: Word, i: nat)
    requires mt < 8 && value <= Bits(0, 3) && i < 8
    ensures GetMt(X86, pat - Shl(Bits(0, 3), 8 * mt) + Shl(value, 8 * mt), i)
         == if i == mt then value else GetMt(X86, pat, i)
  {
    var next := pat - Shl(Bits(0, 3), 8 * mt) + Shl(value, 8 * mt);
    forall b: Bit
      ensures b in GetMt(X86, next, i) <==> b in if i == mt then value else GetMt(X86, pat, i)
    {
      if b < 3 {
        assert b in GetMt(X86, next, i) <==> 8 * i + b in next;
        assert b in GetMt(X86, pat, i) <==> 8 * i + b in pat;
      }
    }
  }

  /** A sequence of slot writes. */
  datatype SetCall = SetCall(mt: nat, value: Word)

  function RunSets(pat: Word, calls: seq<SetCall>): Word
    decreases |calls|
  {
    if calls == [] then pat else RunSets(SetMt(pat, calls[0].mt, calls[0].value), calls[1..])
  }

  function RunSlots(slots: seq<Word>, calls: seq<SetCall>): seq<Word>
    requires |slots| == 8 && forall c :: c in calls ==> c.mt < 8
    decreases |calls|
  {
    if calls == [] then slots else RunSlots(slots[calls[0].mt := calls[0].value], calls[1..])
  }

  /** Every run of slot writes with slots 0 to 3 and types below 8, from a legal register, keeps the
      register legal, is read back exactly, and behaves like writes to an array of eight slots. */
  lemma {:induction false} RunSetsRefines(pat: Word, calls: seq<SetCall>)
    requires Legal(pat) && forall c :: c in calls ==> c.mt < 4 && c.value <= Bits(0, 3)
    ensures Legal(RunSets(pat, calls)) && ReadPat(RunSets(pat, calls)) == RunSets(pat, calls)
    ensures Decode(RunSets(pat, calls)) == RunSlots(Decode(pat), calls)
    decreases |calls|
  {
    if calls == [] {
      ReadPatExact(pat);
    } else {
      assert calls[0] in calls && forall c :: c in calls[1..] ==> c in calls;
      SetMtIsExact(pat, calls[0].mt, calls[0].value);
      DecodeAfterSet(pat, calls[0].mt, calls[0].value);
      RunSetsRefines(SetMt(pat, calls[0].mt, calls[0].value), calls[1..]);
    }
  }

  /** Slots 4 to 7, which the documentation allows: the new value is or-ed onto the old one, and
      the slot four places lower is cleared instead. */
  lemma HighSlotsGoWrong(pat: Word, mt: nat, value: Word)
    requires Legal(pat) && 4 <= mt < 8 && value <= Bits(0, 3)
    ensures GetMt(X86, SetMt(pat, mt, value), mt) == GetMt(X86, pat, mt) + value
    ensures GetMt(X86, SetMt(pat, mt, value), mt - 4) == {}
  {
    ReadPatExact(pat);
    var next := SetMt(pat, mt, value);
    assert 8 * mt % 32 == 8 * (mt - 4);
    assert 31 in Bits(0, 32) - Shl(Bits(0, 3), 8 * (mt - 4));
    forall b: Bit
      ensures b in GetMt(X86, next, mt) <==> b in GetMt(X86, pat, mt) + value
      ensures b !in GetMt(X86, next, mt - 4)
    {
      if b < 3 {
        assert b in GetMt(X86, next, mt) <==> 8 * mt + b in next;
        assert b in GetMt(X86, pat, mt) <==> 8 * mt + b in pat;
        assert b in GetMt(X86, next, mt - 4) <==> 8 * (mt - 4) + b in next;
        assert 8 * (mt - 4) + b in Shl(Bits(0, 3), 8 * (mt - 4));
      }
    }
  }

  /** The write that `ptedit_set_mt` documents happens exactly for slots 0 to 3, and for a higher slot
      only if its old bits are all in the new value and the slot four places lower is zero. */
  lemma SetMtAsDocumented(pat: Word, mt: nat, value: Word)
    requires Legal(pat) && mt < 8 && value <= Bits(0, 3)
    ensures SetMt(pat, mt, value) == pat - Shl(Bits(0, 3), 8 * mt) + Shl(value, 8 * mt) <==>
            (mt >= 4 ==> GetMt(X86, pat, mt) <= value && GetMt(X86, pat, mt - 4) == {})
  {
    if mt < 4 {
      SetMtIsExact(pat, mt, value);
    } else {
      HighSlotsGoWrong(pat, mt, value);
      SlotAfterSet(pat, mt, value, mt);
      SlotAfterSet(pat, mt, value, mt - 4);
      if GetMt(X86, pat, mt) <= value && GetMt(X86, pat, mt - 4) == {} {
        HarmlessHighSlot(pat, mt, value);
      }
    }
  }

  lemma HarmlessHighSlot(pat: Word, mt: nat, value: Word)
    requires Legal(pat) && 4 <= mt < 8 && value <= Bits(0, 3)
    requires GetMt(X86, pat, mt) <= value && GetMt(X86, pat, mt - 4) == {}
    ensures SetMt(pat, mt, value) == pat - Shl(Bits(0, 3), 8 * mt) + Shl(value, 8 * mt)
  {
    ReadPatExact(pat);
    assert 8 * mt % 32 == 8 * (mt - 4);
    assert 31 in Bits(0, 32) - Shl(Bits(0, 3), 8 * (mt - 4));
    forall b: Bit
      ensures b in Shl(Bits(0, 3), 8 * (mt - 4)) ==> b !in pat
      ensures b in pat && b in Shl(Bits(0, 3), 8 * mt) ==> b in Shl(value, 8 * mt)
    {
      if b in Shl(Bits(0, 3), 8 * (mt - 4)) {
        assert b in pat <==> b - 8 * (mt - 4) in GetMt(X86, pat, mt - 4);
      }
      if b in pat && b in Shl(Bits(0, 3), 8 * mt) {
        assert b - 8 * mt in GetMt(X86, pat, mt);
      }
    }
  }

  // ---- The register on aarch64 -------------------------------------------------------------------------

  /** `ptedit_set_mt` on aarch64, where the register is read as it is. */
  function SetMtArm(mair: Word, mt: nat, value: Word): Word {
    mair * ClearMask(8, 8 * mt) + Shl(value, 8 * mt)
  }

  /** The bytes from slot `i` up to but not including slot `j`. */
  function Slots(i: nat, j: nat): Word {
    Bits(8 * i, 8 * j)
  }

  /** What the mask of a slot clears: the slot four places lower from slot 4 on, and after bit 31 of
      the `int` everything above. */
  lemma ArmMaskClears(mt: nat)
    requires mt < 8
    ensures Bits(0, 64) - ClearMask(8, 8 * mt) ==
            if mt % 4 == 3 then Slots(3, 8) else Slots(mt % 4, mt % 4 + 1)
  {
    assert 8 * mt % 32 == 8 * (mt % 4);
    forall b: Bit
      ensures b in Shl(Bits(0, 8), 8 * (mt % 4)) <==> b in Slots(mt % 4, mt % 4 + 1)
    {
      assert 0 <= b - 8 * (mt % 4) < 8 ==> b - 8 * (mt % 4) in Bits(0, 8);
    }
    if mt % 4 == 3 {
      assert 31 in Slots(3, 4);
    } else {
      assert 31 !in Slots(mt % 4, mt % 4 + 1);
    }
  }

  /** The documented write happens exactly for slots 0 to 2; for slot 3, whose mask also clears slots 4 to
      7, if those are zero; for slots 4 to 6 if their old bits are all in the new value and the slot
      four places lower is zero; and for slot 7 if slots 3 to 6 are zero. */
  lemma ArmSetMtAsDocumented(mair: Word, mt: nat, value: Word)
    requires mt < 8 && value <= Bits(0, 8)
    ensures SetMtArm(mair, mt, value) == mair - Slots(mt, mt + 1) + Shl(value, 8 * mt) <==>
            if mt < 3 then true
            else if mt == 3 then mair * Slots(4, 8) == {}
            else if mt < 7 then mair * Slots(mt, mt + 1) <= Shl(value, 8 * mt) && mair * Slots(mt - 4, mt - 3) == {}
            else mair * Slots(3, 7) == {}
  {
    var cleared, field := Bits(0, 64) - ClearMask(8, 8 * mt), Slots(mt, mt + 1);
    var put := Shl(value, 8 * mt);
    assert mair * ClearMask(8, 8 * mt) == mair - cleared;
    ClearsAlike(mair, cleared, field, put);
    ArmDifference(mt, cleared, field);
    ShiftedByte(mt, value);
    if mt >= 3 {
      ApartFromPut(mair, ArmApart(mt), if 4 <= mt < 7 then field else {}, put);
    }
  }

  /** What the mask of a slot from 3 on clears outside the slot. */
  function ArmApart(mt: nat): Word
    requires mt >= 3
  {
    if mt == 3 then Slots(4, 8) else if mt < 7 then Slots(mt - 4, mt - 3) else Slots(3, 7)
  }

  /** Where what the mask clears differs from the slot; from 4 to 6 it does not clear the slot itself. */
  lemma ArmDifference(mt: nat, cleared: Word, field: Word)
    requires mt < 8 && cleared == Bits(0, 64) - ClearMask(8, 8 * mt) && field == Slots(mt, mt + 1)
    ensures (cleared - field) + (field - cleared) ==
            if mt < 3 then {} else ArmApart(mt) + if 4 <= mt < 7 then field else {}
  {
    ArmMaskClears(mt);
  }

  lemma ShiftedByte(mt: nat, value: Word)
    requires mt < 8 && value <= Bits(0, 8)
    ensures Shl(value, 8 * mt) <= Slots(mt, mt + 1)
  {
    forall b | b in Shl(value, 8 * mt)
      ensures b in Slots(mt, mt + 1)
    {
      assert b - 8 * mt in Bits(0, 8);
    }
  }

  /** A field without bits that are put has to be zero to be put back. */
  lemma ApartFromPut(x: Word, apart: Word, other: Word, put: Word)
    requires apart * put == {}
    ensures x * (apart + other) <= put <==> x * apart == {} && x * other <= put
  {
    assert x * (apart + other) == x * apart + x * other;
    if x * apart <= put {
      assert x * apart <= apart * put;
    }
  }

  /** Clearing one field or another before or-ing makes no difference exactly when the bits in which the
      fields differ are zero or put back. */
  lemma ClearsAlike(x: Word, one: Word, other: Word, put: Word)
    ensures x - one + put == x - other + put <==> x * ((one - other) + (other - one)) <= put
  {
    if x - one + put == x - other + put {
      forall b | b in x * ((one - other) + (other - one))
        ensures b in put
      {
        assert b in x - one + put <==> b in x - other + put;
      }
    }
  }
}
