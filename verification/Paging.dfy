/** Physical memory, page-table entries and paging layouts.
    Models the entry bit fields of ptedit.h, the physical accessors and the
    paging definitions of ptedit.c, and the entry tests of the kernel module. */
module Paging {

  type Bit = b: int | 0 <= b < 64

  /** A 64-bit word, as the set of its one bits: C's `&`, `|` and `& ~` are intersection, union
      and difference, and zero is the empty set. */
  type Word = set<Bit>

  /** The mask of bits `lo` up to but not including `hi`. */
  function Bits(lo: nat, hi: nat): Word {
    set b: Bit | 0 <= b < 64 && Within(b, lo, hi)
  }

  predicate Within(b: int, lo: nat, hi: nat) {
    lo <= b < hi
  }

  type Positive = x: int | x > 0 witness 1

  function Pow2(n: nat): (p: Positive) {
    if n == 0 then 1 else 2 * Pow2(n - 1)
  }

  /** The number that bits `lo` to `lo + n - 1` spell. */
  function Value(e: Word, lo: nat, n: nat): (v: nat)
    requires lo + n <= 64
    ensures v < Pow2(n)
  {
    if n == 0 then 0 else Value(e, lo, n - 1) + if lo + n - 1 in e then Pow2(n - 1) else 0
  }

  /** A field is its low part plus its scaled high part. */
  lemma {:induction false} ValueSplits(e: Word, lo: nat, n: nat, k: nat)
    requires lo + n + k <= 64
    ensures Value(e, lo, n + k) == Value(e, lo, n) + Pow2(n) * Value(e, lo + n, k)
  {
    if k != 0 {
      ValueSplits(e, lo, n, k - 1);
      Pow2Add(n, k - 1);
      var high := Value(e, lo + n, k - 1);
      var top := if lo + n + k - 1 in e then Pow2(k - 1) else 0;
      assert Value(e, lo + n, k) == high + top;
      Distribute(Pow2(n), high, top);
    }
  }

  lemma Distribute(x: int, y: int, z: int)
    ensures x * (y + z) == x * y + x * z
  {
  }

  /** Two fields of `n` bits have the same bits. */
  predicate SameField(e: Word, lo: nat, f: Word, lo': nat, n: nat)
    requires lo + n <= 64 && lo' + n <= 64
  {
    n == 0 || (SameField(e, lo, f, lo', n - 1) && (lo + n - 1 in e <==> lo' + n - 1 in f))
  }

  /** Fields have the same value exactly when they have the same bits. */
  lemma {:induction false} ValueInjective(e: Word, lo: nat, f: Word, lo': nat, n: nat)
    requires lo + n <= 64 && lo' + n <= 64
    ensures Value(e, lo, n) == Value(f, lo', n) <==> SameField(e, lo, f, lo', n)
  {
    if n != 0 {
      ValueInjective(e, lo, f, lo', n - 1);
    }
  }

  predicate SameBit(e: Word, lo: nat, f: Word, lo': nat, i: nat) {
    lo + i in e <==> lo' + i in f
  }

  /** Fields with the same bits spell the same number, wherever they lie. */
  lemma {:induction false} MovedField(e: Word, lo: nat, f: Word, lo': nat, n: nat)
    requires lo + n <= 64 && lo' + n <= 64 && forall i :: 0 <= i < n ==> SameBit(e, lo, f, lo', i)
    ensures Value(e, lo, n) == Value(f, lo', n)
  {
    if n != 0 {
      MovedField(e, lo, f, lo', n - 1);
      assert SameBit(e, lo, f, lo', n - 1);
    }
  }

  /** Two words have the same value in a field exactly when they have the same bits there. */
  lemma FieldIsBits(e: Word, f: Word, lo: nat, n: nat)
    requires lo + n <= 64
    ensures Value(e, lo, n) == Value(f, lo, n) <==> forall b: Bit :: lo <= b < lo + n ==> (b in e <==> b in f)
  {
    ValueInjective(e, lo, f, lo, n);
    SameFieldIsBits(e, f, lo, n);
  }

  lemma {:induction false} SameFieldIsBits(e: Word, f: Word, lo: nat, n: nat)
    requires lo + n <= 64
    ensures SameField(e, lo, f, lo, n) <==> forall b: Bit :: lo <= b < lo + n ==> (b in e <==> b in f)
  {
    if n != 0 {
      SameFieldIsBits(e, f, lo, n - 1);
      var b: Bit := lo + n - 1;
      assert b in e <==> lo + n - 1 in e;
    }
  }

  lemma {:induction false} ValueIsZero(e: Word, lo: nat, n: nat)
    requires lo + n <= 64
    ensures Value(e, lo, n) == 0 <==> e * Bits(lo, lo + n) == {}
  {
    if n != 0 {
      ValueIsZero(e, lo, n - 1);
      if lo + n - 1 in e {
        assert lo + n - 1 in e * Bits(lo, lo + n);
      } else {
        assert e * Bits(lo, lo + n) == e * Bits(lo, lo + n - 1);
      }
    }
  }

  /** Physical memory: the readable words, keyed by physical byte address. */
  type Memory = map<nat, Word>

  /** A failed read leaves the zero-initialised result untouched. */
  function Read(m: Memory, a: nat): Word {
    if a in m then m[a] else {}
  }

  /** A failed write changes nothing. */
  function Write(m: Memory, a: nat, x: Word): Memory {
    if a in m then m[a := x] else m
  }

  datatype Option<+T> = None | Some(value: T)

  datatype Level = PGD | P4D | PUD | PMD | PTE

  /** The shape of a radix tree: one cell per level, root first. An entry at a
      level covers `span` bytes of address space; a table holds `count` entries. */
  datatype Levels = Done | More(level: Level, span: Positive, count: Positive, rest: Levels)

  /** The structure `ptedit_paging_definition_t`; the `*Entries` fields are binary logarithms. */
  datatype Definition = Definition(
    hasPgd: bool, hasP4d: bool, hasPud: bool, hasPmd: bool, hasPt: bool,
    pgdEntries: nat, p4dEntries: nat, pudEntries: nat, pmdEntries: nat, ptEntries: nat,
    pageOffset: nat)

  const X86_64 := Definition(true, false, true, true, true, 9, 0, 9, 9, 9, 12)
  const ARM_16K := Definition(true, false, true, true, true, 11, 0, 11, 11, 11, 14)
  const ARM_4K := Definition(true, false, false, true, true, 9, 0, 0, 9, 9, 12)

  /** The levels a definition really has, with folded levels left out. */
  function LevelsOf(d: Definition): Levels {
    More(PGD, Pow2(d.pageOffset + d.ptEntries + d.pmdEntries + d.pudEntries + d.p4dEntries), Pow2(d.pgdEntries),
         FromP4d(d))
  }

  function FromP4d(d: Definition): Levels {
    if d.hasP4d
    then More(P4D, Pow2(d.pageOffset + d.ptEntries + d.pmdEntries + d.pudEntries), Pow2(d.p4dEntries), FromPud(d))
    else FromPud(d)
  }

  function FromPud(d: Definition): Levels {
    if d.hasPud
    then More(PUD, Pow2(d.pageOffset + d.ptEntries + d.pmdEntries), Pow2(d.pudEntries), FromPmd(d))
    else FromPmd(d)
  }

  function FromPmd(d: Definition): Levels {
    if d.hasPmd
    then More(PMD, Pow2(d.pageOffset + d.ptEntries), Pow2(d.pmdEntries), FromPt(d))
    else FromPt(d)
  }

  function FromPt(d: Definition): Levels {
    More(PTE, Pow2(d.pageOffset), Pow2(d.ptEntries), Done)
  }

  datatype Arch = X86 | Arm

  /** The `present` bit field of an entry equals PTEDIT_PAGE_PRESENT. */
  predicate Present(arch: Arch, e: Word) {
    match arch
    case X86 => 0 in e
    case Arm => 0 in e && 1 in e
  }

  /** How an implementation interprets an entry: whether the walk goes on below an entry found
      at a level, and the physical address of the table it then goes to. */
  datatype Rules = Rules(descends: (Level, Word) -> bool, table: Word -> nat)

  /** The library tests `present` everywhere, and on x86 the large-page bit at the one level above
      the page tables, the PMD unless it is folded. Its frame field has 28 bits on x86 and 36 on
      aarch64. */
  function UserRules(arch: Arch, leaf: Level := PMD): Rules {
    Rules((level: Level, e: Word) => UserDescends(arch, level, e, leaf), (e: Word) => UserTable(arch, e))
  }

  predicate UserDescends(arch: Arch, level: Level, e: Word, leaf: Level := PMD) {
    Present(arch, e) && !(arch.X86? && level == leaf && Large(e))
  }

  function UserTable(arch: Arch, e: Word): nat {
    match arch
    case X86 => Frame28(e) * 4096
    case Arm => Frame36(e) * 4096
  }

  /** The kernel module on x86 tests the Linux predicates none (zero), bad and leaf, and uses
      frame bits 12 to 51. */
  function KernelRules(): Rules {
    Rules((level: Level, e: Word) => KernelDescends(level, e), (e: Word) => Frame40(e) * 4096)
  }

  predicate KernelDescends(level: Level, e: Word) {
    && e != {}
    && match level
       case PGD => !Bad(e)
       case P4D => !Bad(e)
       case PUD => !(Large(e) && Present(X86, e))
       case PMD => !Large(e)
       case PTE => false
  }

  function Frame28(e: Word): nat {
    Value(e, 12, 28)
  }

  function Frame36(e: Word): nat {
    Value(e, 12, 36)
  }

  function Frame40(e: Word): nat {
    Value(e, 12, 40)
  }

  /** Bit 7: the entry maps a large page. */
  predicate Large(e: Word) {
    7 in e
  }

  /** Linux `p4d_bad` on x86: a flag other than P, RW, US, A, D and NX is set. */
  predicate Bad(e: Word) {
    e - Bits(12, 52) - {0, 1, 2, 5, 6, 63} != {}
  }

  /** The entry tests in bits. On x86 the library goes on below an entry with bit 0, and with bit 7 only
      above the level of large pages; on aarch64 below one with bits 0 and 1. */
  lemma LibraryTests(level: Level, e: Word)
    ensures UserDescends(X86, level, e) <==> 0 in e && (level == PMD ==> 7 !in e)
    ensures UserDescends(Arm, level, e) <==> {0, 1} <= e
  {
  }

  /** The kernel goes on below a root entry that is not zero and has no flag but bits 0, 1, 2, 5, 6 and 63;
      below a PUD that is not zero, but not with both bits 0 and 7; and below a PMD that is not zero,
      but not with bit 7. */
  lemma KernelTests(level: Level, e: Word)
    requires level != PTE
    ensures KernelDescends(level, e) <==>
            && e != {}
            && (level == PGD || level == P4D ==>
                  forall b: Bit :: b in e ==> b == 0 || b == 1 || b == 2 || b == 5 || b == 6 || 12 <= b < 52 || b == 63)
            && (level == PUD ==> !({0, 7} <= e))
            && (level == PMD ==> 7 !in e)
  {
    assert forall b: Bit :: b in e - Bits(12, 52) - {0, 1, 2, 5, 6, 63} <==>
                     b in e && !(12 <= b < 52) && b != 0 && b != 1 && b != 2 && b != 5 && b != 6 && b != 63;
  }

  /** The narrow and the wide frame field agree exactly when bits 40 to 51 are clear. */
  lemma FrameFieldsAgree(e: Word)
    ensures Frame28(e) == Frame40(e) <==> e * Bits(40, 52) == {}
  {
    ValueSplits(e, 12, 28, 12);
    ValueIsZero(e, 40, 12);
    ScaledIsZero(Pow2(28), Value(e, 40, 12));
  }

  lemma ScaledIsZero(x: Positive, y: nat)
    ensures x * y == 0 <==> y == 0
  {
  }

  /** Tables named by entries are page aligned and lie below a bound. */
  ghost predicate Framed(rules: Rules, bound: nat) {
    forall e :: rules.table(e) % 4096 == 0 && rules.table(e) < bound
  }

  /** The bound is set by the width of the frame field, and is reached. */
  lemma FrameBounds(ones: Word)
    requires ones == Bits(0, 64)
    ensures Framed(UserRules(X86), 0x100_0000_0000) && UserRules(X86).table(ones) == 0x100_0000_0000 - 4096
    ensures Framed(UserRules(Arm), 0x1_0000_0000_0000) && UserRules(Arm).table(ones) == 0x1_0000_0000_0000 - 4096
    ensures Framed(KernelRules(), 0x10_0000_0000_0000) && KernelRules().table(ones) == 0x10_0000_0000_0000 - 4096
  {
    KnownPowers();
    OnesValue(ones, 28);
    OnesValue(ones, 36);
    OnesValue(ones, 40);
  }

  lemma {:induction false} OnesValue(ones: Word, n: nat)
    requires n <= 52 && ones == Bits(0, 64)
    ensures Value(ones, 12, n) == Pow2(n) - 1
  {
    if n != 0 {
      OnesValue(ones, n - 1);
    }
  }

  /** The table an entry names starts at the address that the entry itself spells once all bits outside the
      frame field are cleared: bits 12 to 39 stay for the library on x86, bits 12 to 47 on aarch64, and
      bits 12 to 51 for the kernel. */
  lemma TableIsMaskedEntry(e: Word)
    ensures UserRules(X86).table(e) == Value(e * Bits(12, 40), 0, 64)
    ensures UserRules(Arm).table(e) == Value(e * Bits(12, 48), 0, 64)
    ensures KernelRules().table(e) == Value(e * Bits(12, 52), 0, 64)
  {
    MaskedValue(e, 28);
    MaskedValue(e, 36);
    MaskedValue(e, 40);
  }

  lemma MaskedValue(e: Word, n: nat)
    requires 12 + n <= 64
    ensures Value(e * Bits(12, 12 + n), 0, 64) == Value(e, 12, n) * 4096
  {
    var x := e * Bits(12, 12 + n);
    ValueSplits(x, 0, 12, 52);
    ValueSplits(x, 12, n, 52 - n);
    ValueIsZero(x, 0, 12);
    ValueIsZero(x, 12 + n, 52 - n);
    assert x * Bits(0, 12) == {} && x * Bits(12 + n, 64) == {};
    ScaledIsZero(Pow2(n), Value(x, 12 + n, 52 - n));
    MovedField(x, 12, e, 12, n);
    assert Pow2(12) == 4096;
  }

  lemma {:induction false} Pow2Add(a: nat, b: nat)
    ensures Pow2(a + b) == Pow2(a) * Pow2(b)
  {
    if a != 0 {
      Pow2Add(a - 1, b);
    }
  }

  /** The powers of two the definitions of `ptedit_init` use. */
  lemma KnownPowers()
    ensures Pow2(9) == 512 && Pow2(11) == 2048 && Pow2(12) == 4096 && Pow2(14) == 16384
    ensures Pow2(21) == 0x20_0000 && Pow2(30) == 0x4000_0000 && Pow2(39) == 0x80_0000_0000
    ensures Pow2(28) == 0x1000_0000 && Pow2(40) == 0x100_0000_0000
    ensures Pow2(25) == 0x200_0000 && Pow2(36) == 0x10_0000_0000 && Pow2(47) == 0x8000_0000_0000
  {
    assert Pow2(9) == 512 && Pow2(11) == 2048 && Pow2(12) == 4096;
    Pow2Add(12, 2);
    Pow2Add(12, 9);
    Pow2Add(21, 9);
    Pow2Add(30, 9);
    Pow2Add(14, 11);
    Pow2Add(25, 11);
    Pow2Add(36, 11);
    Pow2Add(14, 14);
    Pow2Add(28, 12);
  }

  /** The three definitions of `ptedit_init` in numbers. */
  lemma KnownLevels()
    ensures LevelsOf(X86_64) ==
            More(PGD, 0x80_0000_0000, 512,
                 More(PUD, 0x4000_0000, 512, More(PMD, 0x20_0000, 512, More(PTE, 4096, 512, Done))))
    ensures LevelsOf(ARM_16K) ==
            More(PGD, 0x8000_0000_0000, 2048,
                 More(PUD, 0x10_0000_0000, 2048, More(PMD, 0x200_0000, 2048, More(PTE, 16384, 2048, Done))))
    ensures LevelsOf(ARM_4K) ==
            More(PGD, 0x4000_0000, 512, More(PMD, 0x20_0000, 512, More(PTE, 4096, 512, Done)))
  {
    KnownPowers();
  }
}
