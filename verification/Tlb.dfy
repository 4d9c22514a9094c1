/** TLB coherence of page-table-entry updates as a step machine: any number of updates in any
    interleaving, while the processor may cache or drop translations at every step. */
module Tlb {
  import opened Paging
  import opened Radix
  import opened Tree
  import opened EntryBits
  import Runs

  // ---- The processor --------------------------------------------------------------------------

  /** How the processor reads the entries on a walk, and which entries at the end of one map a page. */
  datatype Processor = Processor(rules: Rules, maps: (Level, Word) -> bool)

  /** Section 4.5 of Intel SDM Volume 3A: frame bits 12 to 51, and large pages in the PUD and PMD. */
  predicate X86Descends(level: Level, e: Word) {
    0 in e && level != PTE && !(Large(e) && (level == PUD || level == PMD))
  }

  predicate X86Maps(level: Level, e: Word) {
    0 in e && (level == PTE || (Large(e) && (level == PUD || level == PMD)))
  }

  /** Arm ARM DDI 0487, VMSAv8-64 with 4 KiB pages: table and page descriptors have both low bits set,
      block descriptors only the lowest, and addresses are in bits 12 to 47. */
  predicate ArmDescends(level: Level, e: Word) {
    0 in e && 1 in e && level != PTE
  }

  predicate ArmMaps(level: Level, e: Word) {
    0 in e && (level == PTE <==> 1 in e)
  }

  function Cpu(arch: Arch): Processor {
    match arch
    case X86 => Processor(Rules(X86Descends, (e: Word) => Frame40(e) * 4096), X86Maps)
    case Arm => Processor(Rules(ArmDescends, (e: Word) => Frame36(e) * 4096), ArmMaps)
  }

  /** At a present entry the processor either goes on or has its page, and at one that is not present
      neither; on aarch64 a page table has no blocks, so there bit 1 has to be set as well. It goes on to
      the PMD or the page table below, except at large pages. */
  lemma GoesOnOrMaps(arch: Arch, level: Level, e: Word)
    ensures var on, maps := Cpu(arch).rules.descends(level, e), Cpu(arch).maps(level, e);
            && !(on && maps)
            && (on || maps <==> 0 in e && !(arch.Arm? && level == PTE && 1 !in e))
            && (on <==> 0 in e && level != PTE &&
                        if arch.X86? then (level == PUD || level == PMD ==> 7 !in e) else 1 in e)
  {
  }

  /** Where the processor reads an entry above the page table as the library does: on x86 not at a
      1 GiB leaf, and only if the frame of a table is below 2^28; on aarch64 always. */
  predicate ReadAlike(arch: Arch, v: Visit) {
    arch.X86? ==>
      && !(v.level == PUD && 0 in v.entry && Large(v.entry))
      && (UserDescends(X86, v.level, v.entry) ==> v.entry * Bits(40, 52) == {})
  }

  lemma ReadAlikeMeans(arch: Arch, v: Visit)
    requires v.level != PTE
    ensures ReadAlike(arch, v) <==> Alike(UserRules(arch), Cpu(arch).rules, v)
  {
    FrameFieldsAgree(v.entry);
  }

  /** The processor walks all pages of a forest like the library exactly when it reads every entry
      above the page tables alike. */
  lemma ProcessorAgrees(arch: Arch, f: Forest, m: Memory)
    requires f.walker.rules == UserRules(arch)
    ensures Runs.AllAlike(f, Cpu(arch).rules, m) <==>
            forall r, a, v :: f.Covers(r, a) && v in Walk(f.walker, m, r, a) && v.level != PTE ==> ReadAlike(arch, v)
  {
    forall v: Visit | v.level != PTE
      ensures ReadAlike(arch, v) <==> Alike(f.walker.rules, Cpu(arch).rules, v)
    {
      ReadAlikeMeans(arch, v);
    }
  }

  // ---- The machine ----------------------------------------------------------------------------

  /** The tables as the library walks them, the processor, and the address spaces with their roots. */
  datatype Platform = Platform(forest: Forest, cpu: Processor, spaces: map<nat, nat>) {

    /** The translation of an address, by a walk of the processor. */
    function Translation(m: Memory, root: nat, a: nat): Option<Word> {
      var p := Walk(Walker(cpu.rules, forest.walker.levels), m, root, a);
      if p != [] && cpu.maps(p[|p| - 1].level, p[|p| - 1].entry) then Some(p[|p| - 1].entry) else None
    }

    /** A cached translation is one for the page a job edits. */
    predicate Touches(job: Job, k: Key) {
      k.0 in spaces && spaces[k.0] == job.root && forest.Page(job.address) == k.1
    }
  }

  /** A cached translation is filed under its address space and page. */
  type Key = (nat, nat)

  type Cache = map<Key, Word>

  /** Where one update stands: it has resolved the entry and edited it, then it knows the slot,
      then it has written, then it has invalidated. */
  datatype Phase =
    | Started
    | Edited(value: Word)
    | Located(value: Word, slot: nat)
    | Written
    | Returned

  /** One PTE edit of one page: the root it walks, the address, the edit, and the address spaces
      in which its invalidation drops the page. */
  datatype Job = Job(root: nat, address: nat, edit: Edit, flushes: set<nat>)

  /** The address spaces in which `invalidate_tlb_kernel` drops the page: on x86 that of the given
      process if it still exists, on aarch64 that of the caller if it maps the address at all. */
  function FlushedSpaces(arch: Arch, target: Option<nat>, caller: nat, callerMaps: bool): set<nat> {
    match arch
    case X86 => if target.Some? then {target.value} else {}
    case Arm => if callerMaps then {caller} else {}
  }

  datatype Thread = Thread(job: Job, phase: Phase)

  /** Memory, the cached translations, the updates, and those that have written in their order. */
  datatype State = State(mem: Memory, tlb: Cache, threads: map<nat, Thread>, done: seq<nat>)

  /** What can happen: the processor caches or drops a translation, or an update goes on. */
  datatype Step = Fill(space: nat, address: nat) | Evict(key: Key) | Advance(tid: nat)

  /** One step; a step that is not possible changes nothing. */
  function Do(pl: Platform, s: State, step: Step): State {
    match step
    case Fill(mm, a) =>
      if mm in pl.spaces && pl.forest.Covers(pl.spaces[mm], a) && pl.Translation(s.mem, pl.spaces[mm], a).Some?
      then s.(tlb := s.tlb[(mm, pl.forest.Page(a)) := pl.Translation(s.mem, pl.spaces[mm], a).value]) else s
    case Evict(k) => s.(tlb := s.tlb - {k})
    case Advance(tid) => if tid in s.threads then Go(pl.forest, s, tid) else s
  }

  function Go(f: Forest, s: State, tid: nat): State
    requires tid in s.threads
  {
    var job := s.threads[tid].job;
    var v := Pte(f.walker, s.mem, job.root, job.address);
    match s.threads[tid].phase
    case Started =>
      if v.Some? then At(s, tid, Edited(Apply(job.edit, v.value.entry)))
      else At(s.(done := s.done + [tid]), tid, Returned)
    case Edited(x) =>
      if v.Some? then At(s, tid, Located(x, v.value.slot)) else At(s.(done := s.done + [tid]), tid, Written)
    case Located(x, slot) => At(s.(mem := Write(s.mem, slot, x), done := s.done + [tid]), tid, Written)
    case Written => At(s.(tlb := Drop(s.tlb, job.flushes, f.Page(job.address))), tid, Returned)
    case Returned => s
  }

  function At(s: State, tid: nat, phase: Phase): State
    requires tid in s.threads
  {
    s.(threads := s.threads[tid := s.threads[tid].(phase := phase)])
  }

  /** Invalidation of a page in some address spaces. */
  function Drop(tlb: Cache, spaces: set<nat>, page: nat): Cache {
    map k | k in tlb && !(k.0 in spaces && k.1 == page) :: tlb[k]
  }

  /** The processor can cache the translation of any mapped page at any moment, and from then on it has
      that translation; it can drop any; and it touches nothing else. */
  lemma ProcessorSteps(pl: Platform, s: State, mm: nat, a: nat, gone: Key)
    requires mm in pl.spaces && pl.forest.Covers(pl.spaces[mm], a) && pl.Translation(s.mem, pl.spaces[mm], a).Some?
    ensures var s', k := Do(pl, s, Fill(mm, a)), (mm, pl.forest.Page(a));
            && k in s'.tlb && Some(s'.tlb[k]) == pl.Translation(s.mem, pl.spaces[mm], a)
            && (forall j :: j != k ==> (j in s'.tlb <==> j in s.tlb) && (j in s.tlb ==> s'.tlb[j] == s.tlb[j]))
            && s' == s.(tlb := s'.tlb)
    ensures var s' := Do(pl, s, Evict(gone));
            && gone !in s'.tlb
            && (forall j :: j != gone ==> (j in s'.tlb <==> j in s.tlb) && (j in s.tlb ==> s'.tlb[j] == s.tlb[j]))
            && s' == s.(tlb := s'.tlb)
  {
  }

  function Run(pl: Platform, s: State, steps: seq<Step>): State
    decreases |steps|
  {
    if steps == [] then s else Run(pl, Do(pl, s, steps[0]), steps[1..])
  }

  // ---- The invariant -----------------------------------------------------------------------

  /** A cached translation that a fresh walk of the processor no longer yields. */
  predicate Stale(pl: Platform, s: State, k: Key)
    requires k in s.tlb && k.0 in pl.spaces
  {
    pl.Translation(s.mem, pl.spaces[k.0], k.1) != Some(s.tlb[k])
  }

  /** Some update has written the page and not yet invalidated it. */
  ghost predicate Pending(pl: Platform, s: State, k: Key) {
    exists tid :: tid in s.threads && s.threads[tid].phase == Written && pl.Touches(s.threads[tid].job, k)
  }

  ghost predicate ThreadFits(pl: Platform, s: State, t: Thread) {
    && pl.forest.Covers(t.job.root, t.job.address)
    && (forall mm :: mm in pl.spaces && pl.spaces[mm] == t.job.root ==> mm in t.job.flushes)
    && (t.phase.Located? ==>
          var v := Pte(pl.forest.walker, s.mem, t.job.root, t.job.address);
          v.Some? && v.value.slot == t.phase.slot)
  }

  ghost predicate KeyFits(pl: Platform, s: State, k: Key)
    requires k in s.tlb
  {
    && k.0 in pl.spaces && pl.forest.Covers(pl.spaces[k.0], k.1) && pl.forest.Page(k.1) == k.1
    && (Stale(pl, s, k) ==> Pending(pl, s, k))
  }

  /** Tables are tree shaped and the processor walks them like the library; every update invalidates
      all address spaces with the root it walks; and every stale cached translation belongs to a page
      inside an unfinished update. */
  ghost predicate Coherent(pl: Platform, s: State) {
    && pl.forest.Shaped(s.mem) && Runs.AllAlike(pl.forest, pl.cpu.rules, s.mem)
    && (forall tid :: tid in s.threads ==> ThreadFits(pl, s, s.threads[tid]))
    && (forall k :: k in s.tlb ==> KeyFits(pl, s, k))
  }

  // ---- A write changes the translation of its page only ----------------------------------------

  lemma TranslationElsewhere(pl: Platform, m: Memory, r: nat, a: nat, x: Word, r': nat, a': nat)
    requires pl.forest.Shaped(m) && Runs.AllAlike(pl.forest, pl.cpu.rules, m)
    requires pl.forest.Covers(r, a) && pl.forest.Covers(r', a') && Pte(pl.forest.walker, m, r, a).Some?
    requires !(r' == r && pl.forest.Page(a') == pl.forest.Page(a))
    ensures pl.Translation(Write(m, Pte(pl.forest.walker, m, r, a).value.slot, x), r', a') == pl.Translation(m, r', a')
  {
    var f := pl.forest;
    var m' := Write(m, Pte(f.walker, m, r, a).value.slot, x);
    PointUpdate(f, m, r, a, x, r', a');
    WriteKeepsTree(f, m, r, a, x);
    Runs.WriteKeepsAlike(f, pl.cpu.rules, m, r, a, x);
    Runs.AlikeWalks(f, pl.cpu.rules, m, r', a');
    Runs.AlikeWalks(f, pl.cpu.rules, m', r', a');
  }

  lemma SlotStays(f: Forest, m: Memory, r: nat, a: nat, x: Word, r': nat, a': nat)
    requires f.Shaped(m) && f.Covers(r, a) && f.Covers(r', a')
    requires Pte(f.walker, m, r, a).Some? && Pte(f.walker, m, r', a').Some?
    ensures var v := Pte(f.walker, Write(m, Pte(f.walker, m, r, a).value.slot, x), r', a');
            v.Some? && v.value.slot == Pte(f.walker, m, r', a').value.slot
  {
    PteAfterWrite(f, m, r, a, x, r', a');
    if r' == r && f.Page(a') == f.Page(a) {
      SamePageSameWalk(f.walker, f.unit, m, r, a, a');
    }
  }

  // ---- Every step keeps the invariant ------------------------------------------------------------

  lemma FillKeeps(pl: Platform, s: State, mm: nat, a: nat)
    requires Coherent(pl, s)
    ensures Coherent(pl, Do(pl, s, Fill(mm, a)))
  {
    var s' := Do(pl, s, Fill(mm, a));
    if s' != s {
      var page := pl.forest.Page(a);
      PageIsIdempotent(pl.forest, a);
      SamePageSameWalk(Walker(pl.cpu.rules, pl.forest.walker.levels), pl.forest.unit, s.mem, pl.spaces[mm], page, a);
      forall k | k in s'.tlb
        ensures KeyFits(pl, s', k)
      {
        if k != (mm, page) {
          assert k in s.tlb && KeyFits(pl, s, k);
          PendingSame(pl, s, s', k);
        }
      }
    }
  }

  lemma PageIsIdempotent(f: Forest, a: nat)
    requires Proper(f.walker.levels, f.unit, f.count)
    ensures f.Page(f.Page(a)) == f.Page(a)
  {
    PageBaseIsAddressBits(f.walker.levels, f.unit, a);
  }

  lemma PendingSame(pl: Platform, s: State, s': State, k: Key)
    requires s.threads == s'.threads
    ensures Pending(pl, s, k) <==> Pending(pl, s', k)
  {
  }

  lemma EvictKeeps(pl: Platform, s: State, gone: Key)
    requires Coherent(pl, s)
    ensures Coherent(pl, Do(pl, s, Evict(gone)))
  {
    var s' := Do(pl, s, Evict(gone));
    forall k | k in s'.tlb
      ensures KeyFits(pl, s', k)
    {
      assert KeyFits(pl, s, k);
      PendingSame(pl, s, s', k);
    }
  }

  /** Moving one update to another phase, with memory and cache as they are. */
  lemma PhaseKeeps(pl: Platform, s: State, tid: nat, phase: Phase, s': State)
    requires Coherent(pl, s) && tid in s.threads && s.threads[tid].phase != Written
    requires ThreadFits(pl, s, s.threads[tid].(phase := phase)) && s' == At(s, tid, phase).(done := s'.done)
    ensures Coherent(pl, s')
  {
    forall k | k in s'.tlb
      ensures KeyFits(pl, s', k)
    {
      assert KeyFits(pl, s, k);
      PendingStays(pl, s, s', tid, k);
    }
  }

  /** Other updates stay pending. */
  lemma PendingStays(pl: Platform, s: State, s': State, tid: nat, k: Key)
    requires tid in s.threads && s'.threads.Keys == s.threads.Keys
    requires forall other :: other in s.threads && other != tid ==> s'.threads[other] == s.threads[other]
    requires s.threads[tid].phase != Written || !pl.Touches(s.threads[tid].job, k)
    ensures Pending(pl, s, k) ==> Pending(pl, s', k)
  {
    if Pending(pl, s, k) {
      var other :| other in s.threads && s.threads[other].phase == Written && pl.Touches(s.threads[other].job, k);
      assert other != tid && s'.threads[other] == s.threads[other];
    }
  }

  lemma WriteKeepsKeys(pl: Platform, s: State, tid: nat, k: Key)
    requires Coherent(pl, s) && tid in s.threads && s.threads[tid].phase.Located? && k in s.tlb
    ensures var s' := Go(pl.forest, s, tid); k in s'.tlb && KeyFits(pl, s', k)
  {
    var t := s.threads[tid];
    var s' := Go(pl.forest, s, tid);
    assert ThreadFits(pl, s, t) && KeyFits(pl, s, k);
    if pl.Touches(t.job, k) {
      assert s'.threads[tid] == Thread(t.job, Written);
    } else {
      TranslationElsewhere(pl, s.mem, t.job.root, t.job.address, t.phase.value, pl.spaces[k.0], k.1);
      PendingStays(pl, s, s', tid, k);
    }
  }

  lemma WriteKeeps(pl: Platform, s: State, tid: nat)
    requires Coherent(pl, s) && tid in s.threads && s.threads[tid].phase.Located?
    ensures Coherent(pl, Go(pl.forest, s, tid))
  {
    var f := pl.forest;
    var t := s.threads[tid];
    var s' := Go(f, s, tid);
    assert ThreadFits(pl, s, t);
    WriteKeepsTree(f, s.mem, t.job.root, t.job.address, t.phase.value);
    Runs.WriteKeepsAlike(f, pl.cpu.rules, s.mem, t.job.root, t.job.address, t.phase.value);
    forall other | other in s'.threads
      ensures ThreadFits(pl, s', s'.threads[other])
    {
      assert ThreadFits(pl, s, s.threads[other]);
      if other != tid && s.threads[other].phase.Located? {
        SlotStays(f, s.mem, t.job.root, t.job.address, t.phase.value,
                  s.threads[other].job.root, s.threads[other].job.address);
      }
    }
    forall k | k in s'.tlb
      ensures KeyFits(pl, s', k)
    {
      WriteKeepsKeys(pl, s, tid, k);
    }
  }

  lemma FlushKeeps(pl: Platform, s: State, tid: nat)
    requires Coherent(pl, s) && tid in s.threads && s.threads[tid].phase == Written
    ensures Coherent(pl, Go(pl.forest, s, tid))
  {
    var s' := Go(pl.forest, s, tid);
    assert ThreadFits(pl, s, s.threads[tid]);
    forall other | other in s'.threads
      ensures ThreadFits(pl, s', s'.threads[other])
    {
      assert ThreadFits(pl, s, s.threads[other]);
    }
    forall k | k in s'.tlb
      ensures KeyFits(pl, s', k)
    {
      assert k in s.tlb && KeyFits(pl, s, k) && s'.tlb[k] == s.tlb[k];
      assert !pl.Touches(s.threads[tid].job, k);
      PendingStays(pl, s, s', tid, k);
    }
  }

  lemma StepKeeps(pl: Platform, s: State, step: Step)
    requires Coherent(pl, s)
    ensures Coherent(pl, Do(pl, s, step))
  {
    match step
    case Fill(mm, a) => FillKeeps(pl, s, mm, a);
    case Evict(k) => EvictKeeps(pl, s, k);
    case Advance(tid) =>
      if tid in s.threads {
        AdvanceKeeps(pl, s, tid);
      }
  }

  lemma AdvanceKeeps(pl: Platform, s: State, tid: nat)
    requires Coherent(pl, s) && tid in s.threads
    ensures Coherent(pl, Go(pl.forest, s, tid))
  {
    var t := s.threads[tid];
    var s' := Go(pl.forest, s, tid);
    assert ThreadFits(pl, s, t);
    match t.phase
    case Started => PhaseKeeps(pl, s, tid, s'.threads[tid].phase, s');
    case Edited(x) => PhaseKeeps(pl, s, tid, s'.threads[tid].phase, s');
    case Located(_, _) => WriteKeeps(pl, s, tid);
    case Written => FlushKeeps(pl, s, tid);
    case Returned =>
  }

  /** In every run, at every step, each cached translation agrees with a fresh walk of the processor
      unless its page is inside an update that has written and not yet invalidated. */
  lemma {:induction false} RunIsCoherent(pl: Platform, s: State, steps: seq<Step>)
    requires Coherent(pl, s)
    ensures Coherent(pl, Run(pl, s, steps))
    decreases |steps|
  {
    if steps != [] {
      StepKeeps(pl, s, steps[0]);
      RunIsCoherent(pl, Do(pl, s, steps[0]), steps[1..]);
    }
  }

  /** Once no update is unfinished, no cached translation is stale. */
  lemma NothingStaleAtRest(pl: Platform, s: State, steps: seq<Step>, k: Key)
    requires Coherent(pl, s)
    requires AtRest(Run(pl, s, steps)) && k in Run(pl, s, steps).tlb
    ensures k.0 in pl.spaces && !Stale(pl, Run(pl, s, steps), k)
  {
    RunIsCoherent(pl, s, steps);
    assert KeyFits(pl, Run(pl, s, steps), k);
  }

  /** Nothing cached yet, and updates about to start. Each one walks the root of the process it names,
      no other address space has that root, and the invalidations are the kernel's, for a caller that
      maps the given pages itself. */
  ghost predicate Initial(pl: Platform, s: State, arch: Arch, targets: map<nat, nat>, caller: nat, mapped: set<nat>) {
    && s.tlb == map[]
    && forall tid :: tid in s.threads ==>
         && tid in targets
         && StartsWell(pl, s.threads[tid], arch, targets[tid], caller, mapped)
  }

  ghost predicate StartsWell(pl: Platform, t: Thread, arch: Arch, target: nat, caller: nat, mapped: set<nat>) {
    && t.phase == Started && pl.forest.Covers(t.job.root, t.job.address)
    && (forall mm :: mm in pl.spaces ==> (pl.spaces[mm] == t.job.root <==> mm == target))
    && t.job.flushes == FlushedSpaces(arch, Some(target), caller, pl.forest.Page(t.job.address) in mapped)
  }

  /** From the start, every run with the kernel's invalidation is coherent on x86, whatever processes
      it edits; on aarch64 if all updates are of pages the caller itself maps. */
  lemma KernelFlushSuffices(pl: Platform, s: State, arch: Arch, targets: map<nat, nat>, caller: nat, mapped: set<nat>,
                            steps: seq<Step>)
    requires pl.forest.Shaped(s.mem) && Runs.AllAlike(pl.forest, pl.cpu.rules, s.mem)
    requires Initial(pl, s, arch, targets, caller, mapped)
    requires arch.Arm? ==> forall tid :: tid in s.threads ==>
               targets[tid] == caller && pl.forest.Page(s.threads[tid].job.address) in mapped
    ensures Coherent(pl, Run(pl, s, steps))
  {
    forall tid | tid in s.threads
      ensures ThreadFits(pl, s, s.threads[tid])
    {
      assert StartsWell(pl, s.threads[tid], arch, targets[tid], caller, mapped);
    }
    RunIsCoherent(pl, s, steps);
  }

  // ---- One update on its own --------------------------------------------------------------------

  /** The steps of one update. */
  function Advances(tid: nat, n: nat): seq<Step> {
    if n == 0 then [] else [Advance(tid)] + Advances(tid, n - 1)
  }

  lemma RunNext(pl: Platform, s: State, tid: nat, n: nat)
    requires n > 0
    ensures Run(pl, s, Advances(tid, n)) == Run(pl, Do(pl, s, Advance(tid)), Advances(tid, n - 1))
  {
    assert Advances(tid, n)[1..] == Advances(tid, n - 1);
  }

  /** The last two steps of an update. */
  lemma TwoSteps(pl: Platform, s: State, tid: nat)
    requires tid in s.threads && s.threads[tid].phase.Located?
    ensures var t := s.threads[tid];
            Run(pl, s, Advances(tid, 2)) ==
            State(Write(s.mem, t.phase.slot, t.phase.value), Drop(s.tlb, t.job.flushes, pl.forest.Page(t.job.address)),
                  s.threads[tid := Thread(t.job, Returned)], s.done + [tid])
  {
    var t := s.threads[tid];
    RunNext(pl, s, tid, 2);
    var s1 := Do(pl, s, Advance(tid));
    RunNext(pl, s1, tid, 1);
    assert s1.threads == s.threads[tid := Thread(t.job, Written)];
    assert s1.threads[tid := Thread(t.job, Returned)] == s.threads[tid := Thread(t.job, Returned)];
  }

  /** An update that has resolved, and then runs to its end undisturbed, writes the value it computed
      into the slot of its page and drops the page. */
  lemma ThreeSteps(pl: Platform, s: State, tid: nat)
    requires tid in s.threads && s.threads[tid].phase.Edited?
    requires Pte(pl.forest.walker, s.mem, s.threads[tid].job.root, s.threads[tid].job.address).Some?
    ensures var t := s.threads[tid];
            var slot := Pte(pl.forest.walker, s.mem, t.job.root, t.job.address).value.slot;
            Run(pl, s, Advances(tid, 3)) ==
            State(Write(s.mem, slot, t.phase.value), Drop(s.tlb, t.job.flushes, pl.forest.Page(t.job.address)),
                  s.threads[tid := Thread(t.job, Returned)], s.done + [tid])
  {
    var t := s.threads[tid];
    var slot := Pte(pl.forest.walker, s.mem, t.job.root, t.job.address).value.slot;
    RunNext(pl, s, tid, 3);
    var s1 := At(s, tid, Located(t.phase.value, slot));
    assert Do(pl, s, Advance(tid)) == s1;
    TwoSteps(pl, s1, tid);
    assert s1.threads[tid := Thread(t.job, Returned)] == s.threads[tid := Thread(t.job, Returned)];
  }

  /** An update on its own is one edit of the page-table entry, and drops the page if there was one. */
  lemma FourSteps(pl: Platform, s: State, tid: nat)
    requires tid in s.threads && s.threads[tid].phase == Started
    ensures var job := s.threads[tid].job;
            var s' := Run(pl, s, Advances(tid, 4));
            && s'.mem == EditedMemory(pl.forest.walker, s.mem, job)
            && s'.tlb == EditedCache(pl.forest.walker, s.mem, s.tlb, job)
            && s'.threads == s.threads[tid := Thread(job, Returned)]
  {
    RunNext(pl, s, tid, 4);
    var s1 := Do(pl, s, Advance(tid));
    if Pte(pl.forest.walker, s.mem, s.threads[tid].job.root, s.threads[tid].job.address).Some? {
      ThreeSteps(pl, s1, tid);
    } else {
      RunNext(pl, s1, tid, 3);
      RunNext(pl, s1, tid, 2);
      RunNext(pl, s1, tid, 1);
    }
  }

  /** A state in which no update is under way. */
  function Resting(m: Memory, tlb: Cache): State {
    State(m, tlb, map[], [])
  }

  lemma RestIsCoherent(pl: Platform, s: State)
    requires Coherent(pl, s) && AtRest(s)
    ensures Coherent(pl, Resting(s.mem, s.tlb))
  {
    forall k | k in s.tlb
      ensures KeyFits(pl, Resting(s.mem, s.tlb), k)
    {
      assert KeyFits(pl, s, k);
    }
  }

  /** An update that invalidates where it writes: it is for no process at all, or for a page of the forest,
      and it drops that page in all address spaces with the root that it walks. */
  ghost predicate FlushesWell(pl: Platform, job: Job) {
    && (job.root == 0 || pl.forest.Covers(job.root, job.address))
    && forall mm :: mm in pl.spaces && pl.spaces[mm] == job.root ==> mm in job.flushes
  }

  lemma StartIsCoherent(pl: Platform, m: Memory, tlb: Cache, job: Job)
    requires Coherent(pl, Resting(m, tlb)) && FlushesWell(pl, job) && job.root != 0
    ensures Coherent(pl, State(m, tlb, map[0 := Thread(job, Started)], []))
  {
    forall k | k in tlb
      ensures KeyFits(pl, State(m, tlb, map[0 := Thread(job, Started)], []), k)
    {
      assert KeyFits(pl, Resting(m, tlb), k);
    }
  }

  /** What an update on its own leaves in memory and cache. */
  function EditedMemory(w: Walker, m: Memory, job: Job): Memory {
    Runs.EditPte(w, m, job.root, job.address, job.edit)
  }

  function EditedCache(w: Walker, m: Memory, tlb: Cache, job: Job): Cache {
    if Pte(w, m, job.root, job.address).Some? then Drop(tlb, job.flushes, PageBase(w.levels, job.address)) else tlb
  }

  /** An update on its own that invalidates where it writes leaves no stale translation. */
  lemma OneUpdateIsCoherent(pl: Platform, m: Memory, tlb: Cache, job: Job)
    requires Coherent(pl, Resting(m, tlb)) && FlushesWell(pl, job)
    ensures Coherent(pl, Resting(EditedMemory(pl.forest.walker, m, job), EditedCache(pl.forest.walker, m, tlb, job)))
  {
    if job.root != 0 {
      var s := State(m, tlb, map[0 := Thread(job, Started)], []);
      StartIsCoherent(pl, m, tlb, job);
      FourSteps(pl, s, 0);
      RunIsCoherent(pl, s, Advances(0, 4));
      RestIsCoherent(pl, Run(pl, s, Advances(0, 4)));
    }
  }

  /** Memory and cache after updates one after the other. */
  function OneByOne(w: Walker, m: Memory, tlb: Cache, jobs: seq<Job>): (Memory, Cache)
    decreases |jobs|
  {
    if jobs == [] then (m, tlb)
    else OneByOne(w, EditedMemory(w, m, jobs[0]), EditedCache(w, m, tlb, jobs[0]), jobs[1..])
  }

  /** Updates that invalidate where they write leave no stale translation, whatever their number. */
  lemma {:induction false} OneByOneIsCoherent(pl: Platform, m: Memory, tlb: Cache, jobs: seq<Job>)
    requires Coherent(pl, Resting(m, tlb)) && forall i :: 0 <= i < |jobs| ==> FlushesWell(pl, jobs[i])
    ensures var (m', tlb') := OneByOne(pl.forest.walker, m, tlb, jobs); Coherent(pl, Resting(m', tlb'))
    decreases |jobs|
  {
    if jobs != [] {
      var w := pl.forest.walker;
      OneUpdateIsCoherent(pl, m, tlb, jobs[0]);
      OneByOneIsCoherent(pl, EditedMemory(w, m, jobs[0]), EditedCache(w, m, tlb, jobs[0]), jobs[1..]);
    }
  }

  /** Without invalidating an address space with the root it walks, an update leaves a stale
      translation behind: if the page was cached there and the edit changes its entry, then after the
      update the cached translation differs from a fresh walk. */
  lemma MissedFlushLeavesStale(pl: Platform, s: State, tid: nat, mm: nat)
    requires pl.forest.Shaped(s.mem) && Runs.AllAlike(pl.forest, pl.cpu.rules, s.mem)
    requires tid in s.threads && s.threads[tid].phase == Started && mm in pl.spaces
    requires var job := s.threads[tid].job;
             var k := (mm, pl.forest.Page(job.address));
             var v := Pte(pl.forest.walker, s.mem, job.root, job.address);
             && pl.forest.Covers(job.root, job.address) && pl.spaces[mm] == job.root && mm !in job.flushes
             && v.Some? && v.value.slot in s.mem && Apply(job.edit, v.value.entry) != v.value.entry
             && k in s.tlb && s.tlb[k] == v.value.entry
    ensures var s' := Run(pl, s, Advances(tid, 4));
            var k := (mm, pl.forest.Page(s.threads[tid].job.address));
            k in s'.tlb && Stale(pl, s', k)
  {
    var f := pl.forest;
    var job := s.threads[tid].job;
    var v := Pte(f.walker, s.mem, job.root, job.address).value;
    var x := Apply(job.edit, v.entry);
    var page := f.Page(job.address);
    FourSteps(pl, s, tid);
    PageIsIdempotent(f, job.address);
    PteAfterWrite(f, s.mem, job.root, job.address, x, job.root, page);
    WriteKeepsTree(f, s.mem, job.root, job.address, x);
    Runs.WriteKeepsAlike(f, pl.cpu.rules, s.mem, job.root, job.address, x);
    Runs.AlikeWalks(f, pl.cpu.rules, Write(s.mem, v.slot, x), job.root, page);
  }

  /** The invalidation of aarch64 is such a one for every process but the caller, and for the caller
      itself where it does not map the address. */
  lemma ForeignFlushLeavesStale(pl: Platform, s: State, tid: nat, mm: nat, caller: nat, callerMaps: bool)
    requires pl.forest.Shaped(s.mem) && Runs.AllAlike(pl.forest, pl.cpu.rules, s.mem)
    requires tid in s.threads && s.threads[tid].phase == Started && mm in pl.spaces
    requires s.threads[tid].job.flushes == FlushedSpaces(Arm, Some(mm), caller, callerMaps) &&
             (mm != caller || !callerMaps)
    requires var job := s.threads[tid].job;
             var k := (mm, pl.forest.Page(job.address));
             var v := Pte(pl.forest.walker, s.mem, job.root, job.address);
             && pl.forest.Covers(job.root, job.address) && pl.spaces[mm] == job.root
             && v.Some? && v.value.slot in s.mem && Apply(job.edit, v.value.entry) != v.value.entry
             && k in s.tlb && s.tlb[k] == v.value.entry
    ensures var s' := Run(pl, s, Advances(tid, 4));
            var k := (mm, pl.forest.Page(s.threads[tid].job.address));
            k in s'.tlb && Stale(pl, s', k)
  {
    MissedFlushLeavesStale(pl, s, tid, mm);
  }

  // ---- Updates with upper levels ------------------------------------------------------------------

  /** A walk that reads no changed word stays as it is. */
  lemma {:induction false} PathStays(rules: Rules, m: Memory, m': Memory, table: nat, a: nat, levels: Levels)
    requires forall v :: v in Path(rules, m, table, a, levels) ==> Read(m', v.slot) == Read(m, v.slot)
    ensures Path(rules, m', table, a, levels) == Path(rules, m, table, a, levels)
    decreases levels
  {
    if levels.More? {
      var p := Path(rules, m, table, a, levels);
      PathStep(rules, m, table, a, levels);
      PathStep(rules, m', table, a, levels);
      assert p[0] in p && forall v :: v in p[1..] ==> v in p;
      if rules.descends(levels.level, p[0].entry) {
        PathStays(rules, m, m', rules.table(p[0].entry), a, levels.rest);
      }
    }
  }

  /** A walk that reads a cleared word ends in it. */
  lemma {:induction false} PathEnds(rules: Rules, m: Memory, slot: nat, table: nat, a: nat, levels: Levels)
    requires slot in m && exists v :: v in Path(rules, m, table, a, levels) && v.slot == slot
    requires forall l :: !rules.descends(l, {})
    ensures var p := Path(rules, m[slot := {}], table, a, levels); p != [] && p[|p| - 1].entry == {}
    decreases levels
  {
    var m' := m[slot := {}];
    var p := Path(rules, m, table, a, levels);
    PathStep(rules, m, table, a, levels);
    PathStep(rules, m', table, a, levels);
    if p[0].slot != slot {
      var v :| v in p && v.slot == slot;
      assert v in p[1..];
      var below := Path(rules, m', rules.table(p[0].entry), a, levels.rest);
      PathEnds(rules, m, slot, rules.table(p[0].entry), a, levels.rest);
      assert Path(rules, m', table, a, levels) == [p[0]] + below;
    } else {
      assert Path(rules, m', table, a, levels)[1..] == [];
    }
  }

  /** The entries that the processor reads for a cached translation. */
  function HardwareWalk(pl: Platform, m: Memory, k: Key): seq<Visit>
    requires k.0 in pl.spaces
  {
    Walk(Walker(pl.cpu.rules, pl.forest.walker.levels), m, pl.spaces[k.0], k.1)
  }

  /** A translation whose walk reads no changed word stays as it is. */
  lemma TranslationStays(pl: Platform, m: Memory, m': Memory, k: Key)
    requires k.0 in pl.spaces && forall v :: v in HardwareWalk(pl, m, k) ==> Read(m', v.slot) == Read(m, v.slot)
    ensures pl.Translation(m', pl.spaces[k.0], k.1) == pl.Translation(m, pl.spaces[k.0], k.1)
  {
    if pl.spaces[k.0] != 0 {
      PathStays(pl.cpu.rules, m, m', pl.spaces[k.0], k.1, pl.forest.walker.levels);
    }
  }

  predicate AtRest(s: State) {
    forall tid :: tid in s.threads ==> s.threads[tid].phase == Returned
  }

  /** After an update of any entries at any levels, and the invalidation of one page, from a coherent
      state at rest: the page is not cached in the spaces it was invalidated in, and a cached translation
      can be stale only if its walk reads a word that changed. */
  lemma AnyUpdateIsLocal(pl: Platform, s: State, m': Memory, flushes: set<nat>, page: nat, k: Key)
    requires Coherent(pl, s) && AtRest(s) && k in Drop(s.tlb, flushes, page)
    ensures k.0 in pl.spaces && !(k.0 in flushes && k.1 == page)
    ensures Stale(pl, s.(mem := m', tlb := Drop(s.tlb, flushes, page)), k) ==>
              exists v :: v in HardwareWalk(pl, s.mem, k) && Read(m', v.slot) != Read(s.mem, v.slot)
  {
    assert KeyFits(pl, s, k) && !Pending(pl, s, k);
    if forall v :: v in HardwareWalk(pl, s.mem, k) ==> Read(m', v.slot) == Read(s.mem, v.slot) {
      TranslationStays(pl, s.mem, m', k);
    }
  }

  /** And it is stale if the update cleared a word its walk reads, at whatever level. */
  lemma ClearedEntryLeavesStale(pl: Platform, s: State, slot: nat, flushes: set<nat>, page: nat, k: Key)
    requires slot in s.mem && k in Drop(s.tlb, flushes, page) && k.0 in pl.spaces
    requires (forall l :: !pl.cpu.rules.descends(l, {}) && !pl.cpu.maps(l, {}))
    requires exists v :: v in HardwareWalk(pl, s.mem, k) && v.slot == slot
    ensures Stale(pl, s.(mem := s.mem[slot := {}], tlb := Drop(s.tlb, flushes, page)), k)
  {
    PathEnds(pl.cpu.rules, s.mem, slot, pl.spaces[k.0], k.1, pl.forest.walker.levels);
  }
}
