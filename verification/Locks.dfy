/** The kernel module's lock protocol under any interleaving of resolves and updates on one address
    space: each walk is a snapshot, the updates are serialised, and what `vm_to_user` copies after
    the unlock is the snapshot unless an update wrote the slot in between. */
module Locks {
  import opened Paging
  import opened Radix
  import opened Resolve
  import opened Update
  import opened Kernel
  import opened Agreement

  /** A request to the module. */
  datatype Job = ResolveJob(address: nat, pid: int) | UpdateJob(address: nat, vm: Entry)

  /** Where a request stands. A walk reads one entry per step, an update writes one level per step,
      and a resolve copies one level per step after it has released the lock. `seen` and `mark`
      record how many updates had finished and how many slots had been written at that moment. */
  datatype Pc =
    | Ready
    | Walking(table: nat, levels: Levels, acc: seq<Visit>)
    | Walked(acc: seq<Visit>)
    | Writing(found: Vm, k: nat)
    | Copying(found: Vm, k: nat, user: Entry, seen: nat, mark: nat)
    | Exited

  datatype Thread = Thread(job: Job, pc: Pc)

  /** A finished update: which request it was, and what it asked for. */
  datatype Commit = Commit(tid: nat, job: Job)

  /** Memory, the reader-writer lock, the requests, and the history: finished updates in the order
      of their unlocks, and the slots written. */
  datatype State = State(mem: Memory, readers: set<nat>, writer: Option<nat>, threads: map<nat, Thread>,
                         log: seq<Commit>, writes: seq<nat>)

  /** The tables of the address space: their layout and their root. */
  datatype Space = Space(d: Definition, root: nat)

  function CopyOrder(k: nat): Level {
    if k == 0 then P4D else if k == 1 then PGD else if k == 2 then PMD else if k == 3 then PUD else PTE
  }

  function WriteOrder(k: nat): Level {
    if k == 0 then PGD else if k == 1 then P4D else if k == 2 then PUD else if k == 3 then PMD else PTE
  }

  function At(s: State, tid: nat, pc: Pc): State
    requires tid in s.threads
  {
    s.(threads := s.threads[tid := s.threads[tid].(pc := pc)])
  }

  /** One step of one request; a request that has to wait for the lock stays where it is. */
  function Do(sp: Space, s: State, tid: nat): State {
    if tid !in s.threads then s
    else
      var job := s.threads[tid].job;
      match s.threads[tid].pc
      case Ready => Acquire(sp, s, tid)
      case Walking(table, levels, acc) => if levels.More? then ReadEntry(s, tid, table, levels, acc) else s
      case Walked(acc) =>
        var found := KeepAll(NO_VM, acc);
        if job.UpdateJob? then At(s, tid, Writing(found, 0))
        else if PTE in found.valid then Succeed(s, tid, found) else ErrorOut(s, tid, found)
      case Writing(found, k) =>
        if job.ResolveJob? then s
        else if k < 5 then WriteOne(s, tid, found, k)
        else At(s.(writer := None, log := s.log + [Commit(tid, job)]), tid, Exited)
      case Copying(found, k, user, seen, mark) =>
        if k < 5 then At(s, tid, Copying(found, k + 1, CopyOne(s.mem, found, k, user), seen, mark))
        else At(s, tid, Copying(found, 6, user.(valid := found.valid), seen, mark))
      case Exited => s
  }

  function Acquire(sp: Space, s: State, tid: nat): State
    requires tid in s.threads
  {
    var start := Walking(sp.root, LevelsOf(sp.d), []);
    if s.threads[tid].job.ResolveJob?
    then if s.writer.None? then At(s.(readers := s.readers + {tid}), tid, start) else s
    else if s.writer.None? && s.readers == {} then At(s.(writer := Some(tid)), tid, start) else s
  }

  function ReadEntry(s: State, tid: nat, table: nat, levels: Levels, acc: seq<Visit>): State
    requires tid in s.threads && levels.More?
  {
    var slot := table + 8 * Index(levels, s.threads[tid].job.address);
    var e := Read(s.mem, slot);
    var acc' := acc + [Visit(levels.level, table, slot, e)];
    if levels.rest.More? && KernelDescends(levels.level, e)
    then At(s, tid, Walking(Frame40(e) * 4096, levels.rest, acc')) else At(s, tid, Walked(acc'))
  }

  /** The two exits of `resolve_vm` under its own lock: each has its own unlock. */
  function Succeed(s: State, tid: nat, found: Vm): State
    requires tid in s.threads && s.threads[tid].job.ResolveJob?
  {
    var unlocked := s.(readers := s.readers - {tid});
    At(unlocked, tid, Copying(found, 0, Blank(s.threads[tid].job.pid, s.threads[tid].job.address), |s.log|, |s.writes|))
  }

  function ErrorOut(s: State, tid: nat, found: Vm): State
    requires tid in s.threads && s.threads[tid].job.ResolveJob?
  {
    var unlocked := s.(readers := s.readers - {tid});
    At(unlocked, tid, Copying(found, 0, Blank(s.threads[tid].job.pid, s.threads[tid].job.address), |s.log|, |s.writes|))
  }

  function WriteOne(s: State, tid: nat, found: Vm, k: nat): State
    requires tid in s.threads && s.threads[tid].job.UpdateJob?
  {
    var level := WriteOrder(k);
    var slot := found.At(level);
    var vm := s.threads[tid].job.vm;
    var written := if level in vm.valid && slot.Some? then [slot.value] else [];
    At(s.(mem := WriteAt(s.mem, slot, vm, level), writes := s.writes + written), tid, Writing(found, k + 1))
  }

  function CopyOne(m: Memory, found: Vm, k: nat, user: Entry): Entry {
    var level := CopyOrder(k);
    if found.At(level).Some? then user.Put(level, Read(m, found.At(level).value)) else user
  }

  /** A schedule says which request makes the next step. */
  function Run(sp: Space, s: State, schedule: seq<nat>): State
    decreases |schedule|
  {
    if schedule == [] then s else Run(sp, Do(sp, s, schedule[0]), schedule[1..])
  }

  // ---- The serial reference ------------------------------------------------------------------

  /** Updates one after the other, each atomic. */
  function Replay(sp: Space, m: Memory, log: seq<Commit>): Memory {
    if log == [] then m
    else
      var m' := Replay(sp, m, log[..|log| - 1]);
      var job := log[|log| - 1].job;
      if job.UpdateJob? then KernelWrite(m', ResolvedVm(sp.d, m', sp.root, job.address), job.vm) else m'
  }

  /** The first `k` writes of an update. */
  function WriteFirst(m: Memory, found: Vm, vm: Entry, k: nat): Memory {
    if k == 0 then m
    else WriteAt(WriteFirst(m, found, vm, k - 1), found.At(WriteOrder(k - 1)), vm, WriteOrder(k - 1))
  }

  lemma WriteFive(m: Memory, found: Vm, vm: Entry)
    ensures WriteFirst(m, found, vm, 5) == KernelWrite(m, found, vm)
  {
    assert WriteFirst(m, found, vm, 1) == WriteAt(m, found.pgd, vm, PGD);
    assert WriteFirst(m, found, vm, 2) == WriteAt(WriteFirst(m, found, vm, 1), found.p4d, vm, P4D);
    assert WriteFirst(m, found, vm, 3) == WriteAt(WriteFirst(m, found, vm, 2), found.pud, vm, PUD);
    assert WriteFirst(m, found, vm, 4) == WriteAt(WriteFirst(m, found, vm, 3), found.pmd, vm, PMD);
  }

  // ---- The invariant ---------------------------------------------------------------------------

  /** The request holds the lock it needs, and no other. */
  predicate LockFits(s: State, tid: nat)
    requires tid in s.threads
  {
    var t := s.threads[tid];
    var inside := t.pc.Walking? || t.pc.Walked? || t.pc.Writing?;
    && (tid in s.readers <==> inside && t.job.ResolveJob?)
    && (s.writer == Some(tid) <==> inside && t.job.UpdateJob?)
    && (t.pc.Writing? ==> t.job.UpdateJob?)
    && (t.pc.Copying? ==> t.job.ResolveJob?)
  }

  /** A copied or still uncopied level is as in the snapshot unless its slot was written since; a level
      without a pointer stays zero. */
  ghost predicate LevelFits(s: State, snapshot: Memory, pc: Pc, j: nat)
    requires pc.Copying? && pc.mark <= |s.writes|
  {
    match pc.found.At(CopyOrder(j))
    case None => pc.user.Get(CopyOrder(j)) == {}
    case Some(slot) =>
      || slot in s.writes[pc.mark..]
      || (Read(s.mem, slot) == Read(snapshot, slot)
          && (j < pc.k ==> pc.user.Get(CopyOrder(j)) == Read(snapshot, slot)))
  }

  ghost predicate CopyFits(sp: Space, init: Memory, s: State, job: Job, pc: Pc)
    requires pc.Copying?
  {
    && pc.seen <= |s.log| && pc.mark <= |s.writes| && pc.k <= 6 && (pc.k > 5 ==> pc.user.valid == pc.found.valid)
    && job.ResolveJob? && pc.user.pid == job.pid && pc.user.vaddr == job.address
    && pc.found == ResolvedVm(sp.d, Replay(sp, init, s.log[..pc.seen]), sp.root, job.address)
    && forall j :: 0 <= j < 5 ==> LevelFits(s, Replay(sp, init, s.log[..pc.seen]), pc, j)
  }

  /** What a request has computed so far. */
  ghost predicate WorkFits(sp: Space, init: Memory, s: State, t: Thread) {
    match t.pc
    case Ready => true
    case Walking(table, levels, acc) =>
      && levels.More?
      && acc + Path(KernelRules(), s.mem, table, t.job.address, levels)
         == KernelPath(sp.d, s.mem, sp.root, t.job.address)
    case Walked(acc) => acc == KernelPath(sp.d, s.mem, sp.root, t.job.address)
    case Writing(found, k) =>
      && t.job.UpdateJob? && k <= 5
      && found == ResolvedVm(sp.d, Replay(sp, init, s.log), sp.root, t.job.address)
      && s.mem == WriteFirst(Replay(sp, init, s.log), found, t.job.vm, k)
    case Copying(_, _, _, _, _) => CopyFits(sp, init, s, t.job, t.pc)
    case Exited => true
  }

  /** No table write is under way. */
  predicate Quiet(s: State) {
    s.writer.Some? && s.writer.value in s.threads ==> !s.threads[s.writer.value].pc.Writing?
  }

  ghost predicate Inv(sp: Space, init: Memory, s: State) {
    && (s.writer.Some? ==> s.readers == {} && s.writer.value in s.threads)
    && s.readers <= s.threads.Keys
    && (forall tid :: tid in s.threads ==> LockFits(s, tid))
    && (forall tid :: tid in s.threads ==> WorkFits(sp, init, s, s.threads[tid]))
    && (Quiet(s) ==> s.mem == Replay(sp, init, s.log))
  }

  /** All requests before their first step. */
  predicate Initial(init: Memory, s: State) {
    && s.mem == init && s.readers == {} && s.writer == None && s.log == [] && s.writes == []
    && forall tid :: tid in s.threads ==> s.threads[tid].pc == Ready
  }

  lemma InitialInv(sp: Space, init: Memory, s: State)
    requires Initial(init, s)
    ensures Inv(sp, init, s)
  {
  }

  // ---- Every step keeps the invariant --------------------------------------------------------------

  /** A step that leaves memory and history alone leaves the work of other requests alone. */
  lemma OthersKeep(sp: Space, init: Memory, s: State, s': State, tid: nat)
    requires Inv(sp, init, s) && tid in s.threads && s'.threads.Keys == s.threads.Keys
    requires s'.mem == s.mem && s'.log == s.log && s'.writes == s.writes
    requires forall other :: other in s.threads && other != tid ==> s'.threads[other] == s.threads[other]
    requires WorkFits(sp, init, s', s'.threads[tid])
    ensures forall other :: other in s'.threads ==> WorkFits(sp, init, s', s'.threads[other])
  {
    forall other | other in s'.threads
      ensures WorkFits(sp, init, s', s'.threads[other])
    {
      assert WorkFits(sp, init, s, s.threads[other]);
      if other != tid && s.threads[other].pc.Copying? {
        CopySame(sp, init, s, s', s.threads[other].job, s.threads[other].pc);
      }
    }
  }

  lemma CopySame(sp: Space, init: Memory, s: State, s': State, job: Job, pc: Pc)
    requires pc.Copying? && CopyFits(sp, init, s, job, pc)
    requires s'.mem == s.mem && s'.log == s.log && s'.writes == s.writes
    ensures CopyFits(sp, init, s', job, pc)
  {
    forall j | 0 <= j < 5
      ensures LevelFits(s', Replay(sp, init, s'.log[..pc.seen]), pc, j)
    {
      assert LevelFits(s, Replay(sp, init, s.log[..pc.seen]), pc, j);
    }
  }

  lemma AcquireKeeps(sp: Space, init: Memory, s: State, tid: nat)
    requires Inv(sp, init, s) && tid in s.threads && s.threads[tid].pc == Ready
    ensures Inv(sp, init, Do(sp, s, tid))
  {
    var s' := Do(sp, s, tid);
    if s' != s {
      assert LockFits(s, tid);
      var t := s'.threads[tid];
      assert [] + Path(KernelRules(), s'.mem, sp.root, t.job.address, LevelsOf(sp.d)) ==
        KernelPath(sp.d, s'.mem, sp.root, t.job.address);
      OthersKeep(sp, init, s, s', tid);
      forall other | other in s'.threads
        ensures LockFits(s', other)
      {
        assert LockFits(s, other);
      }
    }
  }

  lemma ReadKeeps(sp: Space, init: Memory, s: State, tid: nat)
    requires Inv(sp, init, s) && tid in s.threads && s.threads[tid].pc.Walking?
    ensures Inv(sp, init, Do(sp, s, tid))
  {
    var t := s.threads[tid];
    var s' := Do(sp, s, tid);
    assert WorkFits(sp, init, s, t) && LockFits(s, tid);
    ReadWork(sp, init, s, tid);
    OthersKeep(sp, init, s, s', tid);
    forall other | other in s'.threads
      ensures LockFits(s', other)
    {
      assert LockFits(s, other);
    }
  }

  lemma AppendFirst(acc: seq<Visit>, p: seq<Visit>)
    requires p != []
    ensures acc + p == (acc + [p[0]]) + p[1..]
    ensures p[1..] == [] ==> acc + p == acc + [p[0]]
  {
  }

  /** The walk of a request after it reads one more entry. */
  lemma WalkStep(m: Memory, table: nat, a: nat, levels: Levels, acc: seq<Visit>)
    requires levels.More?
    ensures var slot := table + 8 * Index(levels, a);
            var e := Read(m, slot);
            acc + Path(KernelRules(), m, table, a, levels) ==
            acc + [Visit(levels.level, table, slot, e)] +
            if levels.rest.More? && KernelDescends(levels.level, e)
            then Path(KernelRules(), m, Frame40(e) * 4096, a, levels.rest) else []
  {
    PathStep(KernelRules(), m, table, a, levels);
    AppendFirst(acc, Path(KernelRules(), m, table, a, levels));
  }

  lemma ReadWork(sp: Space, init: Memory, s: State, tid: nat)
    requires tid in s.threads && s.threads[tid].pc.Walking? && WorkFits(sp, init, s, s.threads[tid])
    ensures tid in Do(sp, s, tid).threads && WorkFits(sp, init, Do(sp, s, tid), Do(sp, s, tid).threads[tid])
  {
    var t := s.threads[tid];
    var pc := t.pc;
    WalkStep(s.mem, pc.table, t.job.address, pc.levels, pc.acc);
    var s' := ReadEntry(s, tid, pc.table, pc.levels, pc.acc);
    var whole := KernelPath(sp.d, s.mem, sp.root, t.job.address);
    assert Do(sp, s, tid) == s' && s'.mem == s.mem && s'.threads[tid].job == t.job;
    var pc' := s'.threads[tid].pc;
    if pc'.Walking? {
      assert pc'.acc + Path(KernelRules(), s.mem, pc'.table, t.job.address, pc'.levels) == whole;
    } else {
      assert pc'.Walked? && pc'.acc == whole;
    }
  }

  lemma WalkedKeeps(sp: Space, init: Memory, s: State, tid: nat)
    requires Inv(sp, init, s) && tid in s.threads && s.threads[tid].pc.Walked?
    ensures Inv(sp, init, Do(sp, s, tid))
  {
    assert LockFits(s, tid) && WorkFits(sp, init, s, s.threads[tid]) && Quiet(s);
    if s.threads[tid].job.ResolveJob? {
      LeaveKeeps(sp, init, s, tid, KeepAll(NO_VM, s.threads[tid].pc.acc), Do(sp, s, tid));
    } else {
      BeginKeeps(sp, init, s, tid);
    }
  }

  /** A resolve releases its lock, at whichever exit. */
  lemma LeaveKeeps(sp: Space, init: Memory, s: State, tid: nat, found: Vm, s': State)
    requires Inv(sp, init, s) && tid in s.threads && s.threads[tid].pc.Walked? && s.threads[tid].job.ResolveJob?
    requires Quiet(s) && found == ResolvedVm(sp.d, s.mem, sp.root, s.threads[tid].job.address)
    requires s' == Succeed(s, tid, found) || s' == ErrorOut(s, tid, found)
    ensures Inv(sp, init, s')
  {
    SnapshotFits(sp, init, s', s.threads[tid].job, s'.threads[tid].pc);
    OthersKeep(sp, init, s, s', tid);
    OthersLockFits(s, s', tid);
  }

  /** An update goes on to write, with its lock. */
  lemma BeginKeeps(sp: Space, init: Memory, s: State, tid: nat)
    requires Inv(sp, init, s) && tid in s.threads && s.threads[tid].pc.Walked? && s.threads[tid].job.UpdateJob?
    ensures Inv(sp, init, Do(sp, s, tid))
  {
    var s' := Do(sp, s, tid);
    assert LockFits(s, tid) && WorkFits(sp, init, s, s.threads[tid]) && Quiet(s);
    OthersKeep(sp, init, s, s', tid);
    OthersLockFits(s, s', tid);
  }

  /** Other requests hold what they held. */
  lemma OthersLockFits(s: State, s': State, tid: nat)
    requires tid in s.threads && s'.threads.Keys == s.threads.Keys && forall t :: t in s.threads ==> LockFits(s, t)
    requires forall other :: other in s.threads && other != tid ==>
               && s'.threads[other] == s.threads[other]
               && (other in s'.readers <==> other in s.readers)
               && (s'.writer == Some(other) <==> s.writer == Some(other))
    requires LockFits(s', tid)
    ensures forall t :: t in s'.threads ==> LockFits(s', t)
  {
    forall t | t in s'.threads
      ensures LockFits(s', t)
    {
      assert LockFits(s, t);
    }
  }

  lemma SnapshotFits(sp: Space, init: Memory, s: State, job: Job, pc: Pc)
    requires pc.Copying? && pc.k == 0 && pc.seen == |s.log| && pc.mark == |s.writes|
    requires job.ResolveJob? && pc.user == Blank(job.pid, job.address)
    requires s.mem == Replay(sp, init, s.log) && pc.found == ResolvedVm(sp.d, s.mem, sp.root, job.address)
    ensures CopyFits(sp, init, s, job, pc)
  {
    assert s.log[..|s.log|] == s.log;
  }

  /** While an update writes, no other request is inside the lock. */
  lemma WriterIsAlone(sp: Space, init: Memory, s: State, tid: nat, other: nat)
    requires Inv(sp, init, s) && tid in s.threads && s.threads[tid].pc.Writing? && other in s.threads && other != tid
    ensures s.writer == Some(tid) && s.readers == {}
    ensures var pc := s.threads[other].pc; pc == Ready || pc == Exited || pc.Copying?
  {
    assert LockFits(s, tid) && LockFits(s, other) && WorkFits(sp, init, s, s.threads[tid]);
  }

  lemma CopySurvivesWrite(sp: Space, init: Memory, s: State, s': State, slot: Option<nat>, vm: Entry,
                          level: Level, job: Job, pc: Pc)
    requires pc.Copying? && CopyFits(sp, init, s, job, pc)
    requires s'.mem == WriteAt(s.mem, slot, vm, level) && s'.log == s.log
    requires s'.writes == s.writes + if level in vm.valid && slot.Some? then [slot.value] else []
    ensures CopyFits(sp, init, s', job, pc)
  {
    forall j | 0 <= j < 5
      ensures LevelFits(s', Replay(sp, init, s'.log[..pc.seen]), pc, j)
    {
      assert LevelFits(s, Replay(sp, init, s.log[..pc.seen]), pc, j);
      assert s'.writes[pc.mark..] == s.writes[pc.mark..] + if level in vm.valid && slot.Some? then [slot.value] else [];
    }
  }

  lemma WriteKeeps(sp: Space, init: Memory, s: State, tid: nat)
    requires Inv(sp, init, s) && tid in s.threads && s.threads[tid].pc.Writing? && s.threads[tid].pc.k < 5
    ensures Inv(sp, init, Do(sp, s, tid))
  {
    var t := s.threads[tid];
    assert WorkFits(sp, init, s, t) && LockFits(s, tid);
    var s' := WriteOne(s, tid, t.pc.found, t.pc.k);
    var level := WriteOrder(t.pc.k);
    forall other | other in s'.threads
      ensures LockFits(s', other) && WorkFits(sp, init, s', s'.threads[other])
    {
      assert LockFits(s, other) && WorkFits(sp, init, s, s.threads[other]);
      if other != tid {
        WriterIsAlone(sp, init, s, tid, other);
        if s.threads[other].pc.Copying? {
          CopySurvivesWrite(sp, init, s, s', t.pc.found.At(level), t.job.vm, level,
                            s.threads[other].job, s.threads[other].pc);
        }
      }
    }
  }

  lemma CopySurvivesFinish(sp: Space, init: Memory, s: State, s': State, job: Job, pc: Pc, last: Commit)
    requires pc.Copying? && CopyFits(sp, init, s, job, pc)
    requires s'.mem == s.mem && s'.log == s.log + [last] && s'.writes == s.writes
    ensures CopyFits(sp, init, s', job, pc)
  {
    assert s'.log[..pc.seen] == s.log[..pc.seen];
    forall j | 0 <= j < 5
      ensures LevelFits(s', Replay(sp, init, s'.log[..pc.seen]), pc, j)
    {
      assert LevelFits(s, Replay(sp, init, s.log[..pc.seen]), pc, j);
    }
  }

  lemma FinishKeeps(sp: Space, init: Memory, s: State, tid: nat)
    requires Inv(sp, init, s) && tid in s.threads && s.threads[tid].pc.Writing? && s.threads[tid].pc.k >= 5
    ensures Inv(sp, init, Do(sp, s, tid))
  {
    var t := s.threads[tid];
    assert WorkFits(sp, init, s, t) && LockFits(s, tid);
    var s' := Do(sp, s, tid);
    assert s'.log[..|s'.log| - 1] == s.log;
    WriteFive(Replay(sp, init, s.log), t.pc.found, t.job.vm);
    forall other | other in s'.threads
      ensures LockFits(s', other) && WorkFits(sp, init, s', s'.threads[other])
    {
      assert LockFits(s, other) && WorkFits(sp, init, s, s.threads[other]);
      if other != tid {
        WriterIsAlone(sp, init, s, tid, other);
        if s.threads[other].pc.Copying? {
          CopySurvivesFinish(sp, init, s, s', s.threads[other].job, s.threads[other].pc,
                             Commit(tid, t.job));
        }
      }
    }
  }

  lemma CopyOneFits(sp: Space, init: Memory, s: State, job: Job, pc: Pc)
    requires pc.Copying? && pc.k < 5 && CopyFits(sp, init, s, job, pc)
    ensures CopyFits(sp, init, s, job, pc.(k := pc.k + 1, user := CopyOne(s.mem, pc.found, pc.k, pc.user)))
  {
    var pc' := pc.(k := pc.k + 1, user := CopyOne(s.mem, pc.found, pc.k, pc.user));
    forall j | 0 <= j < 5
      ensures LevelFits(s, Replay(sp, init, s.log[..pc.seen]), pc', j)
    {
      assert LevelFits(s, Replay(sp, init, s.log[..pc.seen]), pc, j);
    }
  }

  /** The next state of a request that copies. */
  function NextCopy(m: Memory, pc: Pc): Pc
    requires pc.Copying?
  {
    if pc.k < 5 then pc.(k := pc.k + 1, user := CopyOne(m, pc.found, pc.k, pc.user))
    else pc.(k := 6, user := pc.user.(valid := pc.found.valid))
  }

  lemma CopyKeeps(sp: Space, init: Memory, s: State, tid: nat)
    requires Inv(sp, init, s) && tid in s.threads && s.threads[tid].pc.Copying?
    ensures Inv(sp, init, Do(sp, s, tid))
  {
    var t := s.threads[tid];
    var next := NextCopy(s.mem, t.pc);
    var s' := At(s, tid, next);
    assert Do(sp, s, tid) == s';
    assert WorkFits(sp, init, s, t) && LockFits(s, tid);
    NextCopyFits(sp, init, s, t.job, t.pc);
    CopySame(sp, init, s, s', t.job, next);
    OthersKeep(sp, init, s, s', tid);
    forall other | other in s'.threads
      ensures LockFits(s', other)
    {
      assert LockFits(s, other);
    }
  }

  lemma NextCopyFits(sp: Space, init: Memory, s: State, job: Job, pc: Pc)
    requires pc.Copying? && CopyFits(sp, init, s, job, pc)
    ensures CopyFits(sp, init, s, job, NextCopy(s.mem, pc))
  {
    if pc.k < 5 {
      CopyOneFits(sp, init, s, job, pc);
    } else {
      CopyValidFits(sp, init, s, job, pc);
    }
  }

  lemma CopyValidFits(sp: Space, init: Memory, s: State, job: Job, pc: Pc)
    requires pc.Copying? && pc.k >= 5 && CopyFits(sp, init, s, job, pc)
    ensures CopyFits(sp, init, s, job, pc.(k := 6, user := pc.user.(valid := pc.found.valid)))
  {
    var pc' := pc.(k := 6, user := pc.user.(valid := pc.found.valid));
    forall j | 0 <= j < 5
      ensures LevelFits(s, Replay(sp, init, s.log[..pc.seen]), pc', j)
    {
      assert LevelFits(s, Replay(sp, init, s.log[..pc.seen]), pc, j);
    }
  }

  lemma StepKeeps(sp: Space, init: Memory, s: State, tid: nat)
    requires Inv(sp, init, s)
    ensures Inv(sp, init, Do(sp, s, tid))
  {
    if tid in s.threads {
      match s.threads[tid].pc
      case Ready => AcquireKeeps(sp, init, s, tid);
      case Walking(_, _, _) => ReadKeeps(sp, init, s, tid);
      case Walked(_) => WalkedKeeps(sp, init, s, tid);
      case Writing(_, k) => if k < 5 { WriteKeeps(sp, init, s, tid); } else { FinishKeeps(sp, init, s, tid); }
      case Copying(_, _, _, _, _) => CopyKeeps(sp, init, s, tid);
      case Exited =>
    }
  }

  lemma {:induction false} RunKeeps(sp: Space, init: Memory, s: State, schedule: seq<nat>)
    requires Inv(sp, init, s)
    ensures Inv(sp, init, Run(sp, s, schedule))
    decreases |schedule|
  {
    if schedule != [] {
      StepKeeps(sp, init, s, schedule[0]);
      RunKeeps(sp, init, Do(sp, s, schedule[0]), schedule[1..]);
    }
  }

  // ---- What every schedule guarantees ----------------------------------------------------------------

  /** No request walks the tables while another one writes them, and a request that has left the
      lock, on whatever path, holds nothing. */
  lemma MutualExclusion(sp: Space, init: Memory, s: State, schedule: seq<nat>, one: nat, other: nat)
    requires Initial(init, s)
    requires var s' := Run(sp, s, schedule); one in s'.threads && other in s'.threads && one != other
    ensures var s' := Run(sp, s, schedule);
            && !(s'.threads[one].pc.Writing? &&
              (s'.threads[other].pc.Walking? || s'.threads[other].pc.Walked? || s'.threads[other].pc.Writing?))
            && (s'.threads[one].pc.Exited? || s'.threads[one].pc.Copying? || s'.threads[one].pc.Ready?
                ==> one !in s'.readers && s'.writer != Some(one))
  {
    InitialInv(sp, init, s);
    RunKeeps(sp, init, s, schedule);
    var s' := Run(sp, s, schedule);
    assert LockFits(s', one) && LockFits(s', other);
  }

  /** Whenever no update is writing, memory is what the finished updates leave when they run one
      after the other, each atomically, in the order of their unlocks. */
  lemma UpdatesAreSerial(sp: Space, init: Memory, s: State, schedule: seq<nat>)
    requires Initial(init, s) && Quiet(Run(sp, s, schedule))
    ensures Run(sp, s, schedule).mem == Replay(sp, init, Run(sp, s, schedule).log)
  {
    InitialInv(sp, init, s);
    RunKeeps(sp, init, s, schedule);
  }

  /** A resolve walks a snapshot: the pointers it copies from are those of an atomic resolve after
      some prefix of the finished updates. The copied word of a level is the word of that snapshot
      unless an update wrote its slot after the unlock. */
  lemma ResolveIsSnapshot(sp: Space, init: Memory, s: State, schedule: seq<nat>, tid: nat, j: nat)
    requires Initial(init, s) && j < 5
    requires var s' := Run(sp, s, schedule);
             tid in s'.threads && s'.threads[tid].pc.Copying? && j < s'.threads[tid].pc.k
    ensures var s' := Run(sp, s, schedule);
            var pc := s'.threads[tid].pc;
            && pc.seen <= |s'.log| && pc.mark <= |s'.writes|
            && var snapshot := Replay(sp, init, s'.log[..pc.seen]);
               && pc.found == ResolvedVm(sp.d, snapshot, sp.root, s'.threads[tid].job.address)
               && (pc.k > 5 ==> pc.user.valid == pc.found.valid)
               && (pc.found.At(CopyOrder(j)).Some? && pc.found.At(CopyOrder(j)).value !in s'.writes[pc.mark..] ==>
                     pc.user.Get(CopyOrder(j)) == Read(snapshot, pc.found.At(CopyOrder(j)).value))
  {
    InitialInv(sp, init, s);
    RunKeeps(sp, init, s, schedule);
    var s' := Run(sp, s, schedule);
    var pc := s'.threads[tid].pc;
    assert WorkFits(sp, init, s', s'.threads[tid]);
    assert LevelFits(s', Replay(sp, init, s'.log[..pc.seen]), pc, j);
  }

  // ---- What becomes of every request ---------------------------------------------------------------

  predicate Finished(t: Thread) {
    t.pc.Exited? || (t.pc.Copying? && t.pc.k > 5)
  }

  predicate AllFinished(s: State) {
    forall tid :: tid in s.threads ==> Finished(s.threads[tid])
  }

  /** The requests are the same, wherever they stand. */
  predicate SameRequests(s: State, s': State) {
    s'.threads.Keys == s.threads.Keys && forall tid :: tid in s.threads ==> s'.threads[tid].job == s.threads[tid].job
  }

  ghost predicate NoRepeats(log: seq<Commit>) {
    forall i, j :: 0 <= i < j < |log| ==> log[i].tid != log[j].tid
  }

  predicate Logged(s: State, c: Commit) {
    c.tid in s.threads && c.job == s.threads[c.tid].job && c.job.UpdateJob? && s.threads[c.tid].pc.Exited?
  }

  /** The log has every request that has exited, once, and each of them is an update. */
  ghost predicate Listed(s: State) {
    && NoRepeats(s.log)
    && (forall c: Commit :: c in s.log <==> Logged(s, c))
    && forall tid :: tid in s.threads && s.threads[tid].pc.Exited? ==> s.threads[tid].job.UpdateJob?
  }

  /** The step with which an update finishes. */
  predicate Finishes(s: State, tid: nat) {
    tid in s.threads && s.threads[tid].job.UpdateJob? && s.threads[tid].pc.Writing? && s.threads[tid].pc.k >= 5
  }

  lemma StepLogs(sp: Space, s: State, tid: nat)
    requires tid in s.threads
    ensures var s' := Do(sp, s, tid);
            && tid in s'.threads && s'.threads[tid].job == s.threads[tid].job
            && s'.threads == s.threads[tid := s'.threads[tid]]
            && (Finishes(s, tid) ==> s'.log == s.log + [Commit(tid, s.threads[tid].job)] && s'.threads[tid].pc.Exited?)
            && (!Finishes(s, tid) ==> s'.log == s.log && s'.threads[tid].pc.Exited? == s.threads[tid].pc.Exited?)
  {
  }

  lemma CommitLists(s: State, s': State, tid: nat)
    requires Listed(s) && Finishes(s, tid) && tid in s'.threads
    requires s'.threads == s.threads[tid := Thread(s.threads[tid].job, Exited)]
    requires s'.log == s.log + [Commit(tid, s.threads[tid].job)]
    ensures Listed(s')
  {
    forall i | 0 <= i < |s.log|
      ensures s.log[i].tid != tid
    {
      assert s.log[i] in s.log;
    }
    forall c: Commit
      ensures c in s'.log <==> Logged(s', c)
    {
      assert c in s.log <==> Logged(s, c);
    }
  }

  lemma OtherLists(s: State, s': State, tid: nat)
    requires Listed(s) && tid in s.threads && tid in s'.threads && s'.threads == s.threads[tid := s'.threads[tid]]
    requires s'.threads[tid].job == s.threads[tid].job && s'.threads[tid].pc.Exited? == s.threads[tid].pc.Exited?
    requires s'.log == s.log
    ensures Listed(s')
  {
    forall c: Commit
      ensures c in s'.log <==> Logged(s', c)
    {
      assert c in s.log <==> Logged(s, c);
    }
  }

  lemma StepLists(sp: Space, s: State, tid: nat)
    requires Listed(s)
    ensures Listed(Do(sp, s, tid)) && SameRequests(s, Do(sp, s, tid)) && s.log <= Do(sp, s, tid).log
  {
    if tid in s.threads {
      StepLogs(sp, s, tid);
      if Finishes(s, tid) {
        CommitLists(s, Do(sp, s, tid), tid);
      } else {
        OtherLists(s, Do(sp, s, tid), tid);
      }
    }
  }

  lemma {:induction false} RunLists(sp: Space, s: State, schedule: seq<nat>)
    requires Listed(s)
    ensures Listed(Run(sp, s, schedule)) && SameRequests(s, Run(sp, s, schedule)) && s.log <= Run(sp, s, schedule).log
    decreases |schedule|
  {
    if schedule != [] {
      StepLists(sp, s, schedule[0]);
      RunLists(sp, Do(sp, s, schedule[0]), schedule[1..]);
    }
  }

  /** Under every schedule the log has exactly the update requests that have exited, each of them once, and
      a resolve request never exits without a result. */
  lemma ExitedUpdatesAreLogged(sp: Space, init: Memory, s: State, schedule: seq<nat>, tid: nat)
    requires Initial(init, s) && tid in s.threads
    ensures var s' := Run(sp, s, schedule);
            && NoRepeats(s'.log) && tid in s'.threads && s'.threads[tid].job == s.threads[tid].job
            && (Commit(tid, s.threads[tid].job) in s'.log <==> s'.threads[tid].pc.Exited?)
            && (s'.threads[tid].pc.Exited? ==> s.threads[tid].job.UpdateJob?)
  {
    RunLists(sp, s, schedule);
  }

  /** Once all requests have finished, memory is what all update requests leave, each of them once and
      atomically, in some order. */
  lemma EveryUpdateTakesEffect(sp: Space, init: Memory, s: State, schedule: seq<nat>)
    requires Initial(init, s) && AllFinished(Run(sp, s, schedule))
    ensures var log := Run(sp, s, schedule).log;
            && NoRepeats(log)
            && (forall c: Commit :: c in log <==>
                  c.tid in s.threads && c.job == s.threads[c.tid].job && c.job.UpdateJob?)
            && Run(sp, s, schedule).mem == Replay(sp, init, log)
  {
    var s' := Run(sp, s, schedule);
    RunLists(sp, s, schedule);
    InitialInv(sp, init, s);
    RunKeeps(sp, init, s, schedule);
    forall tid | tid in s'.threads && s'.threads[tid].job.UpdateJob?
      ensures s'.threads[tid].pc.Exited?
    {
      assert LockFits(s', tid) && Finished(s'.threads[tid]);
    }
  }

  /** A resolve that no write has disturbed since its unlock returns what an atomic resolve returns after
      some prefix of the finished updates. */
  lemma UndisturbedResolve(sp: Space, init: Memory, s: State, schedule: seq<nat>, tid: nat)
    requires Initial(init, s)
    requires var s' := Run(sp, s, schedule);
             tid in s'.threads && s'.threads[tid].job.ResolveJob? && Finished(s'.threads[tid])
    ensures var s' := Run(sp, s, schedule);
            var job, pc := s'.threads[tid].job, s'.threads[tid].pc;
            && pc.Copying? && pc.k == 6 && pc.seen <= |s'.log| && pc.mark <= |s'.writes|
            && ((forall l :: pc.found.At(l).Some? ==> pc.found.At(l).value !in s'.writes[pc.mark..]) ==>
                  pc.user == KernelResolved(sp.d, Replay(sp, init, s'.log[..pc.seen]), sp.root, job.pid, job.address))
  {
    InitialInv(sp, init, s);
    RunKeeps(sp, init, s, schedule);
    RunLists(sp, s, schedule);
    var s' := Run(sp, s, schedule);
    var pc := s'.threads[tid].pc;
    assert LockFits(s', tid) && WorkFits(sp, init, s', s'.threads[tid]);
    assert pc.Copying?;
    if forall l :: pc.found.At(l).Some? ==> pc.found.At(l).value !in s'.writes[pc.mark..] {
      CopiedAll(s', Replay(sp, init, s'.log[..pc.seen]), pc);
    }
  }

  lemma CopiedAll(s: State, snapshot: Memory, pc: Pc)
    requires pc.Copying? && pc.k == 6 && pc.mark <= |s.writes| && pc.user.valid == pc.found.valid
    requires forall j :: 0 <= j < 5 ==> LevelFits(s, snapshot, pc, j)
    requires forall l :: pc.found.At(l).Some? ==> pc.found.At(l).value !in s.writes[pc.mark..]
    ensures pc.user == ToUser(snapshot, pc.found, Blank(pc.user.pid, pc.user.vaddr))
  {
    assert LevelFits(s, snapshot, pc, 0) && CopyOrder(0) == P4D;
    assert LevelFits(s, snapshot, pc, 1) && CopyOrder(1) == PGD;
    assert LevelFits(s, snapshot, pc, 2) && CopyOrder(2) == PMD;
    assert LevelFits(s, snapshot, pc, 3) && CopyOrder(3) == PUD;
    assert LevelFits(s, snapshot, pc, 4) && CopyOrder(4) == PTE;
    assert pc.found.At(P4D) == pc.found.p4d && pc.found.At(PGD) == pc.found.pgd && pc.found.At(PMD) == pc.found.pmd;
    assert pc.found.At(PUD) == pc.found.pud && pc.found.At(PTE) == pc.found.pte;
  }

  /** The first `k` copies of a resolve. */
  function CopyFirst(m: Memory, found: Vm, user: Entry, k: nat): Entry {
    if k == 0 then user else CopyOne(m, found, k - 1, CopyFirst(m, found, user, k - 1))
  }

  lemma CopiedLevel(m: Memory, found: Vm, user: Entry, k: nat, level: Level)
    requires k < 5 && level == CopyOrder(k)
    ensures var next := CopyOne(m, found, k, user);
            && next.valid == user.valid && next.pid == user.pid && next.vaddr == user.vaddr
            && forall l :: next.Get(l) ==
                 if l == level && found.At(l).Some? then Read(m, found.At(l).value) else user.Get(l)
  {
  }

  /** The five copies and the valid mask are `vm_to_user`, if nothing is written meanwhile. */
  lemma CopyFive(m: Memory, found: Vm, user: Entry)
    ensures CopyFirst(m, found, user, 5).(valid := found.valid) == ToUser(m, found, user)
  {
    var u1 := CopyOne(m, found, 0, user);
    var u2 := CopyOne(m, found, 1, u1);
    var u3 := CopyOne(m, found, 2, u2);
    var u4 := CopyOne(m, found, 3, u3);
    var u5 := CopyOne(m, found, 4, u4);
    CopiedLevel(m, found, user, 0, P4D);
    CopiedLevel(m, found, u1, 1, PGD);
    CopiedLevel(m, found, u2, 2, PMD);
    CopiedLevel(m, found, u3, 3, PUD);
    CopiedLevel(m, found, u4, 4, PTE);
    SameEntries(u5.(valid := found.valid), ToUser(m, found, user));
    assert CopyFirst(m, found, user, 1) == u1;
    assert CopyFirst(m, found, user, 2) == u2;
    assert CopyFirst(m, found, user, 3) == u3;
    assert CopyFirst(m, found, user, 4) == u4;
  }

  lemma SameEntries(e: Entry, f: Entry)
    requires e.pid == f.pid && e.vaddr == f.vaddr && e.valid == f.valid
    requires e.Get(PGD) == f.Get(PGD) && e.Get(P4D) == f.Get(P4D) && e.Get(PUD) == f.Get(PUD)
    requires e.Get(PMD) == f.Get(PMD) && e.Get(PTE) == f.Get(PTE)
    ensures e == f
  {
  }

  /** Where a request was before its first step, and how many updates had finished then. */
  predicate StartedAfter(s: State, tid: nat, n: nat) {
    tid in s.threads && n <= |s.log| && (s.threads[tid].pc.Copying? ==> n <= s.threads[tid].pc.seen)
  }

  lemma {:induction false} RunStartedAfter(sp: Space, s: State, schedule: seq<nat>, tid: nat, n: nat)
    requires StartedAfter(s, tid, n)
    ensures StartedAfter(Run(sp, s, schedule), tid, n)
    decreases |schedule|
  {
    if schedule != [] {
      RunStartedAfter(sp, Do(sp, s, schedule[0]), schedule[1..], tid, n);
    }
  }

  lemma {:induction false} RunConcat(sp: Space, s: State, before: seq<nat>, after: seq<nat>)
    ensures Run(sp, s, before + after) == Run(sp, Run(sp, s, before), after)
    decreases |before|
  {
    if before == [] {
      assert before + after == after;
    } else {
      assert (before + after)[1..] == before[1..] + after;
      RunConcat(sp, Do(sp, s, before[0]), before[1..], after);
    }
  }

  /** A snapshot is taken after updates that have finished. */
  lemma SeenIsLogged(sp: Space, init: Memory, s: State, schedule: seq<nat>, tid: nat)
    requires Initial(init, s) && tid in Run(sp, s, schedule).threads && Run(sp, s, schedule).threads[tid].pc.Copying?
    ensures Run(sp, s, schedule).threads[tid].pc.seen <= |Run(sp, s, schedule).log|
  {
    InitialInv(sp, init, s);
    RunKeeps(sp, init, s, schedule);
    assert WorkFits(sp, init, Run(sp, s, schedule), Run(sp, s, schedule).threads[tid]);
  }

  /** The order is that of real time: a resolve that starts when some updates have finished returns a
      snapshot that has them all, and later updates are logged after them. */
  lemma ResolveSeesFinished(sp: Space, init: Memory, s: State, before: seq<nat>, after: seq<nat>, tid: nat)
    requires Initial(init, s) && tid in Run(sp, s, before).threads && Run(sp, s, before).threads[tid].pc == Ready
    ensures var s', s'' := Run(sp, s, before), Run(sp, s, before + after);
            && tid in s''.threads && s'.log <= s''.log
            && (s''.threads[tid].pc.Copying? ==>
                  s''.threads[tid].pc.seen <= |s''.log| && s'.log <= s''.log[..s''.threads[tid].pc.seen])
  {
    var s' := Run(sp, s, before);
    RunConcat(sp, s, before, after);
    RunLists(sp, s, before);
    RunLists(sp, s', after);
    RunStartedAfter(sp, s', after, tid, |s'.log|);
    if Run(sp, s, before + after).threads[tid].pc.Copying? {
      SeenIsLogged(sp, init, s, before + after, tid);
    }
  }

  // ---- No deadlock, and every request can finish --------------------------------------------------

  /** A request that has its lock, or is past it, can always make its next step. */
  lemma InsideSteps(sp: Space, init: Memory, s: State, tid: nat)
    requires Inv(sp, init, s) && tid in s.threads && s.threads[tid].pc != Ready && !Finished(s.threads[tid])
    ensures Do(sp, s, tid) != s
  {
    assert LockFits(s, tid) && WorkFits(sp, init, s, s.threads[tid]);
    assert tid in Do(sp, s, tid).threads && Do(sp, s, tid).threads[tid].pc != s.threads[tid].pc;
  }

  /** While some request is unfinished, some request can make a step. */
  lemma SomeStep(sp: Space, init: Memory, s: State, tid: nat) returns (next: nat)
    requires Inv(sp, init, s) && tid in s.threads && !Finished(s.threads[tid])
    ensures next in s.threads && Do(sp, s, next) != s
  {
    next := tid;
    if s.threads[tid].pc == Ready {
      if s.writer.Some? {
        next := s.writer.value;
        assert LockFits(s, next);
      } else if s.readers != {} {
        next :| next in s.readers;
        assert LockFits(s, next);
      } else {
        assert Do(sp, s, tid).threads[tid].pc.Walking?;
        return;
      }
    }
    InsideSteps(sp, init, s, next);
  }

  /** In every reachable state with an unfinished request some request can make a step. */
  lemma NoDeadlock(sp: Space, init: Memory, s: State, schedule: seq<nat>, tid: nat)
    requires Initial(init, s)
    requires var s' := Run(sp, s, schedule); tid in s'.threads && !Finished(s'.threads[tid])
    ensures var s' := Run(sp, s, schedule); exists next :: next in s'.threads && Do(sp, s', next) != s'
  {
    InitialInv(sp, init, s);
    RunKeeps(sp, init, s, schedule);
    var next := SomeStep(sp, init, Run(sp, s, schedule), tid);
  }

  function Depth(levels: Levels): nat {
    if levels.Done? then 0 else 1 + Depth(levels.rest)
  }

  /** A bound on the steps a request still has to make. */
  function Rank(sp: Space, pc: Pc): nat {
    match pc
    case Ready => 14 + Depth(LevelsOf(sp.d))
    case Walking(_, levels, _) => 13 + Depth(levels)
    case Walked(_) => 13
    case Writing(_, k) => if k < 6 then 7 - k else 1
    case Copying(_, k, _, _, _) => if k < 6 then 6 - k else 0
    case Exited => 0
  }

  /** A step leaves the other requests where they are. */
  lemma OwnStep(sp: Space, s: State, tid: nat)
    requires tid in s.threads
    ensures tid in Do(sp, s, tid).threads && Do(sp, s, tid).threads == s.threads[tid := Do(sp, s, tid).threads[tid]]
  {
  }

  /** A request that is at another place with a smaller bound. */
  predicate Closer(sp: Space, s: State, s': State, tid: nat)
    requires tid in s.threads
  {
    tid in s'.threads && Rank(sp, s'.threads[tid].pc) < Rank(sp, s.threads[tid].pc)
  }

  lemma ReadProgress(sp: Space, s: State, tid: nat, table: nat, levels: Levels, acc: seq<Visit>)
    requires tid in s.threads && levels.More? && s.threads[tid].pc == Walking(table, levels, acc)
    ensures Closer(sp, s, ReadEntry(s, tid, table, levels, acc), tid)
  {
    assert Depth(levels) == 1 + Depth(levels.rest);
  }

  lemma AcquireProgress(sp: Space, s: State, tid: nat)
    requires tid in s.threads && s.threads[tid].pc == Ready
    ensures Acquire(sp, s, tid) == s || Closer(sp, s, Acquire(sp, s, tid), tid)
  {
  }

  lemma CopyProgress(sp: Space, init: Memory, s: State, tid: nat)
    requires tid in s.threads && s.threads[tid].pc.Copying?
    requires CopyFits(sp, init, s, s.threads[tid].job, s.threads[tid].pc)
    ensures Do(sp, s, tid) == s || Closer(sp, s, Do(sp, s, tid), tid)
  {
    if s.threads[tid].pc.k == 6 {
      assert s.threads[tid := s.threads[tid]] == s.threads;
    }
  }

  lemma WriteProgress(sp: Space, s: State, tid: nat)
    requires tid in s.threads && s.threads[tid].pc.Writing? && s.threads[tid].job.UpdateJob?
    ensures Closer(sp, s, Do(sp, s, tid), tid)
  {
  }

  lemma WalkedProgress(sp: Space, s: State, tid: nat)
    requires tid in s.threads && s.threads[tid].pc.Walked?
    ensures Closer(sp, s, Do(sp, s, tid), tid)
  {
  }

  /** Every step that is made brings its request closer to the end. */
  lemma StepProgress(sp: Space, init: Memory, s: State, tid: nat)
    requires Inv(sp, init, s) && tid in s.threads
    ensures Do(sp, s, tid) == s || Closer(sp, s, Do(sp, s, tid), tid)
  {
    assert LockFits(s, tid) && WorkFits(sp, init, s, s.threads[tid]);
    match s.threads[tid].pc
    case Ready => AcquireProgress(sp, s, tid);
    case Walking(table, levels, acc) => ReadProgress(sp, s, tid, table, levels, acc);
    case Walked(_) => WalkedProgress(sp, s, tid);
    case Writing(_, _) => WriteProgress(sp, s, tid);
    case Copying(_, _, _, _, _) => CopyProgress(sp, init, s, tid);
    case Exited =>
  }

  ghost function Work(sp: Space, threads: map<nat, Thread>): nat {
    if threads == map[] then 0
    else
      var tid :| tid in threads;
      Rank(sp, threads[tid].pc) + Work(sp, threads - {tid})
  }

  lemma {:induction false} WorkWithout(sp: Space, threads: map<nat, Thread>, tid: nat)
    requires tid in threads
    ensures Work(sp, threads) == Rank(sp, threads[tid].pc) + Work(sp, threads - {tid})
    decreases |threads|
  {
    var first :| first in threads && Work(sp, threads) == Rank(sp, threads[first].pc) + Work(sp, threads - {first});
    if first != tid {
      WorkWithout(sp, threads - {first}, tid);
      WorkWithout(sp, threads - {tid}, first);
      assert threads - {first} - {tid} == threads - {tid} - {first};
    }
  }

  /** Every step that is made leaves less work, so requests cannot keep each other from finishing. */
  lemma StepDoesWork(sp: Space, init: Memory, s: State, tid: nat)
    requires Inv(sp, init, s) && tid in s.threads && Do(sp, s, tid) != s
    ensures Work(sp, Do(sp, s, tid).threads) < Work(sp, s.threads)
  {
    var s' := Do(sp, s, tid);
    OwnStep(sp, s, tid);
    StepProgress(sp, init, s, tid);
    WorkWithout(sp, s.threads, tid);
    WorkWithout(sp, s'.threads, tid);
    assert s'.threads - {tid} == s.threads - {tid};
  }

  /** From every state of every run there is a schedule in which all requests finish. */
  lemma CanFinish(sp: Space, init: Memory, s: State) returns (schedule: seq<nat>)
    requires Inv(sp, init, s)
    ensures AllFinished(Run(sp, s, schedule))
    decreases Work(sp, s.threads)
  {
    if AllFinished(s) {
      schedule := [];
    } else {
      var tid :| tid in s.threads && !Finished(s.threads[tid]);
      var next := SomeStep(sp, init, s, tid);
      StepKeeps(sp, init, s, next);
      StepDoesWork(sp, init, s, next);
      var rest := CanFinish(sp, init, Do(sp, s, next));
      schedule := [next] + rest;
      RunFirst(sp, s, next, rest);
    }
  }

  lemma RunFirst(sp: Space, s: State, next: nat, rest: seq<nat>)
    ensures Run(sp, s, [next] + rest) == Run(sp, Do(sp, s, next), rest)
  {
    assert ([next] + rest)[1..] == rest;
  }
}
