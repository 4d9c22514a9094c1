/** The PTE-level calls are read-modify-write over two requests that no lock holds together. Any
    interleaving of edits of different pages is a sequential run; two edits of one page can lose one. */
module Interleaving {
  import opened Paging
  import opened Radix
  import opened Tree
  import opened EntryBits
  import Runs
  import opened Tlb

  /** The jobs as operations of a sequential run: each one is a process of its own. */
  function RootsOf(jobs: map<nat, Job>): Runs.Roots {
    map pid: int | 0 <= pid && pid in jobs :: jobs[pid].root
  }

  function OpOf(jobs: map<nat, Job>, tid: nat): Runs.Op
    requires tid in jobs
  {
    Runs.Op(tid, jobs[tid].address, jobs[tid].edit)
  }

  function OpsOf(jobs: map<nat, Job>, order: seq<nat>): seq<Runs.Op>
    requires forall tid :: tid in order ==> tid in jobs
  {
    if order == [] then [] else OpsOf(jobs, order[..|order| - 1]) + [OpOf(jobs, order[|order| - 1])]
  }

  /** The memory that the jobs leave one after the other. */
  function Sequential(f: Forest, jobs: map<nat, Job>, m: Memory, order: seq<nat>): Memory
    requires forall tid :: tid in order ==> tid in jobs
  {
    Runs.Run(f.walker, RootsOf(jobs), m, OpsOf(jobs, order))
  }

  lemma {:induction false} RunAppend(w: Walker, roots: Runs.Roots, m: Memory, ops: seq<Runs.Op>, op: Runs.Op)
    ensures Runs.Run(w, roots, m, ops + [op]) == Runs.Step(w, roots, Runs.Run(w, roots, m, ops), op)
    decreases |ops|
  {
    if ops == [] {
      assert [] + [op] == [op] && [op][1..] == [];
      assert Runs.Run(w, roots, Runs.Step(w, roots, m, op), []) == Runs.Step(w, roots, m, op);
    } else {
      assert (ops + [op])[1..] == ops[1..] + [op];
      RunAppend(w, roots, Runs.Step(w, roots, m, ops[0]), ops[1..], op);
    }
  }

  /** One more job at the end. */
  lemma SequentialAppend(f: Forest, jobs: map<nat, Job>, m: Memory, order: seq<nat>, tid: nat)
    requires tid in jobs && forall t :: t in order ==> t in jobs
    ensures Sequential(f, jobs, m, order + [tid]) ==
            Runs.EditPte(f.walker, Sequential(f, jobs, m, order), jobs[tid].root, jobs[tid].address, jobs[tid].edit)
  {
    assert (order + [tid])[..|order|] == order;
    RunAppend(f.walker, RootsOf(jobs), m, OpsOf(jobs, order), OpOf(jobs, tid));
  }

  // ---- The invariant ---------------------------------------------------------------------------

  function PageOf(f: Forest, job: Job): (nat, nat) {
    (job.root, f.Page(job.address))
  }

  /** All jobs edit different pages of the forest. */
  ghost predicate Apart(f: Forest, jobs: map<nat, Job>) {
    && (forall tid :: tid in jobs ==> f.Covers(jobs[tid].root, jobs[tid].address))
    && forall tid, other :: tid in jobs && other in jobs && tid != other ==>
                              PageOf(f, jobs[tid]) != PageOf(f, jobs[other])
  }

  /** The value an update is going to write is the edit of what its entry holds now. */
  ghost predicate UpToDate(f: Forest, m: Memory, t: Thread) {
    var v := Pte(f.walker, m, t.job.root, t.job.address);
    match t.phase
    case Edited(x) => v.Some? && x == Apply(t.job.edit, v.value.entry)
    case Located(x, slot) => v.Some? && x == Apply(t.job.edit, v.value.entry) && slot == v.value.slot
    case _ => true
  }

  predicate HasWritten(t: Thread) {
    t.phase == Written || t.phase == Returned
  }

  ghost predicate NoRepeats(order: seq<nat>) {
    forall i, j :: 0 <= i < j < |order| ==> order[i] != order[j]
  }

  /** The updates are those of the jobs, and the ones that have written are listed once. */
  ghost predicate Listed(jobs: map<nat, Job>, s: State) {
    && s.threads.Keys == jobs.Keys && (forall tid :: tid in jobs ==> s.threads[tid].job == jobs[tid])
    && NoRepeats(s.done) && (forall tid :: tid in s.done <==> tid in jobs && HasWritten(s.threads[tid]))
  }

  ghost predicate AllUpToDate(f: Forest, jobs: map<nat, Job>, s: State)
    requires s.threads.Keys == jobs.Keys
  {
    forall tid :: tid in jobs ==> UpToDate(f, s.mem, s.threads[tid])
  }

  /** Memory is that of the jobs that have written, one after the other. */
  ghost predicate InOrder(f: Forest, jobs: map<nat, Job>, init: Memory, s: State) {
    Listed(jobs, s) && AllUpToDate(f, jobs, s) && f.Shaped(s.mem) && s.mem == Sequential(f, jobs, init, s.done)
  }

  // ---- Every step keeps it -----------------------------------------------------------------------

  /** An edit leaves the updates of other pages up to date. */
  lemma OthersUpToDate(f: Forest, jobs: map<nat, Job>, m: Memory, tid: nat, other: nat, t: Thread)
    requires f.Shaped(m) && Apart(f, jobs) && tid in jobs && other in jobs && tid != other
    requires t.job == jobs[other] && UpToDate(f, m, t)
    ensures var job := jobs[tid]; UpToDate(f, Runs.EditPte(f.walker, m, job.root, job.address, job.edit), t)
  {
    var job := jobs[tid];
    var v := Pte(f.walker, m, job.root, job.address);
    assert PageOf(f, jobs[tid]) != PageOf(f, jobs[other]);
    if v.Some? {
      PteAfterWrite(f, m, job.root, job.address, Apply(job.edit, v.value.entry), t.job.root, t.job.address);
    }
  }

  /** One update has moved, and the others stay. */
  ghost predicate Moved(jobs: map<nat, Job>, s: State, s': State, tid: nat) {
    && tid in jobs && tid in s.threads && tid in s'.threads
    && s'.threads == s.threads[tid := s'.threads[tid]] && s'.threads[tid].job == jobs[tid]
  }

  lemma ListedNext(jobs: map<nat, Job>, s: State, s': State, tid: nat)
    requires Listed(jobs, s) && Moved(jobs, s, s', tid)
    requires if HasWritten(s.threads[tid]) == HasWritten(s'.threads[tid]) then s'.done == s.done
             else HasWritten(s'.threads[tid]) && s'.done == s.done + [tid]
    ensures Listed(jobs, s')
  {
    assert forall t :: t in s'.done <==> t in s.done || (s'.done != s.done && t == tid);
  }

  /** The step with which an update takes effect. */
  lemma EffectKeeps(f: Forest, jobs: map<nat, Job>, init: Memory, s: State, s': State, tid: nat)
    requires InOrder(f, jobs, init, s) && Apart(f, jobs) && Moved(jobs, s, s', tid)
    requires !HasWritten(s.threads[tid]) && HasWritten(s'.threads[tid]) && s'.done == s.done + [tid]
    requires s'.mem == Runs.EditPte(f.walker, s.mem, jobs[tid].root, jobs[tid].address, jobs[tid].edit)
    ensures InOrder(f, jobs, init, s')
  {
    ListedNext(jobs, s, s', tid);
    SequentialAppend(f, jobs, init, s.done, tid);
    Runs.EditKeepsTree(f, s.mem, jobs[tid].root, jobs[tid].address, jobs[tid].edit);
    forall other | other in jobs
      ensures UpToDate(f, s'.mem, s'.threads[other])
    {
      if other != tid {
        OthersUpToDate(f, jobs, s.mem, tid, other, s.threads[other]);
      }
    }
  }

  /** A step that leaves memory as it is. */
  lemma QuietKeeps(f: Forest, jobs: map<nat, Job>, init: Memory, s: State, s': State, tid: nat)
    requires InOrder(f, jobs, init, s) && Moved(jobs, s, s', tid) && s'.mem == s.mem && s'.done == s.done
    requires HasWritten(s.threads[tid]) == HasWritten(s'.threads[tid]) && UpToDate(f, s.mem, s'.threads[tid])
    ensures InOrder(f, jobs, init, s')
  {
    ListedNext(jobs, s, s', tid);
  }

  /** The step with which an update takes effect: its write, or finding no entry at all. */
  predicate TakesEffect(f: Forest, s: State, tid: nat)
    requires tid in s.threads
  {
    var t := s.threads[tid];
    t.phase.Located? || (t.phase == Started && Pte(f.walker, s.mem, t.job.root, t.job.address).None?)
  }

  lemma EffectStep(f: Forest, s: State, tid: nat)
    requires tid in s.threads && UpToDate(f, s.mem, s.threads[tid]) && TakesEffect(f, s, tid)
    ensures var s', job := Go(f, s, tid), s.threads[tid].job;
            && s'.mem == Runs.EditPte(f.walker, s.mem, job.root, job.address, job.edit) && s'.done == s.done + [tid]
            && tid in s'.threads && HasWritten(s'.threads[tid]) && s'.threads == s.threads[tid := s'.threads[tid]]
            && s'.threads[tid].job == job && !HasWritten(s.threads[tid])
  {
  }

  lemma QuietStep(f: Forest, s: State, tid: nat)
    requires tid in s.threads && UpToDate(f, s.mem, s.threads[tid]) && !TakesEffect(f, s, tid)
    ensures var s', job := Go(f, s, tid), s.threads[tid].job;
            && s'.mem == s.mem && s'.done == s.done
            && tid in s'.threads && s'.threads == s.threads[tid := s'.threads[tid]] && s'.threads[tid].job == job
            && HasWritten(s'.threads[tid]) == HasWritten(s.threads[tid]) && UpToDate(f, s.mem, s'.threads[tid])
  {
  }

  lemma AdvanceInOrder(f: Forest, jobs: map<nat, Job>, init: Memory, s: State, tid: nat)
    requires InOrder(f, jobs, init, s) && Apart(f, jobs) && tid in jobs
    ensures InOrder(f, jobs, init, Go(f, s, tid))
  {
    var s' := Go(f, s, tid);
    assert UpToDate(f, s.mem, s.threads[tid]);
    if TakesEffect(f, s, tid) {
      EffectStep(f, s, tid);
      EffectKeeps(f, jobs, init, s, s', tid);
    } else {
      QuietStep(f, s, tid);
      QuietKeeps(f, jobs, init, s, s', tid);
    }
  }

  lemma {:induction false} RunInOrder(pl: Platform, jobs: map<nat, Job>, init: Memory, s: State, steps: seq<Step>)
    requires InOrder(pl.forest, jobs, init, s) && Apart(pl.forest, jobs)
    ensures InOrder(pl.forest, jobs, init, Run(pl, s, steps))
    decreases |steps|
  {
    if steps != [] {
      if steps[0].Advance? && steps[0].tid in jobs {
        AdvanceInOrder(pl.forest, jobs, init, s, steps[0].tid);
      }
      RunInOrder(pl, jobs, init, Do(pl, s, steps[0]), steps[1..]);
    }
  }

  // ---- Sequential, in every order -----------------------------------------------------------------

  /** At every moment of every interleaving, memory is that of a sequential run of the updates that
      have written, in the order of their writes, each of them once. */
  lemma WritesAreSequential(pl: Platform, jobs: map<nat, Job>, s: State, steps: seq<Step>)
    requires pl.forest.Shaped(s.mem) && Apart(pl.forest, jobs) && s.done == [] && s.threads.Keys == jobs.Keys
    requires forall tid :: tid in jobs ==> s.threads[tid] == Thread(jobs[tid], Started)
    ensures InOrder(pl.forest, jobs, s.mem, Run(pl, s, steps))
  {
    RunInOrder(pl, jobs, s.mem, s, steps);
  }

  lemma {:induction false} OpsAt(jobs: map<nat, Job>, order: seq<nat>, i: nat)
    requires i < |order| && forall tid :: tid in order ==> tid in jobs
    ensures |OpsOf(jobs, order)| == |order| && OpsOf(jobs, order)[i] == OpOf(jobs, order[i])
    decreases |order|
  {
    var n := |order| - 1;
    if n > 0 {
      OpsAt(jobs, order[..n], if i < n then i else 0);
    }
  }

  lemma {:induction false} CountOnce(order: seq<nat>, x: nat)
    requires NoRepeats(order)
    ensures multiset(order)[x] == if x in order then 1 else 0
  {
    if order != [] {
      var n := |order| - 1;
      assert order == order[..n] + [order[n]];
      CountOnce(order[..n], x);
    }
  }

  lemma {:induction false} SameOps(jobs: map<nat, Job>, order: seq<nat>, others: seq<nat>)
    requires multiset(order) == multiset(others) && forall tid :: tid in order ==> tid in jobs
    ensures forall tid :: tid in others ==> tid in jobs
    ensures multiset(OpsOf(jobs, order)) == multiset(OpsOf(jobs, others))
    decreases |order|
  {
    assert forall tid :: tid in others ==> tid in multiset(order);
    CountOps(jobs, order);
    CountOps(jobs, others);
  }

  /** Operations as often as their jobs. */
  lemma {:induction false} CountOps(jobs: map<nat, Job>, order: seq<nat>)
    requires forall tid :: tid in order ==> tid in jobs
    ensures forall op :: multiset(OpsOf(jobs, order))[op] ==
              if op.pid >= 0 && op.pid in jobs && op == OpOf(jobs, op.pid) then multiset(order)[op.pid] else 0
    decreases |order|
  {
    if order != [] {
      var n := |order| - 1;
      assert order == order[..n] + [order[n]];
      CountOps(jobs, order[..n]);
    }
  }

  lemma SameTids(order: seq<nat>, others: seq<nat>)
    requires NoRepeats(order) && NoRepeats(others) && forall tid :: tid in order <==> tid in others
    ensures multiset(order) == multiset(others)
  {
    forall x: nat
      ensures multiset(order)[x] == multiset(others)[x]
    {
      CountOnce(order, x);
      CountOnce(others, x);
    }
  }

  /** The operations of jobs that are apart are known and on different pages. */
  lemma OpsApart(f: Forest, jobs: map<nat, Job>, order: seq<nat>)
    requires Apart(f, jobs) && NoRepeats(order) && forall tid :: tid in order ==> tid in jobs
    ensures var ops := OpsOf(jobs, order);
            && Runs.Known(f, RootsOf(jobs), ops)
            && forall i, j :: 0 <= i < j < |ops| ==>
              Runs.PageOf(f, RootsOf(jobs), ops[i]) != Runs.PageOf(f, RootsOf(jobs), ops[j])
  {
    var ops := OpsOf(jobs, order);
    if order != [] {
      OpsAt(jobs, order, 0);
    }
    forall i, j | 0 <= i < j < |ops|
      ensures Runs.PageOf(f, RootsOf(jobs), ops[i]) != Runs.PageOf(f, RootsOf(jobs), ops[j])
    {
      OpsAt(jobs, order, i);
      OpsAt(jobs, order, j);
      assert order[i] in order && order[j] in order;
      assert PageOf(f, jobs[order[i]]) != PageOf(f, jobs[order[j]]);
    }
    forall op | op in ops
      ensures f.Covers(Runs.RootOf(RootsOf(jobs), op.pid), op.address)
    {
      var i :| 0 <= i < |ops| && ops[i] == op;
      OpsAt(jobs, order, i);
      assert order[i] in order;
    }
  }

  lemma SequentialInAnyOrder(f: Forest, jobs: map<nat, Job>, m: Memory, order: seq<nat>, others: seq<nat>)
    requires f.Shaped(m) && Apart(f, jobs) && NoRepeats(order) && NoRepeats(others)
    requires (forall tid :: tid in order ==> tid in jobs) && forall tid :: tid in order <==> tid in others
    ensures Sequential(f, jobs, m, order) == Sequential(f, jobs, m, others)
  {
    SameTids(order, others);
    SameOps(jobs, order, others);
    OpsApart(f, jobs, order);
    Runs.RunInAnyOrder(f, RootsOf(jobs), m, OpsOf(jobs, order));
    assert Runs.AllHarmless(f, RootsOf(jobs), m, OpsOf(jobs, order));
  }

  /** Any interleaving of edits of pairwise different pages, once all have returned, leaves the memory of
      a sequential run, in whatever order. */
  lemma NothingIsLost(pl: Platform, jobs: map<nat, Job>, s: State, steps: seq<Step>, order: seq<nat>)
    requires pl.forest.Shaped(s.mem) && Apart(pl.forest, jobs) && s.done == [] && s.threads.Keys == jobs.Keys
    requires forall tid :: tid in jobs ==> s.threads[tid] == Thread(jobs[tid], Started)
    requires AtRest(Run(pl, s, steps))
    requires NoRepeats(order) && forall tid :: tid in order <==> tid in jobs
    ensures Run(pl, s, steps).mem == Sequential(pl.forest, jobs, s.mem, order)
  {
    WritesAreSequential(pl, jobs, s, steps);
    SequentialInAnyOrder(pl.forest, jobs, s.mem, order, Run(pl, s, steps).done);
  }

  // ---- The lost update ----------------------------------------------------------------------------

  lemma {:induction false} RunConcat(pl: Platform, s: State, first: seq<Step>, second: seq<Step>)
    ensures Run(pl, s, first + second) == Run(pl, Run(pl, s, first), second)
    decreases |first|
  {
    if first == [] {
      assert [] + second == second;
    } else {
      assert (first + second)[1..] == first[1..] + second;
      RunConcat(pl, Do(pl, s, first[0]), first[1..], second);
    }
  }

  /** Both updates resolve, then the first one finishes, then the second one. */
  function LosingSchedule(first: nat, second: nat): seq<Step> {
    ([Advance(first)] + [Advance(second)]) + (Advances(first, 3) + Advances(second, 3))
  }

  lemma BothResolve(pl: Platform, s: State, first: nat, second: nat)
    ensures Run(pl, s, [Advance(first)] + [Advance(second)]) == Do(pl, Do(pl, s, Advance(first)), Advance(second))
  {
    RunConcat(pl, s, [Advance(first)], [Advance(second)]);
    assert forall step: Step, s: State :: Run(pl, s, [step]) == Run(pl, Do(pl, s, step), []);
  }

  /** Two updates of one page, interleaved like this, leave the memory of the second one alone: the
      first one is lost. */
  lemma LostUpdate(pl: Platform, s: State, first: nat, second: nat, v: Visit)
    requires Ranked(pl.forest.walker.levels) && first in s.threads && second in s.threads && first != second
    requires s.threads[first].phase == Started && s.threads[second].phase == Started
    requires var one, two := s.threads[first].job, s.threads[second].job;
             && Pte(pl.forest.walker, s.mem, one.root, one.address) == Some(v)
             && Pte(pl.forest.walker, s.mem, two.root, two.address) == Some(v)
             && v.slot in s.mem && OnlyPte(Walk(pl.forest.walker, s.mem, two.root, two.address), v.slot, true)
    ensures var one, two := s.threads[first].job, s.threads[second].job;
            var s' := Run(pl, s, LosingSchedule(first, second));
            && s'.mem == Write(s.mem, v.slot, Apply(two.edit, v.entry))
            && s'.threads == s.threads[first := Thread(one, Returned)][second := Thread(two, Returned)]
  {
    var one, two := s.threads[first].job, s.threads[second].job;
    var x, y := Apply(one.edit, v.entry), Apply(two.edit, v.entry);
    var s2 := At(At(s, first, Edited(x)), second, Edited(y));
    BothResolve(pl, s, first, second);
    assert Do(pl, s, Advance(first)) == At(s, first, Edited(x));
    assert Do(pl, At(s, first, Edited(x)), Advance(second)) == s2;
    RunConcat(pl, s, [Advance(first)] + [Advance(second)], Advances(first, 3) + Advances(second, 3));
    RunConcat(pl, s2, Advances(first, 3), Advances(second, 3));
    ThreeSteps(pl, s2, first);
    var s5 := Run(pl, s2, Advances(first, 3));
    Runs.PteAfterShared(pl.forest.walker, s.mem, v.slot, x, two.root, two.address);
    ThreeSteps(pl, s5, second);
    ThreadsMove(s.threads, first, second, one, two, Edited(x), Edited(y));
  }

  lemma ThreadsMove(threads: map<nat, Thread>, first: nat, second: nat, one: Job, two: Job, p: Phase, q: Phase)
    requires first != second
    ensures threads[first := Thread(one, p)][second := Thread(two, q)]
                   [first := Thread(one, Returned)][second := Thread(two, Returned)]
         == threads[first := Thread(one, Returned)][second := Thread(two, Returned)]
  {
  }

  /** So a bit that the first update was to set is missing, which no sequential order would allow. */
  lemma LostBit(pl: Platform, s: State, first: nat, second: nat, v: Visit, b: Bit, c: Bit)
    requires Ranked(pl.forest.walker.levels) && first in s.threads && second in s.threads && first != second
    requires s.threads[first].phase == Started && s.threads[second].phase == Started
    requires var one, two := s.threads[first].job, s.threads[second].job;
             && one.root == two.root && one.address == two.address && one.edit == SetBit(b) && two.edit == SetBit(c)
             && Pte(pl.forest.walker, s.mem, one.root, one.address) == Some(v)
             && v.slot in s.mem && OnlyPte(Walk(pl.forest.walker, s.mem, one.root, one.address), v.slot, true)
    requires b != c && b !in v.entry
    ensures var w, job := pl.forest.walker, s.threads[first].job;
            var lost := Run(pl, s, LosingSchedule(first, second)).mem;
            var m' := Runs.EditPte(w, s.mem, job.root, job.address, SetBit(b));
            var both := Runs.EditPte(w, m', job.root, job.address, SetBit(c));
            && Runs.EntryAt(w, lost, job.root, job.address) == Some(v.entry + {c})
            && Runs.EntryAt(w, both, job.root, job.address) == Some(v.entry + {b, c})
            && v.entry + {c} != v.entry + {b, c}
  {
    var w, job := pl.forest.walker, s.threads[first].job;
    LostUpdate(pl, s, first, second, v);
    Runs.PteAfterShared(w, s.mem, v.slot, v.entry + {c}, job.root, job.address);
    Runs.PteAfterShared(w, s.mem, v.slot, v.entry + {b}, job.root, job.address);
    var m' := Write(s.mem, v.slot, v.entry + {b});
    WalkAfterWrite(w, s.mem, v.slot, v.entry + {b}, job.root, job.address, true);
    StillOnlyPte(Walk(w, s.mem, job.root, job.address), v.slot, v.entry + {b});
    Runs.PteAfterShared(w, m', v.slot, v.entry + {b} + {c}, job.root, job.address);
    assert v.entry + {b} + {c} == v.entry + {b, c};
    assert b in v.entry + {b, c} && b !in v.entry + {c};
  }

  lemma {:induction false} StillOnlyPte(p: seq<Visit>, slot: nat, x: Word)
    requires OnlyPte(p, slot, true)
    ensures OnlyPte(Retouch(p, slot, x), slot, true)
  {
    if p != [] {
      OnlyPteBelow(p, slot, true);
      StillOnlyPte(p[1..], slot, x);
      assert p[0] in p;
    }
  }

  // ---- Exactly when two edits of one page are safe ------------------------------------------------

  /** Two updates of one page that has an entry. */
  datatype Duel = Duel(first: nat, second: nat, one: Job, two: Job, v: Visit) {

    ghost predicate Fits(f: Forest, m: Memory) {
      && first != second && f.Shaped(m) && f.Covers(one.root, one.address) && PageOf(f, one) == PageOf(f, two)
      && Pte(f.walker, m, one.root, one.address) == Some(v) && v.slot in m
    }

    predicate Has(tid: nat) {
      tid == first || tid == second
    }

    function Other(tid: nat): nat {
      if tid == first then second else first
    }

    function JobOf(tid: nat): Job {
      if tid == first then one else two
    }

    /** What an update makes of an entry. */
    function Edit(tid: nat, e: Word): Word {
      Apply(JobOf(tid).edit, e)
    }

    /** The value in the slot after some of them have written, in this order. */
    predicate Holds(done: seq<nat>, x: Word) {
      if done == [] then x == v.entry
      else if |done| == 1 then Has(done[0]) && x == Edit(done[0], v.entry)
      else
        && |done| == 2 && Has(done[1]) && done[0] == Other(done[1])
        && (x == Edit(done[1], v.entry) || x == Edit(done[1], Edit(done[0], v.entry)))
    }

    /** A value that an update may have computed: from the entry as it was, or as the other one left it. */
    predicate MayWrite(done: seq<nat>, tid: nat, y: Word) {
      y == Edit(tid, v.entry) || (Other(tid) in done && y == Edit(tid, Edit(Other(tid), v.entry)))
    }

    predicate ThreadFits(done: seq<nat>, tid: nat, t: Thread) {
      && t.job == JobOf(tid)
      && (tid in done <==> HasWritten(t))
      && match t.phase
         case Edited(y) => MayWrite(done, tid, y)
         case Located(y, slot) => MayWrite(done, tid, y) && slot == v.slot
         case _ => true
    }

    /** Memory as at the start, but for the slot. */
    ghost predicate Inv(m: Memory, s: State) {
      && s.threads.Keys == {first, second}
      && ThreadFits(s.done, first, s.threads[first]) && ThreadFits(s.done, second, s.threads[second])
      && v.slot in s.mem && s.mem == m[v.slot := s.mem[v.slot]] && Holds(s.done, s.mem[v.slot])
    }

    /** The memory that the updates leave one after the other. */
    function InTurn(w: Walker, m: Memory, tid: nat): Memory {
      var p, q := JobOf(tid), JobOf(Other(tid));
      Runs.EditPte(w, Runs.EditPte(w, m, p.root, p.address, p.edit), q.root, q.address, q.edit)
    }

    /** Both updates on their own leave what the two leave in one of the orders. */
    predicate Safe() {
      var pq, qp := Edit(second, Edit(first, v.entry)), Edit(first, Edit(second, v.entry));
      var p, q := Edit(first, v.entry), Edit(second, v.entry);
      (p == pq || p == qp) && (q == pq || q == qp)
    }
  }

  /** Both updates find the slot, with whatever is in it. */
  lemma DuelEntry(f: Forest, m: Memory, d: Duel, x: Word, tid: nat)
    requires d.Fits(f, m) && d.Has(tid)
    ensures Pte(f.walker, m[d.v.slot := x], d.JobOf(tid).root, d.JobOf(tid).address) == Some(d.v.(entry := x))
  {
    PteAfterWrite(f, m, d.one.root, d.one.address, x, d.JobOf(tid).root, d.JobOf(tid).address);
  }

  lemma DuelStep(f: Forest, m: Memory, d: Duel, s: State, tid: nat)
    requires d.Fits(f, m) && d.Inv(m, s) && d.Has(tid)
    ensures d.Inv(m, Go(f, s, tid))
  {
    DuelEntry(f, m, d, s.mem[d.v.slot], tid);
    if s.threads[tid].phase.Located? {
      DuelWrite(m, d, s, tid, Go(f, s, tid));
    }
  }

  lemma DuelWrite(m: Memory, d: Duel, s: State, tid: nat, s': State)
    requires d.Inv(m, s) && d.Has(tid) && d.first != d.second && s.threads[tid].phase.Located?
    requires var phase := s.threads[tid].phase;
             s' == At(s.(mem := Write(s.mem, phase.slot, phase.value), done := s.done + [tid]), tid, Written)
    ensures d.Inv(m, s')
  {
    assert s'.mem == m[d.v.slot := s.threads[tid].phase.value];
    assert s.done == [] || s.done == [d.Other(tid)];
  }

  lemma {:induction false} DuelRun(pl: Platform, m: Memory, d: Duel, s: State, steps: seq<Step>)
    requires d.Fits(pl.forest, m) && d.Inv(m, s)
    ensures d.Inv(m, Run(pl, s, steps))
    decreases |steps|
  {
    if steps != [] {
      if steps[0].Advance? && d.Has(steps[0].tid) {
        DuelStep(pl.forest, m, d, s, steps[0].tid);
      }
      DuelRun(pl, m, d, Do(pl, s, steps[0]), steps[1..]);
    }
  }

  lemma InTurnWrites(f: Forest, m: Memory, d: Duel, tid: nat)
    requires d.Fits(f, m) && d.Has(tid)
    ensures d.InTurn(f.walker, m, tid) == m[d.v.slot := d.Edit(d.Other(tid), d.Edit(tid, d.v.entry))]
  {
    var x := d.Edit(tid, d.v.entry);
    SlotHolds(f, m, d);
    DuelEntry(f, m, d, d.v.entry, tid);
    DuelEntry(f, m, d, x, d.Other(tid));
    assert m[d.v.slot := x][d.v.slot := d.Edit(d.Other(tid), x)] == m[d.v.slot := d.Edit(d.Other(tid), x)];
  }

  /** Every complete interleaving leaves the memory of one of the two orders. */
  ghost predicate Serializable(pl: Platform, d: Duel, s: State) {
    forall steps :: AtRest(Run(pl, s, steps)) ==>
                      || Run(pl, s, steps).mem == d.InTurn(pl.forest.walker, s.mem, d.first)
                      || Run(pl, s, steps).mem == d.InTurn(pl.forest.walker, s.mem, d.second)
  }

  /** Before their first step. */
  predicate DuelStarts(d: Duel, s: State) {
    s.done == [] && s.threads == map[d.first := Thread(d.one, Started), d.second := Thread(d.two, Started)]
  }

  lemma SlotHolds(f: Forest, m: Memory, d: Duel)
    requires d.Fits(f, m)
    ensures m[d.v.slot] == d.v.entry && m[d.v.slot := d.v.entry] == m
  {
    VisitShape(f.walker.rules, m, d.one.root, d.one.address, f.walker.levels, d.v);
  }

  /** Each update can be the one that is left alone. */
  lemma DuelLoses(pl: Platform, d: Duel, s: State, tid: nat)
    requires d.Fits(pl.forest, s.mem) && DuelStarts(d, s) && d.Has(tid)
    ensures var s' := Run(pl, s, LosingSchedule(d.Other(tid), tid));
            AtRest(s') && s'.mem == s.mem[d.v.slot := d.Edit(tid, d.v.entry)]
  {
    var f := pl.forest;
    SlotHolds(f, s.mem, d);
    DuelEntry(f, s.mem, d, d.v.entry, d.first);
    DuelEntry(f, s.mem, d, d.v.entry, d.second);
    PteSlotIsPrivate(f, s.mem, d.one.root, d.one.address, d.JobOf(tid).root, d.JobOf(tid).address);
    LostUpdate(pl, s, d.Other(tid), tid, d.v);
  }

  lemma SerializableIsSafe(pl: Platform, d: Duel, s: State, tid: nat)
    requires d.Fits(pl.forest, s.mem) && DuelStarts(d, s) && d.Has(tid) && Serializable(pl, d, s)
    ensures d.Edit(tid, d.v.entry) == d.Edit(d.second, d.Edit(d.first, d.v.entry)) ||
            d.Edit(tid, d.v.entry) == d.Edit(d.first, d.Edit(d.second, d.v.entry))
  {
    DuelLoses(pl, d, s, tid);
    InTurnWrites(pl.forest, s.mem, d, d.first);
    InTurnWrites(pl.forest, s.mem, d, d.second);
    assert s.mem[d.v.slot := d.Edit(tid, d.v.entry)][d.v.slot] == d.Edit(tid, d.v.entry);
  }

  /** Two concurrent edits of one page that has an entry leave the memory of one of the two orders, in
      every complete interleaving, exactly when both of them on their own do. */
  lemma TwoEdits(pl: Platform, d: Duel, s: State)
    requires d.Fits(pl.forest, s.mem) && DuelStarts(d, s)
    ensures Serializable(pl, d, s) <==> d.Safe()
  {
    if Serializable(pl, d, s) {
      SerializableIsSafe(pl, d, s, d.first);
      SerializableIsSafe(pl, d, s, d.second);
    }
    if d.Safe() {
      forall steps | AtRest(Run(pl, s, steps))
        ensures Run(pl, s, steps).mem == d.InTurn(pl.forest.walker, s.mem, d.first) ||
                Run(pl, s, steps).mem == d.InTurn(pl.forest.walker, s.mem, d.second)
      {
        SafeEnds(pl, d, s, steps);
      }
    }
  }

  /** At rest the slot holds one of four values. */
  lemma DuelEnds(m: Memory, d: Duel, s: State)
    requires d.Inv(m, s) && AtRest(s)
    ensures var x := s.mem[d.v.slot];
            || x == d.Edit(d.first, d.v.entry) || x == d.Edit(d.second, d.Edit(d.first, d.v.entry))
            || x == d.Edit(d.second, d.v.entry) || x == d.Edit(d.first, d.Edit(d.second, d.v.entry))
  {
    assert d.first in s.done;
  }

  lemma SafeEnds(pl: Platform, d: Duel, s: State, steps: seq<Step>)
    requires d.Fits(pl.forest, s.mem) && DuelStarts(d, s) && d.Safe() && AtRest(Run(pl, s, steps))
    ensures Run(pl, s, steps).mem == d.InTurn(pl.forest.walker, s.mem, d.first) ||
            Run(pl, s, steps).mem == d.InTurn(pl.forest.walker, s.mem, d.second)
  {
    SlotHolds(pl.forest, s.mem, d);
    DuelRun(pl, s.mem, d, s, steps);
    DuelEnds(s.mem, d, Run(pl, s, steps));
    InTurnWrites(pl.forest, s.mem, d, d.first);
    InTurnWrites(pl.forest, s.mem, d, d.second);
  }

  /** For two calls that set bits: they set the same bit, or both bits are set already. */
  lemma SafeBits(d: Duel, b: Bit, c: Bit)
    requires d.first != d.second && d.one.edit == SetBit(b) && d.two.edit == SetBit(c)
    ensures d.Safe() <==> b == c || (b in d.v.entry && c in d.v.entry)
  {
    var e := d.v.entry;
    assert e + {b} + {c} == e + {c} + {b};
    if b != c && b !in e {
      assert b !in e + {c} && b in e + {b} + {c};
    }
    if b != c && c !in e {
      assert c !in e + {b} && c in e + {b} + {c};
    }
  }

  // ---- Pages without an entry ---------------------------------------------------------------------

  /** No update has an entry to write. */
  predicate Idle(f: Forest, m: Memory, t: Thread) {
    && Runs.EntryAt(f.walker, m, t.job.root, t.job.address).None?
    && (t.phase.Located? ==> t.phase.slot !in m)
  }

  lemma IdleStep(f: Forest, s: State, tid: nat)
    requires tid in s.threads && Idle(f, s.mem, s.threads[tid])
    ensures var s' := Go(f, s, tid);
            && s'.mem == s.mem && tid in s'.threads && Idle(f, s.mem, s'.threads[tid])
            && s'.threads == s.threads[tid := s'.threads[tid]]
  {
  }

  ghost predicate AllIdle(f: Forest, s: State) {
    forall tid :: tid in s.threads ==> Idle(f, s.mem, s.threads[tid])
  }

  /** Then nothing is written, whatever the interleaving. */
  lemma {:induction false} NoEntryNoEffect(pl: Platform, s: State, steps: seq<Step>)
    requires AllIdle(pl.forest, s)
    ensures Run(pl, s, steps).mem == s.mem
    decreases |steps|
  {
    if steps != [] {
      if steps[0].Advance? && steps[0].tid in s.threads {
        IdleStep(pl.forest, s, steps[0].tid);
      }
      NoEntryNoEffect(pl, Do(pl, s, steps[0]), steps[1..]);
    }
  }
}
