/** The paging root the library stores when a user-space implementation is selected, over whole runs
    of selections and root changes. */
module CachedRoot {
  import opened Paging

  /** The kernel's roots by address space, the calling process, the library's stored root, and what the
      kernel reports without a process or a root: nothing on x86, the processor's root on aarch64. */
  datatype System = System(caller: nat, processes: map<int, nat>, roots: map<nat, nat>, cached: nat, fallback: nat) {

    function GetMm(pid: int): Option<nat> {
      if pid == 0 then Some(caller) else if pid in processes then Some(processes[pid]) else None
    }

    /** `ptedit_get_paging_root`. */
    function GetRoot(pid: int): nat {
      var mm := GetMm(pid);
      if mm.Some? && mm.value in roots && roots[mm.value] != 0 then roots[mm.value] else fallback
    }

    /** The root a user-space walk starts from. */
    function UserRoot(pid: int): nat {
      if pid == 0 then cached else GetRoot(pid)
    }
  }

  /** Calls that read or change roots. The serialising barrier sets the caller's root to itself. */
  datatype Call = Use(implementation: int) | SetRoot(pid: int, root: nat) | Barrier

  function Do(s: System, c: Call): System {
    match c
    case Use(i) => if i == 1 || i == 2 then s.(cached := s.GetRoot(0)) else s
    case SetRoot(pid, root) => if s.GetMm(pid).Some? then s.(roots := s.roots[s.GetMm(pid).value := root]) else s
    case Barrier => s.(roots := s.roots[s.caller := s.GetRoot(0)])
  }

  /** A root that was set for a known process is the root reported for it, unless it is null; address spaces
      of other processes keep their roots, and so does pid 0 in user-space walks. */
  lemma SetRootIsReported(s: System, pid: int, root: nat, other: int)
    requires s.GetMm(pid).Some?
    ensures var s' := Do(s, SetRoot(pid, root));
            && (root != 0 ==> s'.GetRoot(pid) == root)
            && (root == 0 ==> s'.GetRoot(pid) == s.fallback)
            && (root != 0 && pid != 0 ==> s'.UserRoot(pid) == root)
            && (s.GetMm(other) == s.GetMm(pid) ==> s'.GetRoot(other) == s'.GetRoot(pid))
            && (s.GetMm(other) != s.GetMm(pid) ==> s'.GetRoot(other) == s.GetRoot(other))
            && s'.UserRoot(0) == s.UserRoot(0) && s'.GetMm(other) == s.GetMm(other)
  {
  }

  /** A root set for a process nobody knows is set nowhere. */
  lemma SetRootOfNobody(s: System, pid: int, root: nat)
    requires pid != 0 && pid !in s.processes
    ensures Do(s, SetRoot(pid, root)) == s
  {
  }

  function Run(s: System, calls: seq<Call>): System {
    if calls == [] then s else Do(Run(s, calls[..|calls| - 1]), calls[|calls| - 1])
  }

  predicate Selects(c: Call) {
    c.Use? && (c.implementation == 1 || c.implementation == 2)
  }

  /** The position of the last selection of a user-space implementation. */
  predicate LastSelection(calls: seq<Call>, k: nat) {
    k < |calls| && Selects(calls[k]) && forall j :: k < j < |calls| ==> !Selects(calls[j])
  }

  lemma {:induction false} CallerStays(s: System, calls: seq<Call>)
    ensures Run(s, calls).caller == s.caller && Run(s, calls).processes == s.processes
  {
    if calls != [] {
      CallerStays(s, calls[..|calls| - 1]);
    }
  }

  /** In every run the stored root is the caller's kernel root at the last selection of a user-space
      implementation, or what it was at the start if there was none. */
  lemma {:induction false} CachedIsRootAtSelection(s: System, calls: seq<Call>)
    ensures forall k: nat :: LastSelection(calls, k) ==> Run(s, calls).cached == Run(s, calls[..k]).GetRoot(0)
    ensures (forall j :: 0 <= j < |calls| ==> !Selects(calls[j])) ==> Run(s, calls).cached == s.cached
  {
    if calls != [] {
      var n := |calls| - 1;
      var init := calls[..n];
      CachedIsRootAtSelection(s, init);
      forall k: nat | LastSelection(calls, k)
        ensures Run(s, calls).cached == Run(s, calls[..k]).GetRoot(0)
      {
        if k < n {
          assert LastSelection(init, k);
          assert init[..k] == calls[..k];
        }
      }
    }
  }

  /** A call that leaves the caller's root as it is. */
  predicate KeepsRoot(s: System, c: Call) {
    c.SetRoot? && s.GetMm(c.pid) == Some(s.caller) ==> c.root == s.GetRoot(0)
  }

  lemma CallKeepsRoot(s: System, c: Call)
    requires KeepsRoot(s, c)
    ensures Do(s, c).GetRoot(0) == s.GetRoot(0)
  {
  }

  /** The caller's root after calls that leave it as it is. */
  lemma {:induction false} RootStays(s: System, calls: seq<Call>, k: nat)
    requires k <= |calls| && forall j :: k <= j < |calls| ==> KeepsRoot(Run(s, calls[..j]), calls[j])
    ensures Run(s, calls).GetRoot(0) == Run(s, calls[..k]).GetRoot(0)
    decreases |calls|
  {
    if k == |calls| {
      assert calls[..k] == calls;
    } else {
      var n := |calls| - 1;
      var init := calls[..n];
      forall j | k <= j < n
        ensures KeepsRoot(Run(s, init[..j]), init[j])
      {
        assert init[..j] == calls[..j];
      }
      RootStays(s, init, k);
      assert init[..k] == calls[..k];
      CallKeepsRoot(Run(s, init), calls[n]);
    }
  }

  /** After a selection, walks for pid 0 and walks for the caller's own pid start at the same root
      exactly when the caller's kernel root is what it was at the selection. They do so in every run
      with no later change to a different root. */
  lemma OwnPidCoincides(s: System, calls: seq<Call>, k: nat, pid: int)
    requires LastSelection(calls, k) && pid != 0 && s.GetMm(pid) == Some(s.caller)
    ensures var s' := Run(s, calls);
            s'.UserRoot(0) == s'.UserRoot(pid) <==> Run(s, calls[..k]).GetRoot(0) == s'.GetRoot(0)
    ensures (forall j :: k < j < |calls| ==> KeepsRoot(Run(s, calls[..j]), calls[j])) ==>
              Run(s, calls).UserRoot(0) == Run(s, calls).UserRoot(pid)
  {
    CachedIsRootAtSelection(s, calls);
    CallerStays(s, calls);
    if forall j :: k < j < |calls| ==> KeepsRoot(Run(s, calls[..j]), calls[j]) {
      assert KeepsRoot(Run(s, calls[..k]), calls[k]);
      RootStays(s, calls, k);
    }
  }
}
