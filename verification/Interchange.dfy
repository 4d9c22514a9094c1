/** The implementations are interchangeable: over any run of PTE edits, walking like the kernel and
    walking like the library leave the same memory. */
module Interchange {
  import opened Paging
  import opened Radix
  import opened Tree
  import opened EntryBits
  import opened Runs
  import opened Resolve
  import opened Kernel
  import opened Agreement

  function KernelWalker(d: Definition): Walker {
    Walker(KernelRules(), LevelsOf(d))
  }

  /** Above the page tables, every entry of the forest is one that both understand alike. */
  ghost predicate AllUnderstood(f: Forest, m: Memory) {
    forall r, a, v :: f.Covers(r, a) && v in Walk(f.walker, m, r, a) && v.level != PTE ==> Understood(v)
  }

  lemma UnderstoodIsAlike(f: Forest, d: Definition, m: Memory)
    requires FourLevels(d) && f.walker == UserWalker(X86, d)
    ensures AllUnderstood(f, m) <==> AllAlike(f, KernelRules(), m)
  {
    forall v: Visit
      ensures Understood(v) <==> Alike(f.walker.rules, KernelRules(), v)
    {
      UnderstoodMeans(v);
    }
  }

  /** One PTE edit leaves the same memory under both. */
  lemma EditsAgree(f: Forest, d: Definition, m: Memory, r: nat, a: nat, edit: Edit)
    requires f.Shaped(m) && AllAlike(f, KernelRules(), m) && f.walker.levels == LevelsOf(d)
    requires r == 0 || f.Covers(r, a)
    ensures EditPte(KernelWalker(d), m, r, a, edit) == EditPte(f.walker, m, r, a, edit)
  {
    if r != 0 {
      AlikeWalks(f, KernelRules(), m, r, a);
    }
  }

  lemma EditKeepsAlike(f: Forest, m: Memory, r: nat, a: nat, edit: Edit)
    requires f.Shaped(m) && AllAlike(f, KernelRules(), m) && (r == 0 || f.Covers(r, a))
    ensures AllAlike(f, KernelRules(), EditPte(f.walker, m, r, a, edit))
  {
    var v := Pte(f.walker, m, r, a);
    if v.Some? {
      WriteKeepsAlike(f, KernelRules(), m, r, a, Apply(edit, v.value.entry));
    }
  }

  lemma {:induction false} AlikeRunsAgree(f: Forest, d: Definition, roots: Roots, m: Memory, ops: seq<Op>)
    requires f.Shaped(m) && AllAlike(f, KernelRules(), m) && f.walker.levels == LevelsOf(d) && Known(f, roots, ops)
    ensures Run(KernelWalker(d), roots, m, ops) == Run(f.walker, roots, m, ops)
    decreases |ops|
  {
    if ops != [] {
      assert ops[0] in ops && forall op :: op in ops[1..] ==> op in ops;
      var r := RootOf(roots, ops[0].pid);
      EditsAgree(f, d, m, r, ops[0].address, ops[0].edit);
      EditKeepsTree(f, m, r, ops[0].address, ops[0].edit);
      EditKeepsAlike(f, m, r, ops[0].address, ops[0].edit);
      AlikeRunsAgree(f, d, roots, EditPte(f.walker, m, r, ops[0].address, ops[0].edit), ops[1..]);
    }
  }

  /** Every run of PTE edits leaves the same memory whether its walks are the kernel's or the
      library's. */
  lemma RunsAgree(f: Forest, d: Definition, roots: Roots, m: Memory, ops: seq<Op>)
    requires FourLevels(d) && f.walker == UserWalker(X86, d)
    requires f.Shaped(m) && AllUnderstood(f, m) && Known(f, roots, ops)
    ensures Run(KernelWalker(d), roots, m, ops) == Run(f.walker, roots, m, ops)
  {
    UnderstoodIsAlike(f, d, m);
    AlikeRunsAgree(f, d, roots, m, ops);
  }
}
