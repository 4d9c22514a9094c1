/** Sequences of steps in different orders: steps that commute give the same result in every order. */
module Reordering {

  function Fold<S, T>(step: (S, T) -> S, s: S, ts: seq<T>): S
    decreases |ts|
  {
    if ts == [] then s else Fold(step, step(s, ts[0]), ts[1..])
  }

  /** Every two steps of a sequence are apart. */
  ghost predicate AllApart<T>(apart: (T, T) -> bool, ts: seq<T>) {
    forall i, j :: 0 <= i < j < |ts| ==> apart(ts[i], ts[j])
  }

  /** From good states, allowed steps lead to good states, and two of them commute exactly when they
      are apart. */
  ghost predicate Commuting<S(!new), T(!new)>(step: (S, T) -> S, good: S -> bool, allowed: T -> bool,
                                              apart: (T, T) -> bool) {
    && (forall s, t :: good(s) && allowed(t) ==> good(step(s, t)))
    && (forall s, t, u :: good(s) && allowed(t) && allowed(u) ==>
          (apart(t, u) <==> step(step(s, t), u) == step(step(s, u), t)))
  }

  ghost predicate AllAllowed<T>(allowed: T -> bool, ts: seq<T>) {
    forall i :: 0 <= i < |ts| ==> allowed(ts[i])
  }

  /** A step can be taken first wherever it stands. */
  lemma {:induction false} TakeFirst<S(!new), T(!new)>(step: (S, T) -> S, good: S -> bool, allowed: T -> bool,
                                                       apart: (T, T) -> bool, s: S, ts: seq<T>, k: nat)
    requires Commuting(step, good, allowed, apart) && good(s) && AllAllowed(allowed, ts) && AllApart(apart, ts)
    requires k < |ts|
    ensures Fold(step, s, ts) == Fold(step, step(s, ts[k]), ts[..k] + ts[k + 1..])
    decreases k
  {
    var tail := ts[..k] + ts[k + 1..];
    if k == 0 {
      assert tail == ts[1..];
    } else {
      TakeFirst(step, good, allowed, apart, step(s, ts[0]), ts[1..], k - 1);
      assert ts[1..][..k - 1] + ts[1..][k..] == tail[1..];
      assert apart(ts[0], ts[k]);
      assert Fold(step, step(s, ts[k]), tail) == Fold(step, step(step(s, ts[k]), ts[0]), tail[1..]);
    }
  }

  lemma WithoutOne<T>(ts: seq<T>, k: nat)
    requires k < |ts|
    ensures multiset(ts[..k] + ts[k + 1..]) == multiset(ts) - multiset{ts[k]}
  {
    assert ts == ts[..k] + ([ts[k]] + ts[k + 1..]);
  }

  /** Where the first of a reordering stood. */
  lemma FindFirst<T>(ts: seq<T>, us: seq<T>) returns (k: nat)
    requires us != [] && multiset(ts) == multiset(us)
    ensures k < |ts| && ts[k] == us[0] && multiset(ts[..k] + ts[k + 1..]) == multiset(us[1..])
  {
    assert us[0] in multiset(ts);
    k :| 0 <= k < |ts| && ts[k] == us[0];
    WithoutOne(ts, k);
    assert us == [us[0]] + us[1..];
    assert multiset(us) == multiset{us[0]} + multiset(us[1..]);
  }

  lemma StillApart<T>(allowed: T -> bool, apart: (T, T) -> bool, ts: seq<T>, k: nat)
    requires k < |ts| && AllAllowed(allowed, ts) && AllApart(apart, ts)
    ensures AllAllowed(allowed, ts[..k] + ts[k + 1..]) && AllApart(apart, ts[..k] + ts[k + 1..])
  {
    var rest := ts[..k] + ts[k + 1..];
    forall i, j | 0 <= i < j < |rest|
      ensures apart(rest[i], rest[j])
    {
      var i', j' := if i < k then i else i + 1, if j < k then j else j + 1;
      assert rest[i] == ts[i'] && rest[j] == ts[j'];
    }
  }

  /** Steps that are pairwise apart lead to the same state in every order. */
  lemma {:induction false} Reorder<S(!new), T(!new)>(step: (S, T) -> S, good: S -> bool, allowed: T -> bool,
                                                     apart: (T, T) -> bool, s: S, ts: seq<T>, us: seq<T>)
    requires Commuting(step, good, allowed, apart) && good(s) && AllAllowed(allowed, ts) && AllApart(apart, ts)
    requires multiset(ts) == multiset(us)
    ensures Fold(step, s, ts) == Fold(step, s, us)
    decreases |us|
  {
    if us == [] {
      assert |multiset(ts)| == 0;
    } else {
      var k := FindFirst(ts, us);
      TakeFirst(step, good, allowed, apart, s, ts, k);
      StillApart(allowed, apart, ts, k);
      Reorder(step, good, allowed, apart, step(s, us[0]), ts[..k] + ts[k + 1..], us[1..]);
    }
  }

  /** The same sequence with two of its steps last, in either order. */
  lemma TwoLast<T>(ts: seq<T>, i: nat, j: nat, rest: seq<T>)
    requires i < j < |ts| && rest == ts[..i] + ts[i + 1..j] + ts[j + 1..]
    ensures multiset(rest + [ts[i], ts[j]]) == multiset(ts) && multiset(rest + [ts[j], ts[i]]) == multiset(ts)
  {
    assert ts == ts[..i] + [ts[i]] + ts[i + 1..j] + [ts[j]] + ts[j + 1..];
  }

  lemma {:induction false} FoldAppend<S, T>(step: (S, T) -> S, s: S, ts: seq<T>, p: T, q: T)
    ensures Fold(step, s, ts + [p, q]) == step(step(Fold(step, s, ts), p), q)
    decreases |ts|
  {
    if ts == [] {
      assert [] + [p, q] == [p, q] && [p, q][1..] == [q] && [q][1..] == [];
      assert Fold(step, step(s, p), [q]) == Fold(step, step(step(s, p), q), []);
    } else {
      assert (ts + [p, q])[1..] == ts[1..] + [p, q];
      FoldAppend(step, step(s, ts[0]), ts[1..], p, q);
    }
  }

  lemma {:induction false} FoldIsGood<S(!new), T(!new)>(step: (S, T) -> S, good: S -> bool, allowed: T -> bool,
                                                        apart: (T, T) -> bool, s: S, ts: seq<T>)
    requires Commuting(step, good, allowed, apart) && good(s) && AllAllowed(allowed, ts)
    ensures good(Fold(step, s, ts))
    decreases |ts|
  {
    if ts != [] {
      FoldIsGood(step, good, allowed, apart, step(s, ts[0]), ts[1..]);
    }
  }

  /** The result does not depend on the order. */
  ghost predicate SameInEveryOrder<S, T(!new)>(step: (S, T) -> S, s: S, ts: seq<T>) {
    forall us :: multiset(us) == multiset(ts) ==> Fold(step, s, us) == Fold(step, s, ts)
  }

  /** Two steps that are not apart make some order give another result. */
  lemma OrderMatters<S(!new), T(!new)>(step: (S, T) -> S, good: S -> bool, allowed: T -> bool,
                                       apart: (T, T) -> bool, s: S, ts: seq<T>, i: nat, j: nat)
    requires Commuting(step, good, allowed, apart) && good(s) && AllAllowed(allowed, ts)
    requires i < j < |ts| && !apart(ts[i], ts[j])
    ensures !SameInEveryOrder(step, s, ts)
  {
    var rest := ts[..i] + ts[i + 1..j] + ts[j + 1..];
    TwoLast(ts, i, j, rest);
    FoldAppend(step, s, rest, ts[i], ts[j]);
    FoldAppend(step, s, rest, ts[j], ts[i]);
    FoldIsGood(step, good, allowed, apart, s, rest);
    assert allowed(ts[i]) && allowed(ts[j]);
    assert Fold(step, s, rest + [ts[i], ts[j]]) != Fold(step, s, rest + [ts[j], ts[i]]);
  }

  /** A sequence of steps gives the same result in every order exactly when they are pairwise apart. */
  lemma AnyOrder<S(!new), T(!new)>(step: (S, T) -> S, good: S -> bool, allowed: T -> bool,
                                   apart: (T, T) -> bool, s: S, ts: seq<T>)
    requires Commuting(step, good, allowed, apart) && good(s) && AllAllowed(allowed, ts)
    ensures SameInEveryOrder(step, s, ts) <==> AllApart(apart, ts)
  {
    if AllApart(apart, ts) {
      forall us | multiset(us) == multiset(ts)
        ensures Fold(step, s, us) == Fold(step, s, ts)
      {
        Reorder(step, good, allowed, apart, s, ts, us);
      }
    } else {
      var i, j :| 0 <= i < j < |ts| && !apart(ts[i], ts[j]);
      OrderMatters(step, good, allowed, apart, s, ts, i, j);
    }
  }
}
