/** Runs of a deterministic machine that consumes inputs one at a time and may emit one output
    for each. */
module Machine {
  import opened Bytes

  function Run<S, P, E>(step: (S, P) -> (S, Option<E>), st: S, ps: seq<P>): (S, seq<E>)
    decreases |ps|
  {
    if ps == [] then (st, [])
    else
      var (st1, e) := step(st, ps[0]);
      var (st2, es) := Run(step, st1, ps[1..]);
      (st2, Listed(e) + es)
  }

  lemma {:induction false} RunAppend<S, P, E>(step: (S, P) -> (S, Option<E>), st: S, a: seq<P>, b: seq<P>)
    ensures Run(step, st, a + b).0 == Run(step, Run(step, st, a).0, b).0
    ensures Run(step, st, a + b).1 == Run(step, st, a).1 + Run(step, Run(step, st, a).0, b).1
    decreases |a|
  {
    if a == [] {
      assert a + b == b;
    } else {
      assert (a + b)[1..] == a[1..] + b;
      RunAppend(step, step(st, a[0]).0, a[1..], b);
    }
  }

  lemma RunOne<S, P, E>(step: (S, P) -> (S, Option<E>), st: S, p: P)
    ensures Run(step, st, [p]) == (step(st, p).0, Listed(step(st, p).1))
  {
    var e := step(st, p).1;
    assert [p][1..] == [];
    assert Listed(e) + [] == Listed(e);
  }

  lemma RunSnoc<S, P, E>(step: (S, P) -> (S, Option<E>), st: S, a: seq<P>, p: P)
    ensures Run(step, st, a + [p]).0 == step(Run(step, st, a).0, p).0
    ensures Run(step, st, a + [p]).1 == Run(step, st, a).1 + Listed(step(Run(step, st, a).0, p).1)
  {
    RunAppend(step, st, a, [p]);
    RunOne(step, Run(step, st, a).0, p);
  }
}
