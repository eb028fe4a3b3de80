/** Putting runs of the protocol together. */
module AgvcpRuns {
  import opened AgvcpProtocol

  function RunAll(env: Env, w: World, steps: seq<Step>): World { Run(env, w, steps, |steps|) }

  /** One step leads from w to u. */
  ghost predicate Leads(env: Env, w: World, u: World) { exists step :: Apply(env, w, step) == u }

  /** The states of a run from w to u. */
  ghost predicate Trace(env: Env, states: seq<World>, w: World, u: World) {
    && states != [] && states[0] == w && states[|states| - 1] == u
    && forall i, j {:trigger Leads(env, states[i], states[j])} ::
         0 <= i < j < |states| && j == i + 1 ==> Leads(env, states[i], states[j])
  }

  /** Some run leads from w to u. */
  ghost predicate Reaches(env: Env, w: World, u: World) {
    exists states :: Trace(env, states, w, u)
  }

  lemma {:induction false} RunPrefix(env: Env, w: World, a: seq<Step>, b: seq<Step>, n: nat)
    requires n <= |a|
    ensures Run(env, w, a + b, n) == Run(env, w, a, n)
  {
    if n > 0 {
      RunPrefix(env, w, a, b, n - 1);
    }
  }

  /** A run may be cut in two. */
  lemma {:induction false} RunJoins(env: Env, w: World, a: seq<Step>, b: seq<Step>)
    ensures RunAll(env, w, a + b) == RunAll(env, RunAll(env, w, a), b)
    decreases |b|
  {
    if b == [] {
      assert a + b == a;
    } else {
      var c, last := b[..|b| - 1], b[|b| - 1];
      assert b == c + [last] && a + b == (a + c) + [last];
      RunJoins(env, w, a, c);
      RunPrefix(env, w, a + c, [last], |a + c|);
      RunPrefix(env, RunAll(env, w, a), c, [last], |c|);
    }
  }

  lemma RunStep(env: Env, w: World, step: Step)
    ensures RunAll(env, w, [step]) == Apply(env, w, step)
  {
    assert Run(env, w, [step], 0) == w;
  }

  lemma RunTwo(env: Env, w: World, s: Step, t: Step)
    ensures RunAll(env, w, [s, t]) == Apply(env, Apply(env, w, s), t)
  {
    RunStep(env, w, s);
    RunStep(env, Apply(env, w, s), t);
    RunJoins(env, w, [s], [t]);
    assert [s] + [t] == [s, t];
  }

  lemma ReachesItself(env: Env, w: World)
    ensures Reaches(env, w, w)
  {
    assert Trace(env, [w], w, w);
  }

  lemma TracesJoin(env: Env, a: seq<World>, b: seq<World>, w: World, u: World, v: World)
    requires Trace(env, a, w, u) && Trace(env, b, u, v)
    ensures Trace(env, a + b[1..], w, v)
  {
    var all := a + b[1..];
    forall i, j | 0 <= i < j < |all| && j == i + 1 ensures Leads(env, all[i], all[j]) {
      if j < |a| {
        assert Leads(env, a[i], a[j]);
      } else {
        var k, l := i - |a| + 1, j - |a| + 1;
        assert all[i] == b[k] && all[j] == b[l];
        assert Leads(env, b[k], b[l]);
      }
    }
  }

  lemma ReachesJoins(env: Env, w: World, u: World, v: World)
    requires Reaches(env, w, u) && Reaches(env, u, v)
    ensures Reaches(env, w, v)
  {
    var a :| Trace(env, a, w, u);
    var b :| Trace(env, b, u, v);
    TracesJoin(env, a, b, w, u, v);
  }

  lemma ReachesStep(env: Env, w: World, step: Step)
    ensures Reaches(env, w, Apply(env, w, step))
  {
    var u := Apply(env, w, step);
    assert Leads(env, w, u);
    assert Trace(env, [w, u], w, u);
  }

  lemma ReachesTwo(env: Env, w: World, s: Step, t: Step)
    ensures Reaches(env, w, Apply(env, Apply(env, w, s), t))
  {
    ReachesStep(env, w, s);
    ReachesStep(env, Apply(env, w, s), t);
    ReachesJoins(env, w, Apply(env, w, s), Apply(env, Apply(env, w, s), t));
  }

  lemma ReachesThree(env: Env, w: World, s: Step, t: Step, u: Step)
    ensures Reaches(env, w, Apply(env, Apply(env, Apply(env, w, s), t), u))
  {
    ReachesTwo(env, w, s, t);
    ReachesStep(env, Apply(env, Apply(env, w, s), t), u);
    ReachesJoins(env, w, Apply(env, Apply(env, w, s), t), Apply(env, Apply(env, Apply(env, w, s), t), u));
  }

  lemma TraceInit(env: Env, states: seq<World>, w: World)
    requires |states| > 1 && Trace(env, states, w, states[|states| - 1])
    ensures Trace(env, states[..|states| - 1], w, states[|states| - 2])
    ensures Leads(env, states[|states| - 2], states[|states| - 1])
  {
    var init := states[..|states| - 1];
    forall i, j | 0 <= i < j < |init| && j == i + 1 ensures Leads(env, init[i], init[j]) {
      assert Leads(env, states[i], states[j]);
    }
    assert Leads(env, states[|states| - 2], states[|states| - 1]);
  }

  /** What is reached is reached by a list of steps. */
  lemma {:induction false} TraceIsRun(env: Env, states: seq<World>, w: World, u: World) returns (steps: seq<Step>)
    requires Trace(env, states, w, u)
    ensures RunAll(env, w, steps) == u
    decreases |states|
  {
    if |states| == 1 {
      steps := [];
    } else {
      TraceInit(env, states, w);
      var v := states[|states| - 2];
      var before := TraceIsRun(env, states[..|states| - 1], w, v);
      var step :| Apply(env, v, step) == u;
      RunStep(env, v, step);
      RunJoins(env, w, before, [step]);
      steps := before + [step];
    }
  }
}
