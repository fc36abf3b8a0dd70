/**
 * What one pass of `processEntries` does, as a value: the store commands it
 * issues, in order, and whether it returned normally or threw.
 */
module Plans {
  import opened Projection
  import opened Redis

  datatype Outcome = Completed | Failed(error: Error)

  datatype Plan = Plan(commands: seq<Command>, outcome: Outcome)

  const Nothing: Plan := Plan([], Completed)

  /** `a`, then `b` unless `a` threw: an exception skips everything after it. */
  function Then(a: Plan, b: Plan): Plan
  {
    if a.outcome.Failed? then a else Plan(a.commands + b.commands, b.outcome)
  }

  /** The steps for `xs`, run in order until the first one that throws. */
  function Chain<T>(step: T -> Plan, xs: seq<T>): (r: Plan)
    ensures r.outcome == Completed <==> forall i :: 0 <= i < |xs| ==> step(xs[i]).outcome == Completed
    ensures r.outcome.Failed? ==> exists i :: 0 <= i < |xs| && step(xs[i]).outcome == r.outcome
  {
    if |xs| == 0 then Nothing
    else
      var init := xs[..|xs| - 1];
      assert forall i :: 0 <= i < |init| ==> init[i] == xs[i];
      Then(Chain(step, init), step(xs[|xs| - 1]))
  }

  lemma ThenAssociative(a: Plan, b: Plan, c: Plan)
    ensures Then(Then(a, b), c) == Then(a, Then(b, c))
  {
  }

  /** Running `xs + ys` is running `xs`, then `ys` unless `xs` threw. */
  lemma {:induction false} ChainAppend<T>(step: T -> Plan, xs: seq<T>, ys: seq<T>)
    ensures Chain(step, xs + ys) == Then(Chain(step, xs), Chain(step, ys))
    decreases |ys|
  {
    if |ys| == 0 {
      assert xs + ys == xs;
      assert Chain(step, xs).commands + [] == Chain(step, xs).commands;
    } else {
      var init := ys[..|ys| - 1];
      assert (xs + ys)[..|xs + ys| - 1] == xs + init;
      ChainAppend(step, xs, init);
      ThenAssociative(Chain(step, xs), Chain(step, init), step(ys[|ys| - 1]));
    }
  }

  /** The run over the first `j + 1` elements is the run over `j` and then step `j`. */
  lemma ChainStep<T>(step: T -> Plan, xs: seq<T>, j: nat)
    requires j < |xs|
    ensures Chain(step, xs[..j + 1]) == Then(Chain(step, xs[..j]), step(xs[j]))
  {
    assert xs[..j + 1][..j] == xs[..j];
  }

  /**
   * One iteration of a loop that runs the steps for `xs` against a store:
   * `db` is the store after step `j` ran on the store left by the steps
   * before it. Either the loop may go on to `j + 1`, or step `j` threw and
   * `db` is the store of the whole run.
   */
  lemma ChainExecStep<T>(step: T -> Plan, xs: seq<T>, j: nat, base: Db, db: Db)
    requires j < |xs|
    requires Chain(step, xs[..j]).outcome == Completed
    requires db == ExecAll(ExecAll(base, Chain(step, xs[..j]).commands), step(xs[j]).commands)
    ensures step(xs[j]).outcome == Completed ==>
      Chain(step, xs[..j + 1]).outcome == Completed && db == ExecAll(base, Chain(step, xs[..j + 1]).commands)
    ensures step(xs[j]).outcome.Failed? ==>
      Chain(step, xs).outcome == step(xs[j]).outcome && db == ExecAll(base, Chain(step, xs).commands)
  {
    ChainStep(step, xs, j);
    ExecAllAppend(base, Chain(step, xs[..j]).commands, step(xs[j]).commands);
    if step(xs[j]).outcome.Failed? {
      FailureIsFinal(step, xs, j + 1);
    }
  }

  /** The commands a prefix of `xs` issues are a prefix of those `xs` issues. */
  lemma ChainPrefix<T>(step: T -> Plan, xs: seq<T>, i: nat)
    requires i <= |xs|
    ensures |Chain(step, xs[..i]).commands| <= |Chain(step, xs).commands|
    ensures Chain(step, xs).commands[..|Chain(step, xs[..i]).commands|] == Chain(step, xs[..i]).commands
  {
    assert xs == xs[..i] + xs[i..];
    ChainAppend(step, xs[..i], xs[i..]);
  }

  /** Once a prefix has thrown, the rest of the list is never looked at. */
  lemma {:induction false} FailureIsFinal<T>(step: T -> Plan, xs: seq<T>, k: nat)
    requires k <= |xs|
    requires Chain(step, xs[..k]).outcome.Failed?
    ensures Chain(step, xs) == Chain(step, xs[..k])
    decreases |xs| - k
  {
    if k < |xs| {
      assert xs[..|xs| - 1][..k] == xs[..k];
      FailureIsFinal(step, xs[..|xs| - 1], k);
    } else {
      assert xs[..k] == xs;
    }
  }

  /**
   * A run that threw stopped at a first failing element `i`: the elements
   * before it completed and their commands stay issued (nothing is undone),
   * the failing one contributed its own commands up to its failure, and no
   * later element did anything.
   */
  lemma {:induction false} FirstFailure<T>(step: T -> Plan, xs: seq<T>) returns (i: nat)
    requires Chain(step, xs).outcome.Failed?
    ensures i < |xs|
    ensures Chain(step, xs[..i]).outcome == Completed
    ensures step(xs[i]).outcome.Failed?
    ensures Chain(step, xs) == Then(Chain(step, xs[..i]), step(xs[i]))
  {
    var init := xs[..|xs| - 1];
    if Chain(step, init).outcome.Failed? {
      i := FirstFailure(step, init);
      assert init[..i] == xs[..i];
      assert init[i] == xs[i];
      FailureIsFinal(step, xs, |xs| - 1);
    } else {
      i := |xs| - 1;
    }
  }

  /** The step of every element of `xs` issues one command, or throws having issued none. */
  predicate SingleCommandSteps<T>(step: T -> Plan, xs: seq<T>)
  {
    forall j :: 0 <= j < |xs| ==>
      |step(xs[j]).commands| == (if step(xs[j]).outcome.Completed? then 1 else 0)
  }

  /**
   * With single-command steps, the `j`-th command issued is that of the `j`-th
   * element, and a failure is that of the element right after the issued ones.
   */
  lemma {:induction false} SingleCommandChain<T>(step: T -> Plan, xs: seq<T>)
    requires SingleCommandSteps(step, xs)
    ensures var p := Chain(step, xs);
      && |p.commands| <= |xs|
      && (forall j :: 0 <= j < |p.commands| ==> step(xs[j]) == Plan([p.commands[j]], Completed))
      && (p.outcome == Completed <==> |p.commands| == |xs|)
      && (p.outcome.Failed? ==> step(xs[|p.commands|]).outcome == p.outcome)
  {
    if |xs| > 0 {
      var init, last := xs[..|xs| - 1], xs[|xs| - 1];
      assert forall j :: 0 <= j < |init| ==> init[j] == xs[j];
      SingleCommandChain(step, init);
      var pi := Chain(step, init);
      if pi.outcome.Completed? {
        var s := step(last);
        if s.outcome.Completed? {
          assert s == Plan([s.commands[0]], Completed);
        } else {
          assert pi.commands + s.commands == pi.commands;
        }
      }
    }
  }
}
