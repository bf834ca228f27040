/** What a whole job can spend in pull ladders, one after the other, against the
    per-ladder check of `scripts/check_ci_workflow_resilience.py`: the sum over the
    job's steps and over everything they call, when the calls form no cycle. */
module JobTotals {
  import opened Prelude
  import opened CallGraph
  import opened PullLadders

  // ---------- what a call executes ----------

  type Bodies = map<string, seq<Step>>

  /** The steps of each directory's action; the last file of a directory stands. */
  function BodiesOf(actions: seq<Action>): Bodies {
    if actions == [] then map[]
    else
      var last := actions[|actions| - 1];
      BodiesOf(actions[..|actions| - 1])[last.directory := last.steps]
  }

  /** `rank` falls along every call. */
  ghost predicate Acyclic(bodies: Bodies, rank: string -> nat) {
    forall a :: a in bodies ==> CallsBelow(bodies[a], rank, rank(a))
  }

  predicate CallsBelow(steps: seq<Step>, rank: string -> nat, bound: nat) {
    forall i :: 0 <= i < |steps| && steps[i].Call? ==> rank(steps[i].directory) < bound
  }

  // ---------- runs of a job ----------

  /** What executing one step did: a ladder run, the steps of a called action, or
      something that pulls nothing. */
  datatype Work = Ladder(run: seq<Attempt>) | Nested(works: seq<Work>) | Other(ok: bool)

  predicate Ok(w: Work) {
    match w
    case Ladder(run) => LastSucceeded(run)
    case Nested(works) => works == [] || Ok(works[|works| - 1])
    case Other(ok) => ok
  }

  predicate AllOk(works: seq<Work>)
    decreases works, 0
  {
    forall i :: 0 <= i < |works| ==> WholeOk(works[i])
  }

  /** Nothing in it failed. */
  predicate WholeOk(w: Work)
    decreases w, 1
  {
    Ok(w) && (w.Nested? ==> AllOk(w.works))
  }

  /** Nothing failed in a ladder that ended well, and in steps none of which failed. */
  lemma NothingFailedIff(run: seq<Attempt>, works: seq<Work>)
    ensures WholeOk(Ladder(run)) <==> LastSucceeded(run)
    ensures WholeOk(Nested(works)) <==> forall i :: 0 <= i < |works| ==> WholeOk(works[i])
  {
    if AllOk(works) {
      assert works != [] ==> WholeOk(works[|works| - 1]);
    }
  }

  /** An execution of a list of steps: each step in order; after a failed one it may
      stop, or go on where the failure is tolerated. */
  ghost predicate RunsSteps(works: seq<Work>, steps: seq<Step>, bodies: Bodies, d: Defaults)
    decreases works, 0
  {
    && |works| <= |steps|
    && (|works| < |steps| ==> works != [] && !Ok(works[|works| - 1]))
    && forall i :: 0 <= i < |works| ==> RunsOne(works[i], steps[i], bodies, d)
  }

  ghost predicate RunsOne(w: Work, step: Step, bodies: Bodies, d: Defaults)
    decreases w, 1
  {
    match w
    case Ladder(run) => RunsStep(run, step, d)
    case Nested(works) => step.Call? && step.directory in bodies && RunsSteps(works, bodies[step.directory], bodies, d)
    case Other(_) => step.Plain? || (step.Call? && step.directory !in bodies)
  }

  function Seconds(works: seq<Work>): nat
    decreases works, 0
  {
    if works == [] then 0 else Seconds(works[..|works| - 1]) + WorkSeconds(works[|works| - 1])
  }

  function WorkSeconds(w: Work): nat
    decreases w, 1
  {
    match w
    case Ladder(run) => Duration(run)
    case Nested(works) => Seconds(works)
    case Other(_) => 0
  }

  // ---------- the sum ----------

  /** The worst cases of all ladders the steps run, one after the other. */
  function Total(steps: seq<Step>, bodies: Bodies, rank: string -> nat, d: Defaults, bound: nat): nat
    requires ValidDefaults(d) && Acyclic(bodies, rank) && CallsBelow(steps, rank, bound)
    decreases bound, |steps|
  {
    if steps == [] then 0
    else
      var k := |steps| - 1;
      Total(steps[..k], bodies, rank, d, bound) + StepTotal(steps[k], bodies, rank, d)
  }

  function StepTotal(step: Step, bodies: Bodies, rank: string -> nat, d: Defaults): nat
    requires ValidDefaults(d) && Acyclic(bodies, rank)
    decreases if step.Call? then rank(step.directory) + 1 else 0, 0
  {
    match step
    case Pull(_, _) => StepLadderSeconds(step, d).value
    case Call(a) => if a in bodies then Total(bodies[a], bodies, rank, d, rank(a)) else 0
    case Plain => 0
  }

  // ---------- no run exceeds the sum ----------

  ghost predicate RunsPrefix(works: seq<Work>, steps: seq<Step>, bodies: Bodies, d: Defaults) {
    |works| <= |steps| && forall i :: 0 <= i < |works| ==> RunsOne(works[i], steps[i], bodies, d)
  }

  lemma ShorterPrefix(works: seq<Work>, steps: seq<Step>, bodies: Bodies, d: Defaults)
    requires RunsPrefix(works, steps, bodies, d) && steps != []
    ensures |works| < |steps| ==> RunsPrefix(works, steps[..|steps| - 1], bodies, d)
    ensures |works| == |steps| ==> RunsPrefix(works[..|works| - 1], steps[..|steps| - 1], bodies, d)
    ensures |works| == |steps| ==> RunsOne(works[|works| - 1], steps[|steps| - 1], bodies, d)
  {
  }

  lemma {:induction false} RunIsWithinTotal(works: seq<Work>, steps: seq<Step>, bodies: Bodies, rank: string -> nat,
                                            d: Defaults, bound: nat)
    requires ValidDefaults(d) && Acyclic(bodies, rank) && CallsBelow(steps, rank, bound)
    requires RunsPrefix(works, steps, bodies, d)
    ensures Seconds(works) <= Total(steps, bodies, rank, d, bound)
    decreases works, |steps|, 0
  {
    if steps != [] {
      var k := |steps| - 1;
      ShorterPrefix(works, steps, bodies, d);
      if |works| <= k {
        RunIsWithinTotal(works, steps[..k], bodies, rank, d, bound);
      } else {
        RunIsWithinTotal(works[..k], steps[..k], bodies, rank, d, bound);
        WorkIsWithinTotal(works[k], steps[k], bodies, rank, d);
      }
    }
  }

  lemma {:induction false} WorkIsWithinTotal(w: Work, step: Step, bodies: Bodies, rank: string -> nat, d: Defaults)
    requires ValidDefaults(d) && Acyclic(bodies, rank) && RunsOne(w, step, bodies, d)
    ensures WorkSeconds(w) <= StepTotal(step, bodies, rank, d)
    decreases w, 0, 0
  {
    match w
    case Ladder(run) => StepRunsReachCost(step, d);
    case Nested(works) => RunIsWithinTotal(works, bodies[step.directory], bodies, rank, d, rank(step.directory));
    case Other(_) =>
  }

  // ---------- the sum is attained, with nothing failing ----------

  function Longest(steps: seq<Step>, bodies: Bodies, rank: string -> nat, d: Defaults, bound: nat): (works: seq<Work>)
    requires ValidDefaults(d) && Acyclic(bodies, rank) && CallsBelow(steps, rank, bound)
    ensures |works| == |steps|
    decreases bound, |steps|
  {
    if steps == [] then []
    else
      var k := |steps| - 1;
      Longest(steps[..k], bodies, rank, d, bound) + [LongestWork(steps[k], bodies, rank, d)]
  }

  function LongestWork(step: Step, bodies: Bodies, rank: string -> nat, d: Defaults): Work
    requires ValidDefaults(d) && Acyclic(bodies, rank)
    decreases if step.Call? then rank(step.directory) + 1 else 0, 0
  {
    match step
    case Pull(n, t) => Ladder(Exhausting(PositiveInt(n, d.attempts), PositiveInt(t, d.pullTimeout), true))
    case Call(a) => if a in bodies then Nested(Longest(bodies[a], bodies, rank, d, rank(a))) else Other(true)
    case Plain => Other(true)
  }

  ghost predicate IsLongest(works: seq<Work>, steps: seq<Step>, bodies: Bodies, d: Defaults, total: nat) {
    RunsSteps(works, steps, bodies, d) && AllOk(works) && Seconds(works) == total
  }

  lemma {:induction false} LongestAttainsTotal(steps: seq<Step>, bodies: Bodies, rank: string -> nat, d: Defaults, bound: nat)
    requires ValidDefaults(d) && Acyclic(bodies, rank) && CallsBelow(steps, rank, bound)
    ensures IsLongest(Longest(steps, bodies, rank, d, bound), steps, bodies, d, Total(steps, bodies, rank, d, bound))
    decreases bound, |steps|
  {
    if steps != [] {
      var k := |steps| - 1;
      LongestAttainsTotal(steps[..k], bodies, rank, d, bound);
      LongestWorkAttainsTotal(steps[k], bodies, rank, d);
      OneMoreLongest(Longest(steps[..k], bodies, rank, d, bound), LongestWork(steps[k], bodies, rank, d), steps, bodies, d);
    }
  }

  lemma {:induction false} LongestWorkAttainsTotal(step: Step, bodies: Bodies, rank: string -> nat, d: Defaults)
    requires ValidDefaults(d) && Acyclic(bodies, rank)
    ensures var w := LongestWork(step, bodies, rank, d);
            RunsOne(w, step, bodies, d) && WholeOk(w) && WorkSeconds(w) == StepTotal(step, bodies, rank, d)
    decreases if step.Call? then rank(step.directory) + 1 else 0, 0
  {
    match step
    case Pull(n, t) => ExhaustingIsWorst(PositiveInt(n, d.attempts), PositiveInt(t, d.pullTimeout), true);
    case Call(a) =>
      if a in bodies {
        LongestAttainsTotal(bodies[a], bodies, rank, d, rank(a));
        NestedIsOk(Longest(bodies[a], bodies, rank, d, rank(a)));
      }
    case Plain =>
  }

  lemma NestedIsOk(works: seq<Work>)
    requires AllOk(works)
    ensures WholeOk(Nested(works))
  {
    assert works != [] ==> WholeOk(works[|works| - 1]);
  }

  lemma OneMoreLongest(before: seq<Work>, w: Work, steps: seq<Step>, bodies: Bodies, d: Defaults)
    requires steps != [] && |before| + 1 == |steps|
    requires RunsSteps(before, steps[..|steps| - 1], bodies, d) && AllOk(before)
    requires RunsOne(w, steps[|steps| - 1], bodies, d) && WholeOk(w)
    ensures RunsSteps(before + [w], steps, bodies, d) && AllOk(before + [w])
    ensures Seconds(before + [w]) == Seconds(before) + WorkSeconds(w)
  {
    var works := before + [w];
    assert works[..|before|] == before;
    forall i | 0 <= i < |works| ensures RunsOne(works[i], steps[i], bodies, d) && WholeOk(works[i]) {
      assert i < |before| ==> works[i] == before[i];
    }
  }

  // ---------- whether a job fits ----------

  function JobTotal(job: Job, bodies: Bodies, rank: string -> nat, d: Defaults, bound: nat): nat
    requires ValidDefaults(d) && Acyclic(bodies, rank) && CallsBelow(job.steps, rank, bound)
  {
    Total(job.steps, bodies, rank, d, bound)
  }

  /** Every execution of the job keeps its ladders inside the budget if and only if
      their worst cases add up to less; and the sum is what a run spends in which no
      step ever fails. */
  lemma JobFitsIff(job: Job, bodies: Bodies, rank: string -> nat, d: Defaults, bound: nat)
    requires ValidDefaults(d) && Acyclic(bodies, rank) && CallsBelow(job.steps, rank, bound)
    ensures (forall works :: RunsSteps(works, job.steps, bodies, d) ==> Seconds(works) < Budget(job)) <==>
            JobTotal(job, bodies, rank, d, bound) < Budget(job)
    ensures exists works :: IsLongest(works, job.steps, bodies, d, JobTotal(job, bodies, rank, d, bound))
  {
    var total := JobTotal(job, bodies, rank, d, bound);
    LongestAttainsTotal(job.steps, bodies, rank, d, bound);
    assert RunsSteps(Longest(job.steps, bodies, rank, d, bound), job.steps, bodies, d);
    forall works | RunsSteps(works, job.steps, bodies, d) ensures Seconds(works) <= total {
      RunIsWithinTotal(works, job.steps, bodies, rank, d, bound);
    }
  }

  // ---------- what the per-ladder check does guarantee ----------

  /** How many ladders the steps run. */
  function Ladders(steps: seq<Step>, bodies: Bodies, rank: string -> nat, bound: nat): nat
    requires Acyclic(bodies, rank) && CallsBelow(steps, rank, bound)
    decreases bound, |steps|
  {
    if steps == [] then 0
    else
      var k := |steps| - 1;
      Ladders(steps[..k], bodies, rank, bound) + StepLadders(steps[k], bodies, rank)
  }

  function StepLadders(step: Step, bodies: Bodies, rank: string -> nat): nat
    requires Acyclic(bodies, rank)
    decreases if step.Call? then rank(step.directory) + 1 else 0, 0
  {
    match step
    case Pull(_, _) => 1
    case Call(a) => if a in bodies then Ladders(bodies[a], bodies, rank, rank(a)) else 0
    case Plain => 0
  }

  lemma {:induction false} BodyIsLastFile(actions: seq<Action>, a: string) returns (k: nat)
    requires a in BodiesOf(actions)
    ensures k < |actions| && actions[k].directory == a && actions[k].steps == BodiesOf(actions)[a]
    ensures forall m :: k < m < |actions| ==> actions[m].directory != a
    ensures a in ActionCalls(actions) && ActionCalls(actions)[a] == Targets(actions[k].steps)
  {
    var last := |actions| - 1;
    if actions[last].directory == a {
      k := last;
    } else {
      k := BodyIsLastFile(actions[..last], a);
    }
  }

  lemma {:induction false} LastFileIsBody(actions: seq<Action>, k: int, a: string)
    requires IsLastFile(actions, k, a)
    ensures a in BodiesOf(actions) && BodiesOf(actions)[a] == actions[k].steps
  {
    var last := |actions| - 1;
    if k < last {
      assert IsLastFile(actions[..last], k, a);
      LastFileIsBody(actions[..last], k, a);
    }
  }

  /** A pull step runs one ladder, and a call what the called steps run. */
  lemma LaddersOneByOne(step: Step, bodies: Bodies, rank: string -> nat, bound: nat)
    requires Acyclic(bodies, rank) && CallsBelow([step], rank, bound)
    ensures Ladders([step], bodies, rank, bound) ==
            if step.Pull? then 1
            else if step.Call? && step.directory in bodies then Ladders(bodies[step.directory], bodies, rank, rank(step.directory))
            else 0
  {
    assert [step][..0] == [];
  }

  /** A ladder of this worst case stands in the action of a directory that `a` reaches. */
  ghost predicate LadderBelow(actions: seq<Action>, d: Defaults, a: string, seconds: nat, t: string, j: nat)
    requires ValidDefaults(d)
  {
    && t in BodiesOf(actions) && j < |BodiesOf(actions)[t]| && StepLadderSeconds(BodiesOf(actions)[t][j], d) == Some(seconds)
    && Reaches(ActionCalls(actions), a, t)
  }

  ghost predicate LadderOfStep(step: Step, actions: seq<Action>, d: Defaults, seconds: nat)
    requires ValidDefaults(d)
  {
    || StepLadderSeconds(step, d) == Some(seconds)
    || (step.Call? && exists t: string, j: nat :: LadderBelow(actions, d, step.directory, seconds, t, j))
  }

  ghost predicate HasLadderIn(steps: seq<Step>, actions: seq<Action>, d: Defaults, seconds: nat)
    requires ValidDefaults(d)
  {
    exists i :: 0 <= i < |steps| && LadderOfStep(steps[i], actions, d, seconds)
  }

  lemma LadderOfBody(actions: seq<Action>, d: Defaults, a: string, seconds: nat)
    requires ValidDefaults(d) && a in BodiesOf(actions) && HasLadderIn(BodiesOf(actions)[a], actions, d, seconds)
    ensures LadderOfStep(Call(a), actions, d, seconds)
  {
    var k := BodyIsLastFile(actions, a);
    var steps := actions[k].steps;
    var i :| 0 <= i < |steps| && LadderOfStep(steps[i], actions, d, seconds);
    if steps[i].Pull? {
      ReachesItself(ActionCalls(actions), a);
      assert LadderBelow(actions, d, a, seconds, a, i);
    } else {
      var t: string, j: nat :| LadderBelow(actions, d, steps[i].directory, seconds, t, j);
      assert steps[i].directory in Targets(steps);
      ReachesThrough(ActionCalls(actions), a, steps[i].directory, t);
      assert LadderBelow(actions, d, a, seconds, t, j);
    }
  }

  /** Steps that run no ladder cost nothing; steps that run one cost what it does. */
  lemma {:induction false} AtMostOneLadder(steps: seq<Step>, actions: seq<Action>, rank: string -> nat, d: Defaults, bound: nat)
    requires ValidDefaults(d) && Acyclic(BodiesOf(actions), rank) && CallsBelow(steps, rank, bound)
    ensures Ladders(steps, BodiesOf(actions), rank, bound) == 0 ==> Total(steps, BodiesOf(actions), rank, d, bound) == 0
    ensures Ladders(steps, BodiesOf(actions), rank, bound) == 1 ==>
              HasLadderIn(steps, actions, d, Total(steps, BodiesOf(actions), rank, d, bound))
    decreases bound, |steps|
  {
    if steps != [] {
      var k, bodies := |steps| - 1, BodiesOf(actions);
      AtMostOneLadder(steps[..k], actions, rank, d, bound);
      StepHasAtMostOne(steps[k], actions, rank, d);
      if Ladders(steps[..k], bodies, rank, bound) == 1 {
        EarlierLadder(steps, k, actions, d, Total(steps[..k], bodies, rank, d, bound));
      } else if StepLadders(steps[k], bodies, rank) == 1 {
        assert LadderOfStep(steps[k], actions, d, StepTotal(steps[k], bodies, rank, d));
      }
    }
  }

  lemma EarlierLadder(steps: seq<Step>, k: nat, actions: seq<Action>, d: Defaults, seconds: nat)
    requires ValidDefaults(d) && k <= |steps| && HasLadderIn(steps[..k], actions, d, seconds)
    ensures HasLadderIn(steps, actions, d, seconds)
  {
    var i :| 0 <= i < k && LadderOfStep(steps[..k][i], actions, d, seconds);
    assert LadderOfStep(steps[i], actions, d, seconds);
  }

  lemma {:induction false} StepHasAtMostOne(step: Step, actions: seq<Action>, rank: string -> nat, d: Defaults)
    requires ValidDefaults(d) && Acyclic(BodiesOf(actions), rank)
    ensures StepLadders(step, BodiesOf(actions), rank) == 0 ==> StepTotal(step, BodiesOf(actions), rank, d) == 0
    ensures StepLadders(step, BodiesOf(actions), rank) == 1 ==>
              LadderOfStep(step, actions, d, StepTotal(step, BodiesOf(actions), rank, d))
    decreases if step.Call? then rank(step.directory) + 1 else 0, 0
  {
    if step.Call? && step.directory in BodiesOf(actions) {
      var bodies, a := BodiesOf(actions), step.directory;
      AtMostOneLadder(bodies[a], actions, rank, d, rank(a));
      if StepLadders(step, bodies, rank) == 1 {
        LadderOfBody(actions, d, a, Total(bodies[a], bodies, rank, d, rank(a)));
      }
    }
  }

  lemma FacedLadder(job: Job, actions: seq<Action>, d: Defaults, seconds: nat)
    requires ValidDefaults(d) && HasLadderIn(job.steps, actions, d, seconds)
    ensures exists run :: Faces(job, actions, d, run) && Duration(run) == seconds
  {
    var i :| 0 <= i < |job.steps| && LadderOfStep(job.steps[i], actions, d, seconds);
    var run := FacedByStep(job.steps[i], actions, d, seconds);
  }

  lemma FacedByStep(step: Step, actions: seq<Action>, d: Defaults, seconds: nat) returns (run: seq<Attempt>)
    requires ValidDefaults(d) && LadderOfStep(step, actions, d, seconds)
    ensures StepFaces(step, actions, d, run) && Duration(run) == seconds
  {
    if step.Pull? {
      StepRunsReachCost(step, d);
      run :| RunsStep(run, step, d) && Duration(run) == seconds;
    } else {
      var t: string, j: nat :| LadderBelow(actions, d, step.directory, seconds, t, j);
      var k := BodyIsLastFile(actions, t);
      StepRunsReachCost(actions[k].steps[j], d);
      run :| RunsStep(run, actions[k].steps[j], d) && Duration(run) == seconds;
      assert NestedFaces(step.directory, actions, d, run, k, j);
    }
  }

  /** A job the check is silent about, and that runs at most one ladder, spends less
      than its budget on pulling in every execution. */
  lemma SilentJobWithOneLadderFits(job: Job, actions: seq<Action>, rank: string -> nat, d: Defaults, bound: nat, works: seq<Work>)
    requires ValidDefaults(d) && Acyclic(BodiesOf(actions), rank) && CallsBelow(job.steps, rank, bound)
    requires forall run :: Faces(job, actions, d, run) ==> Duration(run) < Budget(job)
    requires Ladders(job.steps, BodiesOf(actions), rank, bound) <= 1
    requires RunsSteps(works, job.steps, BodiesOf(actions), d)
    ensures Seconds(works) < Budget(job) || Seconds(works) == 0
  {
    var bodies := BodiesOf(actions);
    var total := Total(job.steps, bodies, rank, d, bound);
    RunIsWithinTotal(works, job.steps, bodies, rank, d, bound);
    AtMostOneLadder(job.steps, actions, rank, d, bound);
    if Ladders(job.steps, bodies, rank, bound) == 1 {
      FacedLadder(job, actions, d, total);
    }
  }

  /** With two ladders it need not: any two whose worst cases are each below a budget
      that their sum reaches make a silent job that can be reaped mid-retry. */
  lemma TwoLaddersCanOverrun(a: Step, b: Step, minutes: nat, d: Defaults)
    requires ValidDefaults(d) && a.Pull? && b.Pull? && minutes > 0
    requires var budget := SECONDS_PER_MINUTE * minutes;
             && StepLadderSeconds(a, d).value < budget && StepLadderSeconds(b, d).value < budget
             && budget <= StepLadderSeconds(a, d).value + StepLadderSeconds(b, d).value
    ensures var job := Job([a, b], Some(minutes));
            && (forall run :: Faces(job, [], d, run) ==> Duration(run) < Budget(job))
            && exists works :: RunsSteps(works, job.steps, map[], d) && AllOk(works) && Seconds(works) >= Budget(job)
  {
    var job, rank := Job([a, b], Some(minutes)), (s: string) => 0;
    StepRunsReachCost(a, d);
    StepRunsReachCost(b, d);
    PairTotal(a, b, map[], rank, d, 0);
    JobFitsIff(job, map[], rank, d, 0);
    var works :| IsLongest(works, job.steps, map[], d, JobTotal(job, map[], rank, d, 0));
  }

  lemma PairTotal(a: Step, b: Step, bodies: Bodies, rank: string -> nat, d: Defaults, bound: nat)
    requires ValidDefaults(d) && Acyclic(bodies, rank) && CallsBelow([a, b], rank, bound)
    ensures Total([a, b], bodies, rank, d, bound) == StepTotal(a, bodies, rank, d) + StepTotal(b, bodies, rank, d)
  {
    assert [a, b][..1] == [a] && [a][..0] == [];
    assert Total([a], bodies, rank, d, bound) == Total([a][..0], bodies, rank, d, bound) + StepTotal(a, bodies, rank, d);
  }

  /** The pull action's own defaults do so in a ten-minute job. */
  lemma DefaultLaddersCanOverrun()
    ensures var d := Defaults(3, 60);
            var job := Job([Pull(None, None), Pull(None, None)], Some(10));
            && (forall run :: Faces(job, [], d, run) ==> Duration(run) < Budget(job))
            && exists works :: RunsSteps(works, job.steps, map[], d) && AllOk(works) && Seconds(works) >= Budget(job)
  {
    assert Pow2(2) == 2 * Pow2(1) && Pow2(1) == 2 * Pow2(0);
    TwoLaddersCanOverrun(Pull(None, None), Pull(None, None), 10, Defaults(3, 60));
  }
}
