/** Worst-case arithmetic for the resilient-pull ladder, its propagation through
    the composite call graph, and the budget check that relies on both
    (`scripts/check_ci_workflow_resilience.py`). */
module PullLadders {
  import opened Prelude
  import opened CallGraph

  const REGISTRIES_PER_ATTEMPT := 2
  const BACKOFF_BASE_SECONDS := 10
  const SECONDS_PER_MINUTE := 60
  const PULL_ACTION_DIR := ".github/actions/docker-pull-resilient"

  function Pow2(n: nat): (p: nat)
    ensures p > 0
  {
    if n == 0 then 1 else 2 * Pow2(n - 1)
  }

  function LadderWorstCaseSeconds(attempts: nat, pullTimeout: nat): nat
    requires attempts > 0
  {
    REGISTRIES_PER_ATTEMPT * (attempts * pullTimeout) + BACKOFF_BASE_SECONDS * (Pow2(attempts - 1) - 1)
  }

  /** One attempt pays its pull at both registries; each further one does so again, after
      a wait that starts at ten seconds and doubles. */
  lemma OneMoreAttempt(attempts: nat, pullTimeout: nat)
    requires attempts > 0
    ensures LadderWorstCaseSeconds(1, pullTimeout) == 2 * pullTimeout
    ensures LadderWorstCaseSeconds(2, pullTimeout) == 4 * pullTimeout + 10
    ensures LadderWorstCaseSeconds(attempts + 2, pullTimeout) - LadderWorstCaseSeconds(attempts + 1, pullTimeout) - 2 * pullTimeout ==
            2 * (LadderWorstCaseSeconds(attempts + 1, pullTimeout) - LadderWorstCaseSeconds(attempts, pullTimeout) - 2 * pullTimeout)
  {
    assert Pow2(attempts + 1) == 2 * Pow2(attempts) == 4 * Pow2(attempts - 1);
    assert (attempts + 1) * pullTimeout == attempts * pullTimeout + pullTimeout;
    assert (attempts + 2) * pullTimeout == attempts * pullTimeout + 2 * pullTimeout;
  }

  /** The worst case as the pull action describes it. */
  function DescribedWorstCaseSeconds(attempts: nat, pullTimeout: nat): nat {
    REGISTRIES_PER_ATTEMPT * (attempts * pullTimeout) + BACKOFF_BASE_SECONDS * (Pow2(attempts) - 1)
  }

  // ---------- executions of one ladder ----------

  /** One attempt: Docker Hub first, the mirror only when that failed. */
  datatype Attempt = Attempt(hubSeconds: nat, hubOk: bool, mirrorSeconds: nat, mirrorOk: bool)

  predicate Succeeded(a: Attempt) {
    a.hubOk || a.mirrorOk
  }

  /** The ladder stops at the first success or after its last attempt; every pull
      is cut at the timeout. */
  predicate IsLadderRun(run: seq<Attempt>, attempts: nat, pullTimeout: nat) {
    && 0 < |run| <= attempts
    && (forall i :: 0 <= i < |run| ==> run[i].hubSeconds <= pullTimeout && run[i].mirrorSeconds <= pullTimeout)
    && (forall i :: 0 <= i < |run| - 1 ==> !Succeeded(run[i]))
    && (Succeeded(run[|run| - 1]) || |run| == attempts)
  }

  /** A run ends with its first success and not before its last attempt otherwise. */
  lemma RunEndsWithSuccess(run: seq<Attempt>, attempts: nat, pullTimeout: nat, i: nat)
    requires IsLadderRun(run, attempts, pullTimeout) && i < |run|
    ensures run[i].hubOk || run[i].mirrorOk ==> i == |run| - 1
    ensures !run[i].hubOk && !run[i].mirrorOk && i == |run| - 1 ==> |run| == attempts
  {
  }

  function AttemptSeconds(a: Attempt): nat {
    a.hubSeconds + if a.hubOk then 0 else a.mirrorSeconds
  }

  /** Attempt `k` (from zero) is followed by a wait of `10 * 2^k` unless it is the last. */
  function DurationFrom(run: seq<Attempt>, k: nat): nat {
    if run == [] then 0
    else AttemptSeconds(run[0]) + (if |run| == 1 then 0 else BACKOFF_BASE_SECONDS * Pow2(k)) + DurationFrom(run[1..], k + 1)
  }

  function Duration(run: seq<Attempt>): nat {
    DurationFrom(run, 0)
  }

  /** Docker Hub answering the first attempt ends the run and spares the mirror. */
  lemma HubAnswersAtOnce(run: seq<Attempt>, attempts: nat, pullTimeout: nat)
    requires IsLadderRun(run, attempts, pullTimeout) && run[0].hubOk
    ensures Duration(run) == run[0].hubSeconds
  {
    RunEndsWithSuccess(run, attempts, pullTimeout, 0);
    assert DurationFrom(run[1..], 1) == 0;
  }

  /** What the attempts of a run from number `k` on can take at most. */
  function BoundFrom(n: nat, k: nat, t: nat): int
    requires n > 0
  {
    2 * (n * t) + BACKOFF_BASE_SECONDS * (Pow2(k + n - 1) - Pow2(k))
  }

  lemma BoundStep(n: nat, k: nat, t: nat)
    requires n > 1
    ensures BoundFrom(n, k, t) == 2 * t + BACKOFF_BASE_SECONDS * Pow2(k) + BoundFrom(n - 1, k + 1, t)
  {
    assert n * t == (n - 1) * t + t;
    assert Pow2(k + 1) == 2 * Pow2(k);
  }

  lemma {:induction false} DurationBound(run: seq<Attempt>, k: nat, t: nat)
    requires run != []
    requires forall i :: 0 <= i < |run| ==> run[i].hubSeconds <= t && run[i].mirrorSeconds <= t
    ensures DurationFrom(run, k) <= BoundFrom(|run|, k, t)
  {
    assert AttemptSeconds(run[0]) <= 2 * t;
    if |run| > 1 {
      DurationBound(run[1..], k + 1, t);
      BoundStep(|run|, k, t);
    } else {
      assert DurationFrom(run[1..], k + 1) == 0;
    }
  }

  lemma {:induction false} Pow2Monotone(a: nat, b: nat)
    requires a <= b
    ensures Pow2(a) <= Pow2(b)
  {
    if a < b {
      Pow2Monotone(a, b - 1);
    }
  }

  /** The longest run: every pull fails at its timeout, but perhaps the very last. */
  function Exhausting(n: nat, t: nat, lastOk: bool): seq<Attempt> {
    seq(n, i => Attempt(t, false, t, i == n - 1 && lastOk))
  }

  lemma {:induction false} ExhaustingDuration(n: nat, k: nat, t: nat, lastOk: bool)
    requires n > 0
    ensures DurationFrom(Exhausting(n, t, lastOk), k) == BoundFrom(n, k, t)
  {
    var run := Exhausting(n, t, lastOk);
    if n > 1 {
      assert run[1..] == Exhausting(n - 1, t, lastOk);
      ExhaustingDuration(n - 1, k + 1, t, lastOk);
      BoundStep(n, k, t);
    } else {
      assert run[1..] == [] && DurationFrom(run[1..], k + 1) == 0;
    }
  }

  predicate LastSucceeded(run: seq<Attempt>) {
    run != [] && Succeeded(run[|run| - 1])
  }

  /** The longest run lasts the worst case, whether its last attempt succeeds or not. */
  lemma ExhaustingIsWorst(attempts: nat, t: nat, lastOk: bool)
    requires attempts > 0
    ensures var run := Exhausting(attempts, t, lastOk);
            && IsLadderRun(run, attempts, t) && LastSucceeded(run) == lastOk
            && Duration(run) == LadderWorstCaseSeconds(attempts, t)
  {
    ExhaustingDuration(attempts, 0, t, lastOk);
  }

  lemma TimesMonotone(a: nat, b: nat, t: nat)
    requires a <= b
    ensures a * t <= b * t
  {
  }

  /** The formula is the exact maximum over all executions of the ladder. */
  lemma WorstCaseIsAttainedMaximum(attempts: nat, pullTimeout: nat)
    requires attempts > 0
    ensures forall run :: IsLadderRun(run, attempts, pullTimeout) ==>
              Duration(run) <= LadderWorstCaseSeconds(attempts, pullTimeout)
    ensures exists run :: IsLadderRun(run, attempts, pullTimeout) &&
              Duration(run) == LadderWorstCaseSeconds(attempts, pullTimeout)
  {
    forall run | IsLadderRun(run, attempts, pullTimeout)
      ensures Duration(run) <= LadderWorstCaseSeconds(attempts, pullTimeout)
    {
      DurationBound(run, 0, pullTimeout);
      Pow2Monotone(|run| - 1, attempts - 1);
      TimesMonotone(|run|, attempts, pullTimeout);
    }
    ExhaustingIsWorst(attempts, pullTimeout, false);
  }

  /** The pull action describes a longer backoff than it performs: every run stays the
      last, never performed wait below the described worst case, and some run by
      exactly that. */
  lemma DescriptionExceedsEveryRun(attempts: nat, pullTimeout: nat)
    requires attempts > 0
    ensures forall run :: IsLadderRun(run, attempts, pullTimeout) ==>
              Duration(run) + BACKOFF_BASE_SECONDS * Pow2(attempts - 1) <= DescribedWorstCaseSeconds(attempts, pullTimeout)
    ensures exists run :: IsLadderRun(run, attempts, pullTimeout) &&
              Duration(run) + BACKOFF_BASE_SECONDS * Pow2(attempts - 1) == DescribedWorstCaseSeconds(attempts, pullTimeout)
  {
    WorstCaseIsAttainedMaximum(attempts, pullTimeout);
    assert Pow2(attempts) == 2 * Pow2(attempts - 1);
  }

  // ---------- parsed actions ----------

  /** A step, as far as ladders are concerned. The inputs of a pull step are the
      integers its `with:` spells, `None` when absent or not an integer. */
  datatype Step =
    | Pull(attempts: Option<int>, pullTimeout: Option<int>)
    | Call(directory: string)
    | Plain

  datatype Action = Action(directory: string, steps: seq<Step>)

  /** The pull action's declared `attempts` and `pull-timeout-seconds`. */
  datatype Defaults = Defaults(attempts: nat, pullTimeout: nat)

  predicate ValidDefaults(d: Defaults) {
    d.attempts > 0 && d.pullTimeout > 0
  }

  function PositiveInt(value: Option<int>, fallback: nat): (n: nat)
    ensures fallback > 0 ==> n > 0
  {
    if value.Some? && value.value > 0 then value.value else fallback
  }

  /** The defaults read off the action's own inputs, one second and one attempt when
      those cannot be read. */
  function PullActionDefaults(attempts: Option<int>, pullTimeout: Option<int>): (d: Defaults)
    ensures ValidDefaults(d)
  {
    Defaults(PositiveInt(attempts, 1), PositiveInt(pullTimeout, 1))
  }

  function StepLadderSeconds(step: Step, d: Defaults): Option<nat>
    requires ValidDefaults(d)
  {
    if step.Pull?
    then Some(LadderWorstCaseSeconds(PositiveInt(step.attempts, d.attempts), PositiveInt(step.pullTimeout, d.pullTimeout)))
    else None
  }

  /** `run` is an execution of the ladder `step` stands for. */
  ghost predicate RunsStep(run: seq<Attempt>, step: Step, d: Defaults) {
    step.Pull? && IsLadderRun(run, PositiveInt(step.attempts, d.attempts), PositiveInt(step.pullTimeout, d.pullTimeout))
  }

  /** An input that spells a positive integer is taken as it is; for any other the
      action's default stands, for each input on its own. */
  lemma PullRunsAsSpelled(run: seq<Attempt>, n: nat, t: nat, given: Option<int>, other: Option<int>, d: Defaults)
    requires n > 0 && t > 0 && (given == None || given.value <= 0) && (other == None || other.value <= 0)
    ensures RunsStep(run, Pull(Some(n), Some(t)), d) <==> IsLadderRun(run, n, t)
    ensures RunsStep(run, Pull(Some(n), other), d) <==> IsLadderRun(run, n, d.pullTimeout)
    ensures RunsStep(run, Pull(given, Some(t)), d) <==> IsLadderRun(run, d.attempts, t)
    ensures RunsStep(run, Pull(given, other), d) <==> IsLadderRun(run, d.attempts, d.pullTimeout)
  {
  }

  /** The defaults are the action's own inputs, and one where one cannot be read. */
  lemma DefaultsAsDeclared(n: nat, t: nat, unreadable: Option<int>)
    requires n > 0 && t > 0 && (unreadable == None || unreadable.value <= 0)
    ensures PullActionDefaults(Some(n), Some(t)) == Defaults(n, t)
    ensures PullActionDefaults(unreadable, Some(t)) == Defaults(1, t)
    ensures PullActionDefaults(Some(n), unreadable) == Defaults(n, 1)
  {
  }

  type Costs = map<string, nat>

  function CostOf(costs: Costs, directory: string): nat {
    if directory in costs then costs[directory] else 0
  }

  // ---------- direct costs ----------

  /** The local actions the steps use, the pull action among them. */
  function Targets(steps: seq<Step>): set<string> {
    (set i | 0 <= i < |steps| && steps[i].Call? :: steps[i].directory)
    + (if HasLadder(steps) then {PULL_ACTION_DIR} else {})
  }

  predicate HasLadder(steps: seq<Step>) {
    exists j :: 0 <= j < |steps| && steps[j].Pull?
  }

  function WorstStep(steps: seq<Step>, d: Defaults): (worst: nat)
    requires ValidDefaults(d)
    ensures forall i :: 0 <= i < |steps| && steps[i].Pull? ==> StepLadderSeconds(steps[i], d).value <= worst
    ensures worst > 0 ==> exists i :: 0 <= i < |steps| && steps[i].Pull? && StepLadderSeconds(steps[i], d).value == worst
  {
    if steps == [] then 0
    else
      var k := |steps| - 1;
      var before := WorstStep(steps[..k], d);
      var own := StepLadderSeconds(steps[k], d);
      if own.Some? && own.value > before then own.value else before
  }

  function ActionCalls(actions: seq<Action>): Graph {
    if actions == [] then map[]
    else
      var last := actions[|actions| - 1];
      ActionCalls(actions[..|actions| - 1])[last.directory := Targets(last.steps)]
  }

  function DirectCosts(actions: seq<Action>, d: Defaults): Costs
    requires ValidDefaults(d)
  {
    if actions == [] then map[]
    else
      var last := actions[|actions| - 1];
      var before := DirectCosts(actions[..|actions| - 1], d);
      if WorstStep(last.steps, d) > 0 then before[last.directory := WorstStep(last.steps, d)] else before
  }

  ghost predicate StepUses(step: Step, directory: string) {
    step == Call(directory) || (step.Pull? && directory == PULL_ACTION_DIR)
  }

  /** The file that decides what a directory calls: no later one is in the same place. */
  ghost predicate IsLastFile(actions: seq<Action>, k: int, a: string) {
    0 <= k < |actions| && actions[k].directory == a && forall m :: k < m < |actions| ==> actions[m].directory != a
  }

  lemma {:induction false} LastFileCalls(actions: seq<Action>, k: int, a: string)
    requires IsLastFile(actions, k, a)
    ensures a in ActionCalls(actions) && ActionCalls(actions)[a] == Targets(actions[k].steps)
  {
    var last := |actions| - 1;
    if k < last {
      assert IsLastFile(actions[..last], k, a);
      LastFileCalls(actions[..last], k, a);
    }
  }

  lemma {:induction false} CallerHasLastFile(actions: seq<Action>, a: string) returns (k: int)
    requires a in ActionCalls(actions)
    ensures IsLastFile(actions, k, a)
  {
    k := |actions| - 1;
    if actions[k].directory != a {
      k := CallerHasLastFile(actions[..k], a);
    }
  }

  /** One directory calls another exactly when its deciding file has a step using it. */
  lemma ActionCallsIffUsed(actions: seq<Action>, a: string, b: string)
    ensures Edge(ActionCalls(actions), a, b) <==>
            exists k, step :: IsLastFile(actions, k, a) && step in actions[k].steps && StepUses(step, b)
  {
    if a in ActionCalls(actions) {
      var k := CallerHasLastFile(actions, a);
      LastFileCalls(actions, k, a);
      if b in Targets(actions[k].steps) {
        var i :| 0 <= i < |actions[k].steps| && StepUses(actions[k].steps[i], b);
        assert actions[k].steps[i] in actions[k].steps;
      }
    }
    forall k, step | IsLastFile(actions, k, a) && step in actions[k].steps && StepUses(step, b)
      ensures Edge(ActionCalls(actions), a, b)
    {
      LastFileCalls(actions, k, a);
    }
  }

  /** The file a directory's direct cost is read off: a directory may hold both an
      `action.yaml` and an `action.yml`, and the last one with a ladder counts. */
  ghost predicate IsLastLadder(actions: seq<Action>, k: nat) {
    && k < |actions| && HasLadder(actions[k].steps)
    && forall m :: k < m < |actions| && actions[m].directory == actions[k].directory ==> !HasLadder(actions[m].steps)
  }

  lemma LadderHasWorst(steps: seq<Step>, d: Defaults)
    requires ValidDefaults(d)
    ensures WorstStep(steps, d) > 0 <==> HasLadder(steps)
  {
    if HasLadder(steps) {
      var j :| 0 <= j < |steps| && steps[j].Pull?;
      StepRunsReachCost(steps[j], d);
    }
  }

  lemma {:induction false} LastLadderCosts(actions: seq<Action>, d: Defaults, k: nat)
    requires ValidDefaults(d) && IsLastLadder(actions, k)
    ensures CostOf(DirectCosts(actions, d), actions[k].directory) == WorstStep(actions[k].steps, d)
  {
    var last := |actions| - 1;
    LadderHasWorst(actions[last].steps, d);
    if k < last {
      assert IsLastLadder(actions[..last], k);
      LastLadderCosts(actions[..last], d, k);
    }
  }

  lemma StillLastLadder(actions: seq<Action>, k: nat)
    requires actions != [] && IsLastLadder(actions[..|actions| - 1], k)
    requires actions[|actions| - 1].directory == actions[k].directory ==> !HasLadder(actions[|actions| - 1].steps)
    ensures IsLastLadder(actions, k)
  {
  }

  lemma {:induction false} CostlyAction(actions: seq<Action>, d: Defaults, t: string) returns (k: nat)
    requires ValidDefaults(d) && CostOf(DirectCosts(actions, d), t) > 0
    ensures IsLastLadder(actions, k) && actions[k].directory == t
  {
    var last := |actions| - 1;
    LadderHasWorst(actions[last].steps, d);
    if actions[last].directory == t && HasLadder(actions[last].steps) {
      k := last;
    } else {
      k := CostlyAction(actions[..last], d, t);
      StillLastLadder(actions, k);
    }
  }

  // ---------- the fixpoint ----------

  /** `worst` is the greatest initial cost among everything `directory` reaches. */
  ghost predicate IsWorstReachable(g: Graph, direct: Costs, directory: string, worst: nat) {
    && (forall t :: Reaches(g, directory, t) ==> CostOf(direct, t) <= worst)
    && Attained(g, direct, directory, worst)
  }

  ghost predicate WorstAt(g: Graph, direct: Costs, costs: Costs, d: string) {
    IsWorstReachable(g, direct, d, CostOf(costs, d))
  }

  /** The table gives every directory the greatest direct cost of all it reaches. */
  ghost predicate AreWorst(g: Graph, direct: Costs, costs: Costs) {
    && (forall d {:trigger WorstAt(g, direct, costs, d)} :: WorstAt(g, direct, costs, d))
    && forall d :: d in costs <==> d in direct || CostOf(costs, d) > 0
  }

  ghost predicate Attained(g: Graph, direct: Costs, d: string, worst: nat) {
    exists t :: Reaches(g, d, t) && CostOf(direct, t) == worst
  }

  ghost predicate SupportedAt(g: Graph, direct: Costs, costs: Costs, d: string) {
    d in costs ==> Attained(g, direct, d, costs[d])
  }

  /** Every cost is that of something reachable. */
  ghost predicate Supported(g: Graph, direct: Costs, costs: Costs) {
    forall d {:trigger SupportedAt(g, direct, costs, d)} :: SupportedAt(g, direct, costs, d)
  }

  ghost predicate Covers(direct: Costs, costs: Costs) {
    forall d :: CostOf(direct, d) <= CostOf(costs, d)
  }

  /** No call site is worse than its caller. */
  ghost predicate Settled(g: Graph, costs: Costs) {
    forall a, b :: Edge(g, a, b) ==> CostOf(costs, b) <= CostOf(costs, a)
  }

  ghost predicate Bounded(costs: Costs, bound: nat) {
    forall d :: CostOf(costs, d) <= bound
  }

  /** What is left to raise before every listed directory is at the bound. */
  ghost function Headroom(order: seq<string>, costs: Costs, bound: nat): nat
    requires Bounded(costs, bound)
  {
    if order == [] then 0 else bound - CostOf(costs, order[0]) + Headroom(order[1..], costs, bound)
  }

  lemma {:induction false} HeadroomShrinks(order: seq<string>, before: Costs, after: Costs, bound: nat, d: string)
    requires Bounded(before, bound) && Bounded(after, bound)
    requires forall x :: CostOf(before, x) <= CostOf(after, x)
    ensures Headroom(order, after, bound) <= Headroom(order, before, bound)
    ensures d in order && CostOf(before, d) < CostOf(after, d) ==> Headroom(order, after, bound) < Headroom(order, before, bound)
  {
    if order != [] {
      HeadroomShrinks(order[1..], before, after, bound, d);
    }
  }

  /** The greatest known cost among `targets`, `None` when none of them has one. */
  method WorstKnown(targets: set<string>, costs: Costs) returns (worst: Option<nat>)
    ensures forall t :: t in targets && t in costs ==> worst.Some? && costs[t] <= worst.value
    ensures worst.Some? ==> exists t :: t in targets && t in costs && costs[t] == worst.value
  {
    worst := None;
    var left := targets;
    while left != {}
      invariant left <= targets
      invariant forall t :: t in targets - left && t in costs ==> worst.Some? && costs[t] <= worst.value
      invariant worst.Some? ==> exists t :: t in targets && t in costs && costs[t] == worst.value
      decreases |left|
    {
      var t :| t in left;
      if t in costs && (worst.None? || costs[t] > worst.value) {
        worst := Some(costs[t]);
      }
      left := left - {t};
    }
  }

  /** What the passes keep. */
  ghost predicate InProgress(g: Graph, direct: Costs, costs: Costs, bound: nat) {
    && Supported(g, direct, costs) && Covers(direct, costs) && Bounded(costs, bound)
    && forall d :: d in costs <==> d in direct || CostOf(costs, d) > 0
  }

  lemma RaisingKeepsProgress(g: Graph, direct: Costs, costs: Costs, bound: nat, d: string, t: string)
    requires InProgress(g, direct, costs, bound)
    requires Edge(g, d, t) && t in costs && costs[t] > CostOf(costs, d)
    ensures InProgress(g, direct, costs[d := costs[t]], bound)
  {
    assert SupportedAt(g, direct, costs, t);
    var s :| Reaches(g, t, s) && CostOf(direct, s) == costs[t];
    ReachesThrough(g, d, t, s);
    var raised := costs[d := costs[t]];
    forall x ensures SupportedAt(g, direct, raised, x) {
      assert SupportedAt(g, direct, costs, x);
    }
    assert CostOf(costs, t) <= bound;
    forall x ensures CostOf(direct, x) <= CostOf(raised, x) <= bound {
      assert CostOf(direct, x) <= CostOf(costs, x) <= bound;
    }
  }

  /** Raises one caller to its worst call site, in place. */
  method RaiseOne(g: Graph, directory: string, ghost direct: Costs, before: Costs, ghost bound: nat)
    returns (costs: Costs, raised: bool)
    requires InProgress(g, direct, before, bound) && directory in g
    ensures InProgress(g, direct, costs, bound)
    ensures !raised ==> costs == before && forall b :: Edge(g, directory, b) ==> CostOf(costs, b) <= CostOf(costs, directory)
    ensures raised ==> costs.Keys == before.Keys + {directory} && CostOf(before, directory) < CostOf(costs, directory)
    ensures forall x :: CostOf(before, x) <= CostOf(costs, x)
  {
    costs, raised := before, false;
    var worst := WorstKnown(g[directory], costs);
    if worst.Some? && worst.value > CostOf(costs, directory) {
      ghost var t :| t in g[directory] && t in costs && costs[t] == worst.value;
      RaisingKeepsProgress(g, direct, costs, bound, directory, t);
      costs, raised := costs[directory := worst.value], true;
    }
  }

  /** One pass over the dictionary in its own order. */
  method CostPass(g: Graph, order: seq<string>, ghost direct: Costs, before: Costs, ghost bound: nat)
    returns (costs: Costs, settled: bool)
    requires forall d :: d in g <==> d in order
    requires InProgress(g, direct, before, bound)
    ensures InProgress(g, direct, costs, bound)
    ensures settled ==> Settled(g, costs)
    ensures !settled ==> Headroom(order, costs, bound) < Headroom(order, before, bound)
  {
    costs, settled := before, true;
    ghost var higher := "";
    for i := 0 to |order|
      invariant InProgress(g, direct, costs, bound)
      invariant forall x :: CostOf(before, x) <= CostOf(costs, x)
      invariant settled ==> costs == before
      invariant settled ==> forall j, b :: 0 <= j < i && Edge(g, order[j], b) ==> CostOf(costs, b) <= CostOf(costs, order[j])
      invariant !settled ==> higher in order && CostOf(before, higher) < CostOf(costs, higher)
    {
      var raised;
      costs, raised := RaiseOne(g, order[i], direct, costs, bound);
      if raised {
        settled, higher := false, order[i];
      }
    }
    if settled {
      forall a, b | Edge(g, a, b) ensures CostOf(costs, b) <= CostOf(costs, a) {
        var j :| 0 <= j < |order| && order[j] == a;
      }
    } else {
      HeadroomShrinks(order, before, costs, bound, higher);
    }
  }

  lemma {:induction false} SettledAlongWalk(g: Graph, costs: Costs, p: seq<string>)
    requires Settled(g, costs) && IsWalk(g, p)
    ensures CostOf(costs, p[|p| - 1]) <= CostOf(costs, p[0])
  {
    if |p| > 1 {
      SettledAlongWalk(g, costs, p[1..]);
    }
  }

  lemma SettledIsWorst(g: Graph, direct: Costs, costs: Costs, d: string)
    requires Supported(g, direct, costs) && Covers(direct, costs) && Settled(g, costs)
    ensures IsWorstReachable(g, direct, d, CostOf(costs, d))
  {
    forall t | Reaches(g, d, t) ensures CostOf(direct, t) <= CostOf(costs, d) {
      var p :| IsWalk(g, p) && p[0] == d && p[|p| - 1] == t;
      SettledAlongWalk(g, costs, p);
    }
    assert SupportedAt(g, direct, costs, d);
    if d !in costs {
      ReachesItself(g, d);
      assert CostOf(direct, d) <= CostOf(costs, d);
      assert Attained(g, direct, d, 0);
    }
  }

  /** The in-place iteration ends on every graph, cyclic or not, in any order, with
      each action at the greatest direct cost of anything it reaches. */
  method SettleCosts(g: Graph, order: seq<string>, direct: Costs) returns (costs: Costs)
    requires forall d :: d in g <==> d in order
    ensures AreWorst(g, direct, costs)
  {
    costs := direct;
    ghost var bound := UpperBound(direct);
    StartsInProgress(g, direct, bound);
    var settled := false;
    ghost var room := Headroom(order, costs, bound);
    while !settled
      invariant InProgress(g, direct, costs, bound)
      invariant !settled ==> room == Headroom(order, costs, bound)
      invariant settled ==> Settled(g, costs)
      decreases room, !settled
    {
      costs, settled := CostPass(g, order, direct, costs, bound);
      room := if settled then room else Headroom(order, costs, bound);
    }
    forall d ensures WorstAt(g, direct, costs, d) {
      SettledIsWorst(g, direct, costs, d);
    }
  }

  lemma StartsInProgress(g: Graph, direct: Costs, bound: nat)
    requires Bounded(direct, bound)
    ensures InProgress(g, direct, direct, bound)
  {
    forall d ensures SupportedAt(g, direct, direct, d) {
      ReachesItself(g, d);
      assert d in direct ==> CostOf(direct, d) == direct[d];
    }
  }

  lemma {:induction false} UpperBound(costs: Costs) returns (bound: nat)
    ensures Bounded(costs, bound)
    decreases |costs|
  {
    if costs == map[] {
      bound := 0;
    } else {
      var d :| d in costs;
      var rest := map x | x in costs && x != d :: costs[x];
      assert costs.Keys == rest.Keys + {d};
      var b := UpperBound(rest);
      bound := if costs[d] > b then costs[d] else b;
      forall x ensures CostOf(costs, x) <= bound {
        assert x != d ==> CostOf(costs, x) == CostOf(rest, x);
      }
    }
  }

  /** Two cost tables meeting the specification agree, so the iteration order of
      the dictionary cannot matter. */
  lemma CostsAreUnique(g: Graph, direct: Costs, a: Costs, b: Costs)
    requires AreWorst(g, direct, a) && AreWorst(g, direct, b)
    ensures a == b
  {
    forall d ensures CostOf(a, d) == CostOf(b, d) {
      assert WorstAt(g, direct, a, d) && WorstAt(g, direct, b, d);
    }
    forall d | d in a || d in b ensures d in a && d in b && a[d] == b[d] {
      assert CostOf(a, d) == CostOf(b, d);
    }
  }

  method PullLadderCosts(actions: seq<Action>, d: Defaults) returns (costs: Costs)
    requires ValidDefaults(d)
    ensures AreWorst(ActionCalls(actions), DirectCosts(actions, d), costs)
  {
    var direct: Costs, calls: Graph, order := map[], map[], [];
    for i := 0 to |actions|
      invariant direct == DirectCosts(actions[..i], d) && calls == ActionCalls(actions[..i])
      invariant forall a :: a in calls <==> a in order
    {
      assert actions[..i + 1][..i] == actions[..i];
      var action := actions[i];
      var worst := WorstStep(action.steps, d);
      if worst > 0 {
        direct := direct[action.directory := worst];
      }
      calls := calls[action.directory := Targets(action.steps)];
      order := order + [action.directory];
    }
    assert actions[..|actions|] == actions;
    costs := SettleCosts(calls, order, direct);
  }

  // ---------- the job's budget ----------

  datatype Job = Job(steps: seq<Step>, timeoutMinutes: Option<int>)

  function Budget(job: Job): nat {
    PositiveInt(job.timeoutMinutes, 0) * SECONDS_PER_MINUTE
  }

  /** The budget is the job's own timeout; a job without a usable one has none. */
  lemma BudgetAsDeclared(steps: seq<Step>, minutes: nat, unusable: Option<int>)
    requires minutes > 0 && (unusable == None || unusable.value <= 0)
    ensures Budget(Job(steps, Some(minutes))) == 60 * minutes
    ensures Budget(Job(steps, unusable)) == 0
  {
  }

  /** `run` executes a pull ladder of the job itself, or of a composite one of its
      calling steps reaches through any chain of uses. */
  ghost predicate Faces(job: Job, actions: seq<Action>, d: Defaults, run: seq<Attempt>) {
    exists i :: 0 <= i < |job.steps| && StepFaces(job.steps[i], actions, d, run)
  }

  ghost predicate StepFaces(step: Step, actions: seq<Action>, d: Defaults, run: seq<Attempt>) {
    || RunsStep(run, step, d)
    || (step.Call? && exists k: nat, j: nat :: NestedFaces(step.directory, actions, d, run, k, j))
  }

  ghost predicate NestedFaces(directory: string, actions: seq<Action>, d: Defaults, run: seq<Attempt>, k: nat, j: nat) {
    && IsLastLadder(actions, k) && j < |actions[k].steps|
    && Reaches(ActionCalls(actions), directory, actions[k].directory) && RunsStep(run, actions[k].steps[j], d)
  }

  /** What one step of the job can cost it. */
  function StepSeconds(step: Step, costs: Costs, d: Defaults): nat
    requires ValidDefaults(d)
  {
    match step
    case Pull(_, _) => StepLadderSeconds(step, d).value
    case Call(directory) => CostOf(costs, directory)
    case Plain => 0
  }

  /** The check: `Some` names the worst ladder of a job whose budget cannot hold it. */
  method CheckLadderBudget(job: Job, costs: Costs, d: Defaults) returns (overrun: Option<nat>)
    requires ValidDefaults(d)
    ensures overrun.Some? <==>
            exists i :: 0 <= i < |job.steps| && StepSeconds(job.steps[i], costs, d) > 0
                        && StepSeconds(job.steps[i], costs, d) >= Budget(job)
    ensures overrun.Some? ==>
              && (exists i :: 0 <= i < |job.steps| && StepSeconds(job.steps[i], costs, d) == overrun.value)
              && forall i :: 0 <= i < |job.steps| ==> StepSeconds(job.steps[i], costs, d) <= overrun.value
  {
    var worst := 0;
    for i := 0 to |job.steps|
      invariant worst > 0 ==> exists j :: 0 <= j < i && StepSeconds(job.steps[j], costs, d) == worst
      invariant forall j :: 0 <= j < i ==> StepSeconds(job.steps[j], costs, d) <= worst
    {
      var step := job.steps[i];
      var direct := StepLadderSeconds(step, d);
      if direct.Some? {
        if direct.value > worst {
          worst := direct.value;
        }
      } else if step.Call? && step.directory in costs && costs[step.directory] > worst {
        worst := costs[step.directory];
      }
    }
    overrun := if worst > 0 && Budget(job) <= worst then Some(worst) else None;
  }

  lemma StepRunsReachCost(step: Step, d: Defaults)
    requires step.Pull? && ValidDefaults(d)
    ensures StepLadderSeconds(step, d).value > 0
    ensures forall run :: RunsStep(run, step, d) ==> Duration(run) <= StepLadderSeconds(step, d).value
    ensures exists run :: RunsStep(run, step, d) && Duration(run) == StepLadderSeconds(step, d).value
  {
    var n, t := PositiveInt(step.attempts, d.attempts), PositiveInt(step.pullTimeout, d.pullTimeout);
    WorstCaseIsAttainedMaximum(n, t);
    Pow2Monotone(0, n - 1);
    assert n * t > 0;
    var run :| IsLadderRun(run, n, t) && Duration(run) == LadderWorstCaseSeconds(n, t);
    assert RunsStep(run, step, d);
  }

  /** A step's cost is the longest run of any ladder it faces; it is zero exactly
      when there is no such ladder. */
  lemma StepSecondsIsLongestRun(step: Step, actions: seq<Action>, costs: Costs, d: Defaults)
    requires ValidDefaults(d)
    requires AreWorst(ActionCalls(actions), DirectCosts(actions, d), costs)
    ensures forall run :: StepFaces(step, actions, d, run) ==>
              StepSeconds(step, costs, d) > 0 && Duration(run) <= StepSeconds(step, costs, d)
    ensures StepSeconds(step, costs, d) > 0 ==>
              exists run :: StepFaces(step, actions, d, run) && Duration(run) == StepSeconds(step, costs, d)
  {
    match step
    case Pull(_, _) =>
      StepRunsReachCost(step, d);
    case Call(directory) =>
      assert WorstAt(ActionCalls(actions), DirectCosts(actions, d), costs, directory);
      CallCostIsLongestRun(directory, actions, costs, d);
    case Plain =>
  }

  lemma CallCostIsLongestRun(directory: string, actions: seq<Action>, costs: Costs, d: Defaults)
    requires ValidDefaults(d)
    requires WorstAt(ActionCalls(actions), DirectCosts(actions, d), costs, directory)
    ensures forall run :: StepFaces(Call(directory), actions, d, run) ==>
              CostOf(costs, directory) > 0 && Duration(run) <= CostOf(costs, directory)
    ensures CostOf(costs, directory) > 0 ==>
              exists run :: StepFaces(Call(directory), actions, d, run) && Duration(run) == CostOf(costs, directory)
  {
    var g, direct, worst := ActionCalls(actions), DirectCosts(actions, d), CostOf(costs, directory);
    forall run | StepFaces(Call(directory), actions, d, run) ensures worst > 0 && Duration(run) <= worst {
      var k: nat, j: nat :| NestedFaces(directory, actions, d, run, k, j);
      LastLadderCosts(actions, d, k);
      StepRunsReachCost(actions[k].steps[j], d);
    }
    if worst > 0 {
      var t :| Reaches(g, directory, t) && CostOf(direct, t) == worst;
      var k := CostlyAction(actions, d, t);
      LastLadderCosts(actions, d, k);
      var j :| 0 <= j < |actions[k].steps| && actions[k].steps[j].Pull?
        && StepLadderSeconds(actions[k].steps[j], d).value == worst;
      StepRunsReachCost(actions[k].steps[j], d);
      var run :| RunsStep(run, actions[k].steps[j], d) && Duration(run) == worst;
      assert NestedFaces(directory, actions, d, run, k, j);
    }
  }

  /** The gate end to end: it reports exactly the jobs for which some execution of
      some reachable ladder lasts at least as long as the job's whole budget. */
  method LadderBudgetGate(job: Job, actions: seq<Action>, d: Defaults) returns (overrun: Option<nat>)
    requires ValidDefaults(d)
    ensures overrun.Some? <==> exists run :: Faces(job, actions, d, run) && Duration(run) >= Budget(job)
    ensures overrun.None? ==> forall run :: Faces(job, actions, d, run) ==> Duration(run) < Budget(job)
  {
    var costs := PullLadderCosts(actions, d);
    overrun := CheckLadderBudget(job, costs, d);
    forall i | 0 <= i < |job.steps|
      ensures StepSeconds(job.steps[i], costs, d) > 0 && StepSeconds(job.steps[i], costs, d) >= Budget(job) ==>
                exists run :: Faces(job, actions, d, run) && Duration(run) >= Budget(job)
      ensures forall run :: StepFaces(job.steps[i], actions, d, run) ==>
                StepSeconds(job.steps[i], costs, d) > 0 && Duration(run) <= StepSeconds(job.steps[i], costs, d)
    {
      StepSecondsIsLongestRun(job.steps[i], actions, costs, d);
      if StepSeconds(job.steps[i], costs, d) > 0 && StepSeconds(job.steps[i], costs, d) >= Budget(job) {
        var run :| StepFaces(job.steps[i], actions, d, run) && Duration(run) == StepSeconds(job.steps[i], costs, d);
        assert Faces(job, actions, d, run);
      }
    }
  }
}
