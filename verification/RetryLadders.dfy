/** Which step sequences the retry-ladder check accepts
    (`scripts/check_ci_workflow_resilience.py`, `_check_job_ladders`). */
module RetryLadders {
  import opened Prelude

  /** A job step: the enforced action it uses, if any, and whether it carries
      `continue-on-error`. */
  datatype Step = Step(action: Option<string>, guarded: bool)

  datatype Violation = BareStep(action: string) | LeftOpen(action: string)

  // ---------- the accepted language ----------

  /** The steps of one action, in order; `true` for a guarded attempt. */
  function Projection(steps: seq<Step>, action: string): seq<bool> {
    if steps == [] then []
    else
      var k := |steps| - 1;
      Projection(steps[..k], action) + if steps[k].action == Some(action) then [steps[k].guarded] else []
  }

  function Ladder(attempts: nat): seq<bool> {
    seq(attempts, _ => true) + [false]
  }

  function Ladders(lengths: seq<nat>): seq<bool> {
    if lengths == [] then []
    else
      var k := |lengths| - 1;
      Ladders(lengths[..k]) + Ladder(lengths[k])
  }

  /** `(guarded+ unguarded)*` */
  ghost predicate InLanguage(word: seq<bool>) {
    exists lengths :: (forall i :: 0 <= i < |lengths| ==> lengths[i] > 0) && Ladders(lengths) == word
  }

  predicate IsOpen(word: seq<bool>) {
    word != [] && word[|word| - 1]
  }

  /** Unguarded attempts with no guarded attempt right before them. */
  function BareCount(word: seq<bool>): nat {
    if word == [] then 0
    else
      var k := |word| - 1;
      BareCount(word[..k]) + if !word[k] && !IsOpen(word[..k]) then 1 else 0
  }

  lemma {:induction false} LadderIsClean(before: seq<bool>, attempts: nat, taken: nat)
    requires BareCount(before) == 0 && !IsOpen(before) && attempts > 0 && taken <= attempts + 1
    ensures BareCount(before + Ladder(attempts)[..taken]) == 0
    ensures IsOpen(before + Ladder(attempts)[..taken]) <==> 0 < taken <= attempts
  {
    var word := before + Ladder(attempts)[..taken];
    if taken == 0 {
      assert word == before;
    } else {
      LadderIsClean(before, attempts, taken - 1);
      assert word[..|word| - 1] == before + Ladder(attempts)[..taken - 1];
    }
  }

  lemma {:induction false} LanguageIsClean(lengths: seq<nat>)
    requires forall i :: 0 <= i < |lengths| ==> lengths[i] > 0
    ensures BareCount(Ladders(lengths)) == 0 && !IsOpen(Ladders(lengths))
  {
    if lengths != [] {
      var k := |lengths| - 1;
      LanguageIsClean(lengths[..k]);
      LadderIsClean(Ladders(lengths[..k]), lengths[k], lengths[k] + 1);
      assert Ladder(lengths[k])[..lengths[k] + 1] == Ladder(lengths[k]);
    }
  }

  /** A clean word is a run of whole ladders, then the guarded attempts of an open one. */
  lemma {:induction false} CleanIsLadders(word: seq<bool>) returns (lengths: seq<nat>, tail: nat)
    requires BareCount(word) == 0
    ensures forall i :: 0 <= i < |lengths| ==> lengths[i] > 0
    ensures word == Ladders(lengths) + seq(tail, _ => true)
    ensures IsOpen(word) <==> tail > 0
  {
    if word == [] {
      lengths, tail := [], 0;
    } else {
      var k := |word| - 1;
      var before, open := CleanIsLadders(word[..k]);
      assert word == word[..k] + [word[k]];
      if word[k] {
        lengths, tail := before, open + 1;
        assert seq(tail, _ => true) == seq(open, _ => true) + [true];
      } else {
        lengths, tail := before + [open], 0;
        assert lengths[..|lengths| - 1] == before;
        assert word == Ladders(before) + Ladder(open);
      }
    }
  }

  /** No bare step and nothing left open: exactly the words of the language. */
  lemma CleanIffInLanguage(word: seq<bool>)
    ensures BareCount(word) == 0 && !IsOpen(word) <==> InLanguage(word)
  {
    if BareCount(word) == 0 && !IsOpen(word) {
      var lengths, tail := CleanIsLadders(word);
      assert word == Ladders(lengths);
    }
    if InLanguage(word) {
      var lengths :| (forall i :: 0 <= i < |lengths| ==> lengths[i] > 0) && Ladders(lengths) == word;
      LanguageIsClean(lengths);
    }
  }

  // ---------- the check ----------

  /** The bare steps of all actions, in step order. */
  function BareSteps(steps: seq<Step>): seq<Violation> {
    if steps == [] then []
    else
      var k := |steps| - 1;
      var step := steps[k];
      BareSteps(steps[..k]) +
      if step.action.Some? && !step.guarded && !IsOpen(Projection(steps[..k], step.action.value))
      then [BareStep(step.action.value)] else []
  }

  function OpenLadders(steps: seq<Step>, enforced: seq<string>): seq<Violation> {
    if enforced == [] then []
    else
      var k := |enforced| - 1;
      OpenLadders(steps, enforced[..k]) + if IsOpen(Projection(steps, enforced[k])) then [LeftOpen(enforced[k])] else []
  }

  /** The machine remembers, for each action, whether its ladder is open. */
  ghost predicate Tracks(openLadder: map<string, bool>, steps: seq<Step>) {
    forall a :: (a in openLadder && openLadder[a]) <==> IsOpen(Projection(steps, a))
  }

  lemma ProjectionStep(steps: seq<Step>, i: nat, action: string)
    requires i < |steps|
    ensures IsOpen(Projection(steps[..i + 1], action)) <==>
            if steps[i].action == Some(action) then steps[i].guarded else IsOpen(Projection(steps[..i], action))
  {
    assert steps[..i + 1][..i] == steps[..i];
    var before := Projection(steps[..i], action);
    assert before + [] == before;
  }

  lemma StepTracks(openLadder: map<string, bool>, steps: seq<Step>, i: nat)
    requires i < |steps| && Tracks(openLadder, steps[..i])
    ensures var after := if steps[i].action.None? then openLadder else openLadder[steps[i].action.value := steps[i].guarded];
            Tracks(after, steps[..i + 1])
  {
    var after := if steps[i].action.None? then openLadder else openLadder[steps[i].action.value := steps[i].guarded];
    forall a ensures (a in after && after[a]) <==> IsOpen(Projection(steps[..i + 1], a)) {
      ProjectionStep(steps, i, a);
    }
  }

  lemma BareStepsStep(steps: seq<Step>, i: nat)
    requires i < |steps|
    ensures var step := steps[i];
            BareSteps(steps[..i + 1]) == BareSteps(steps[..i]) +
              if step.action.Some? && !step.guarded && !IsOpen(Projection(steps[..i], step.action.value))
              then [BareStep(step.action.value)] else []
  {
    assert steps[..i + 1][..i] == steps[..i];
  }

  /** The per-action state machine over one job; `enforced` lists the enforced
      actions in report order. */
  method CheckJobLadders(steps: seq<Step>, enforced: seq<string>) returns (violations: seq<Violation>)
    ensures violations == BareSteps(steps) + OpenLadders(steps, enforced)
  {
    var openLadder: map<string, bool> := map[];
    violations := [];
    for i := 0 to |steps|
      invariant violations == BareSteps(steps[..i]) && Tracks(openLadder, steps[..i])
    {
      StepTracks(openLadder, steps, i);
      BareStepsStep(steps, i);
      var step := steps[i];
      if step.action.Some? {
        var action := step.action.value;
        if step.guarded {
          openLadder := openLadder[action := true];
        } else {
          if !(action in openLadder && openLadder[action]) {
            violations := violations + [BareStep(action)];
          }
          openLadder := openLadder[action := false];
        }
      }
    }
    assert steps[..|steps|] == steps;
    var stillOpen := ReportOpenLadders(steps, enforced, openLadder);
    violations := violations + stillOpen;
  }

  method ReportOpenLadders(steps: seq<Step>, enforced: seq<string>, openLadder: map<string, bool>)
    returns (stillOpen: seq<Violation>)
    requires Tracks(openLadder, steps)
    ensures stillOpen == OpenLadders(steps, enforced)
  {
    stillOpen := [];
    for i := 0 to |enforced|
      invariant stillOpen == OpenLadders(steps, enforced[..i])
    {
      assert enforced[..i + 1][..i] == enforced[..i];
      if enforced[i] in openLadder && openLadder[enforced[i]] {
        stillOpen := stillOpen + [LeftOpen(enforced[i])];
      }
    }
    assert enforced[..|enforced|] == enforced;
  }

  // ---------- what the messages say ----------

  /** Interleaving is invisible: each action is reported once per bare attempt of
      its own projection. */
  lemma {:induction false} BareStepsPerAction(steps: seq<Step>, action: string)
    ensures multiset(BareSteps(steps))[BareStep(action)] == BareCount(Projection(steps, action))
  {
    if steps != [] {
      var k := |steps| - 1;
      var step := steps[k];
      BareStepsPerAction(steps[..k], action);
      var word := Projection(steps, action);
      if step.action == Some(action) {
        assert word[..|word| - 1] == Projection(steps[..k], action);
      } else {
        assert word == Projection(steps[..k], action);
      }
    }
  }

  lemma {:induction false} OpenLaddersPerAction(steps: seq<Step>, enforced: seq<string>, action: string)
    requires forall i, j :: 0 <= i < j < |enforced| ==> enforced[i] != enforced[j]
    ensures multiset(OpenLadders(steps, enforced))[LeftOpen(action)] ==
            if action in enforced && IsOpen(Projection(steps, action)) then 1 else 0
    ensures multiset(OpenLadders(steps, enforced))[BareStep(action)] == 0
  {
    if enforced != [] {
      var k := |enforced| - 1;
      OpenLaddersPerAction(steps, enforced[..k], action);
      assert enforced == enforced[..k] + [enforced[k]];
    }
  }

  lemma {:induction false} BareStepsOnly(steps: seq<Step>, action: string)
    ensures multiset(BareSteps(steps))[LeftOpen(action)] == 0
  {
    if steps != [] {
      BareStepsOnly(steps[..|steps| - 1], action);
    }
  }

  /** Per action: one message per bare attempt, plus one if its last ladder is open. */
  lemma MessageCounts(steps: seq<Step>, enforced: seq<string>, action: string)
    requires forall i, j :: 0 <= i < j < |enforced| ==> enforced[i] != enforced[j]
    ensures var reported := multiset(BareSteps(steps) + OpenLadders(steps, enforced));
            && reported[BareStep(action)] == BareCount(Projection(steps, action))
            && reported[LeftOpen(action)] == if action in enforced && IsOpen(Projection(steps, action)) then 1 else 0
  {
    BareStepsPerAction(steps, action);
    BareStepsOnly(steps, action);
    OpenLaddersPerAction(steps, enforced, action);
  }

  /** The check is silent if and only if every enforced action's steps, taken alone,
      are complete fail-closed ladders. */
  lemma SilentIffLadders(steps: seq<Step>, enforced: seq<string>)
    requires forall i, j :: 0 <= i < j < |enforced| ==> enforced[i] != enforced[j]
    requires forall i :: 0 <= i < |steps| && steps[i].action.Some? ==> steps[i].action.value in enforced
    ensures BareSteps(steps) + OpenLadders(steps, enforced) == [] <==>
            forall a :: a in enforced ==> InLanguage(Projection(steps, a))
  {
    var reported := BareSteps(steps) + OpenLadders(steps, enforced);
    forall a | a in enforced
      ensures InLanguage(Projection(steps, a)) <==>
              multiset(reported)[BareStep(a)] == 0 && multiset(reported)[LeftOpen(a)] == 0
    {
      MessageCounts(steps, enforced, a);
      CleanIffInLanguage(Projection(steps, a));
    }
    if reported != [] {
      var v := reported[0];
      assert v in multiset(reported);
      MessageCounts(steps, enforced, v.action);
      if v.BareStep? {
        ReportedIsEnforced(steps, v.action);
      }
      assert v.action in enforced;
    }
  }

  lemma {:induction false} ReportedIsEnforced(steps: seq<Step>, action: string)
    requires BareCount(Projection(steps, action)) > 0
    ensures exists i :: 0 <= i < |steps| && steps[i].action == Some(action)
  {
    var k := |steps| - 1;
    if steps[k].action != Some(action) {
      assert Projection(steps, action) == Projection(steps[..k], action);
      ReportedIsEnforced(steps[..k], action);
      var i :| 0 <= i < k && steps[..k][i].action == Some(action);
      assert steps[i].action == Some(action);
    }
  }
}
