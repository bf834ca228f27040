/** What the reachability verdicts mean: exactly when they are sound, on which
    programs they are exact, and the generator that computes them. */
module Reachability {
  import opened ControlFlow
  import opened Executions
  import opened Outcomes

  ghost predicate CanComplete(s: Stmt, swallowing: set<nat>) {
    exists r :: Executes(s, r, swallowing) && Out(s, r) == Normal
  }

  ghost predicate BlockCanComplete(body: seq<Stmt>, swallowing: set<nat>) {
    exists rs :: BlockExecutes(body, rs, swallowing) && BlockOut(body, rs) == Normal
  }

  ghost predicate CanStart(body: seq<Stmt>, t: Stmt, swallowing: set<nat>) {
    exists rs :: BlockExecutes(body, rs, swallowing) && t in BlockTrace(body, rs)
  }

  // ---------- soundness, and exactly when it holds ----------

  /** Nothing an execution starts is missed, as long as the managers of the
      `with` statements taken for terminating do not swallow. */
  lemma ExecutedIsYielded(body: seq<Stmt>, swallowing: set<nat>)
    requires Trusted(Reachable(body), swallowing)
    ensures forall t :: CanStart(body, t, swallowing) ==> t in Reachable(body)
    ensures BlockTerminates(body) ==> !BlockCanComplete(body, swallowing)
  {
    forall rs | BlockExecutes(body, rs, swallowing)
      ensures BlockTerminates(body) ==> BlockOut(body, rs) != Normal
      ensures forall t :: t in BlockTrace(body, rs) ==> t in Reachable(body)
    {
      BlockSound(body, rs, swallowing);
    }
  }

  /** A terminating `with` completes normally exactly when its manager swallows. */
  lemma WithCompletesIffSwallowing(s: Stmt, swallowing: set<nat>)
    requires s.With? && BlockTerminates(s.body) && Trusted(Reachable(s.body), swallowing)
    ensures CanComplete(s, swallowing) <==> s.id in swallowing
  {
    if s.id in swallowing {
      WithSwallows(s, swallowing);
    } else {
      forall r | Executes(s, r, swallowing) ensures Out(s, r) != Normal {
        if r.Managed? {
          BlockSound(s.body, r.inner, swallowing);
        }
      }
    }
  }

  lemma WithSwallows(s: Stmt, swallowing: set<nat>)
    requires s.With? && BlockTerminates(s.body) && s.id in swallowing
    ensures CanComplete(s, swallowing)
  {
    var raising := [Leaf(Raised)];
    assert Out(s.body[0], raising[0]) == Raised;
    assert BlockExecutes(s.body, raising, swallowing) && BlockOut(s.body, raising) == Raised;
    assert Executes(s, Managed(raising, Normal), swallowing);
    assert Out(s, Managed(raising, Normal)) == Normal;
  }

  /** Every termination verdict on a yielded statement is right if and only if no
      yielded, terminating `with` has a swallowing manager. */
  lemma VerdictsSoundIffTrusted(body: seq<Stmt>, swallowing: set<nat>)
    ensures (forall s :: s in Reachable(body) && Terminates(s) ==> !CanComplete(s, swallowing))
            <==> Trusted(Reachable(body), swallowing)
  {
    if Trusted(Reachable(body), swallowing) {
      forall s | s in Reachable(body) && Terminates(s) ensures !CanComplete(s, swallowing) {
        YieldedIsClosed(body, s);
        forall r | Executes(s, r, swallowing) ensures Out(s, r) != Normal {
          StatementSound(s, r, swallowing);
        }
      }
    }
    forall w | w in Reachable(body) && w.With? && BlockTerminates(w.body) && w.id in swallowing
      ensures Terminates(w) && CanComplete(w, swallowing)
    {
      WithSwallows(w, swallowing);
    }
  }

  /** Yielding a statement yields everything live inside it. */
  lemma {:induction false} YieldedIsClosed(body: seq<Stmt>, s: Stmt)
    requires s in Reachable(body)
    ensures forall t :: t in OwnReachable(s) ==> t in Reachable(body)
    decreases body, 0
  {
    if s in OwnReachable(body[0]) {
      if s != body[0] {
        var k := LiveBlockOf(body[0], LiveBlocks(body[0]), s);
        var block := LiveBlocks(body[0])[k];
        YieldedIsClosed(block, s);
        forall t | t in OwnReachable(s) ensures t in OwnReachable(body[0]) {
          LiveBlockYielded(body[0], LiveBlocks(body[0]), k, t);
        }
      }
    } else {
      YieldedIsClosed(body[1..], s);
    }
  }

  lemma {:induction false} LiveBlockOf(owner: Stmt, blocks: seq<seq<Stmt>>, t: Stmt) returns (k: nat)
    requires forall i :: 0 <= i < |blocks| ==> (owner decreases to blocks[i])
    requires t in AllReachable(owner, blocks)
    ensures k < |blocks| && t in Reachable(blocks[k])
    decreases |blocks|
  {
    if t in Reachable(blocks[0]) {
      k := 0;
    } else {
      k := LiveBlockOf(owner, blocks[1..], t);
      k := k + 1;
    }
  }

  /** Dead code cannot satisfy a gate: what follows a terminating statement in
      its block does not change what is yielded. */
  lemma {:induction false} DeadSuffixIsIgnored(before: seq<Stmt>, s: Stmt, after: seq<Stmt>)
    requires Terminates(s)
    ensures Reachable(before + [s] + after) == Reachable(before + [s])
  {
    if before == [] {
      assert ([s] + after)[0] == s && [] + [s] + after == [s] + after && [] + [s] == [s];
    } else {
      assert (before + [s] + after)[1..] == before[1..] + [s] + after;
      assert (before + [s])[1..] == before[1..] + [s];
      DeadSuffixIsIgnored(before[1..], s, after);
    }
  }

  // ---------- what an execution starts ----------

  /** Whether an execution can enter the given live block. */
  predicate CanEnter(s: Stmt, k: nat, swallowing: set<nat>) {
    s.Try? ==>
      && (k == 1 ==> Normal in BlockOuts(s.body, swallowing))
      && (k == 2 ==> RescuedOuts(s, swallowing) - {Paused} != {})
      && (k > 2 ==> Raised in BlockOuts(s.body, swallowing))
  }

  /** The statements executions of a block start: the walk of the analysis, with
      exact knowledge of what can complete and what can be entered. */
  function Started(body: seq<Stmt>, swallowing: set<nat>): seq<Stmt>
    decreases body, 0, 0
  {
    if body == [] then []
    else OwnStarted(body[0], swallowing)
         + (if Normal in Outs(body[0], swallowing) then Started(body[1..], swallowing) else [])
  }

  function OwnStarted(s: Stmt, swallowing: set<nat>): seq<Stmt>
    decreases s, 2, 0
  {
    [s] + StartedFrom(s, 0, swallowing)
  }

  function StartedFrom(s: Stmt, k: nat, swallowing: set<nat>): seq<Stmt>
    requires k <= |LiveBlocks(s)|
    decreases s, 1, |LiveBlocks(s)| - k
  {
    if k == |LiveBlocks(s)| then []
    else (if CanEnter(s, k, swallowing) then Started(LiveBlocks(s)[k], swallowing) else []) + StartedFrom(s, k + 1, swallowing)
  }

  lemma {:induction false} EnteredIsStarted(s: Stmt, from: nat, k: nat, t: Stmt, swallowing: set<nat>)
    requires from <= k < |LiveBlocks(s)| && CanEnter(s, k, swallowing) && t in Started(LiveBlocks(s)[k], swallowing)
    ensures t in StartedFrom(s, from, swallowing)
    decreases k - from
  {
    if from < k {
      EnteredIsStarted(s, from + 1, k, t, swallowing);
    }
  }

  lemma {:induction false} StartedIsEntered(s: Stmt, from: nat, t: Stmt, swallowing: set<nat>) returns (k: nat)
    requires from <= |LiveBlocks(s)| && t in StartedFrom(s, from, swallowing)
    ensures k < |LiveBlocks(s)| && CanEnter(s, k, swallowing) && t in Started(LiveBlocks(s)[k], swallowing)
    decreases |LiveBlocks(s)| - from
  {
    if CanEnter(s, from, swallowing) && t in Started(LiveBlocks(s)[from], swallowing) {
      k := from;
    } else {
      k := StartedIsEntered(s, from + 1, t, swallowing);
    }
  }

  // ---------- executions start nothing else ----------

  lemma {:induction false} TraceIsStarted(body: seq<Stmt>, rs: seq<Run>, t: Stmt, swallowing: set<nat>)
    requires BlockExecutes(body, rs, swallowing) && t in BlockTrace(body, rs)
    ensures t in Started(body, swallowing)
    decreases rs, 0
  {
    if t in Trace(body[0], rs[0]) {
      OwnTraceIsStarted(body[0], rs[0], t, swallowing);
    } else {
      OutIsComputed(body[0], rs[0], swallowing);
      TraceIsStarted(body[1..], rs[1..], t, swallowing);
    }
  }

  lemma {:induction false} BlockTraceIsOwn(s: Stmt, k: nat, rs: seq<Run>, t: Stmt, swallowing: set<nat>)
    requires k < |LiveBlocks(s)| && CanEnter(s, k, swallowing)
    requires BlockExecutes(LiveBlocks(s)[k], rs, swallowing) && t in BlockTrace(LiveBlocks(s)[k], rs)
    ensures t in OwnStarted(s, swallowing)
    decreases rs, 1
  {
    TraceIsStarted(LiveBlocks(s)[k], rs, t, swallowing);
    EnteredIsStarted(s, 0, k, t, swallowing);
  }

  lemma {:induction false} OwnTraceIsStarted(s: Stmt, r: Run, t: Stmt, swallowing: set<nat>)
    requires Executes(s, r, swallowing) && t in Trace(s, r)
    ensures t in OwnStarted(s, swallowing)
    decreases r, 2
  {
    if t != s {
      var last := |LiveBlocks(s)| - 1;
      match r
      case Arm(k, inner) =>
        BlockTraceIsOwn(s, if s.Match? then k else if k == 0 || s.test == Literal(false) then 0 else last, inner, t, swallowing);
      case LoopElse(inner) => BlockTraceIsOwn(s, last, inner, t, swallowing);
      case LoopExit(inner) => BlockTraceIsOwn(s, 0, inner, t, swallowing);
      case LoopNext(inner, rest) =>
        if t in Trace(s, rest) {
          OwnTraceIsStarted(s, rest, t, swallowing);
        } else {
          BlockTraceIsOwn(s, 0, inner, t, swallowing);
        }
      case Managed(inner, _) => BlockTraceIsOwn(s, 0, inner, t, swallowing);
      case Guarded(_, _, _) => TryTraceIsStarted(s, r, t, swallowing);
      case _ =>
    }
  }

  lemma {:induction false} TryTraceIsStarted(s: Stmt, r: Run, t: Stmt, swallowing: set<nat>)
    requires r.Guarded? && Executes(s, r, swallowing) && t != s && t in Trace(s, r)
    ensures t in OwnStarted(s, swallowing)
    decreases r, 1
  {
    var b := BlockOut(s.body, r.inner);
    BlockOutIsComputed(s.body, r.inner, swallowing);
    if t in BlockTrace(s.body, r.inner) {
      BlockTraceIsOwn(s, 0, r.inner, t, swallowing);
    } else if t in RescueTrace(s, r.rescue) {
      RescueTraceIsStarted(s, b, r.rescue, t, swallowing);
    } else {
      RescueIsComputed(s, b, r.rescue, swallowing);
      assert RescueOut(s, b, r.rescue) in RescuedOuts(s, swallowing) - {Paused};
      BlockTraceIsOwn(s, 2, r.last, t, swallowing);
    }
  }

  lemma {:induction false} RescueTraceIsStarted(s: Stmt, o: Outcome, rescue: Rescue, t: Stmt, swallowing: set<nat>)
    requires s.Try? && o in BlockOuts(s.body, swallowing)
    requires RescueExecutes(s, o, rescue, swallowing) && t in RescueTrace(s, rescue)
    ensures t in OwnStarted(s, swallowing)
    decreases rescue, 3
  {
    match rescue
    case ElseClause(run) => BlockTraceIsOwn(s, 1, run, t, swallowing);
    case Handled(k, run) => BlockTraceIsOwn(s, 3 + k, run, t, swallowing);
    case GroupPart(_, _, _) => GroupTraceIsStarted(s, 0, rescue, t, swallowing);
    case _ =>
  }

  lemma {:induction false} GroupTraceIsStarted(s: Stmt, from: nat, rescue: Rescue, t: Stmt, swallowing: set<nat>)
    requires s.Try? && Raised in BlockOuts(s.body, swallowing)
    requires GroupExecutes(s, from, rescue, swallowing) && t in RescueTrace(s, rescue)
    ensures t in OwnStarted(s, swallowing)
    decreases rescue, 2
  {
    var clause := s.handlers[rescue.index].body;
    if t in BlockTrace(clause, rescue.run) {
      BlockTraceIsOwn(s, 3 + rescue.index, rescue.run, t, swallowing);
    } else {
      GroupTraceIsStarted(s, rescue.index + 1, rescue.rest, t, swallowing);
    }
  }

  // ---------- and everything in the list is started ----------

  /** An execution that stops right at the start of the statement. */
  lemma {:induction false} StartingRun(body: seq<Stmt>, t: Stmt, swallowing: set<nat>) returns (rs: seq<Run>)
    requires t in Started(body, swallowing)
    ensures BlockExecutes(body, rs, swallowing) && t in BlockTrace(body, rs) && BlockOut(body, rs) == Paused
    decreases body, 0
  {
    if t in OwnStarted(body[0], swallowing) {
      var r := OwnStartingRun(body[0], t, swallowing);
      rs := [r];
    } else {
      var r := RunFor(body[0], Normal, swallowing);
      var rest := StartingRun(body[1..], t, swallowing);
      rs := [r] + rest;
      assert rs[1..] == rest;
    }
  }

  lemma {:induction false} OwnStartingRun(s: Stmt, t: Stmt, swallowing: set<nat>) returns (r: Run)
    requires t in OwnStarted(s, swallowing)
    ensures Executes(s, r, swallowing) && t in Trace(s, r) && Out(s, r) == Paused
    decreases s, 2
  {
    if t == s {
      r := Leaf(Paused);
    } else {
      var k := StartedIsEntered(s, 0, t, swallowing);
      var inner := StartingRun(LiveBlocks(s)[k], t, swallowing);
      r := EnteringRun(s, k, inner, t, swallowing);
    }
  }

  /** A paused execution of a block that can be entered is part of one of its owner. */
  lemma {:induction false} EnteringRun(s: Stmt, k: nat, inner: seq<Run>, t: Stmt, swallowing: set<nat>) returns (r: Run)
    requires k < |LiveBlocks(s)| && CanEnter(s, k, swallowing)
    requires BlockExecutes(LiveBlocks(s)[k], inner, swallowing) && BlockOut(LiveBlocks(s)[k], inner) == Paused
    requires t in BlockTrace(LiveBlocks(s)[k], inner)
    ensures Executes(s, r, swallowing) && t in Trace(s, r) && Out(s, r) == Paused
  {
    match s
    case If(_, test, _, _) => r := Arm(if k == 0 && test != Literal(false) then 0 else 1, inner);
    case While(_, test, _, _) => r := if k == 0 && test != Literal(false) then LoopExit(inner) else LoopElse(inner);
    case For(_, _, _, _, _) => r := if k == 0 then LoopExit(inner) else LoopElse(inner);
    case With(_, _, _) => r := Managed(inner, Paused);
    case Match(_, _, _) => r := Arm(k, inner);
    case Try(_, _, _, _, _, _) => r := EnteringTry(s, k, inner, t, swallowing);
    case _ =>
  }

  lemma EnteringTry(s: Stmt, k: nat, inner: seq<Run>, t: Stmt, swallowing: set<nat>) returns (r: Run)
    requires s.Try? && k < |LiveBlocks(s)| && CanEnter(s, k, swallowing)
    requires BlockExecutes(LiveBlocks(s)[k], inner, swallowing) && BlockOut(LiveBlocks(s)[k], inner) == Paused
    requires t in BlockTrace(LiveBlocks(s)[k], inner)
    ensures Executes(s, r, swallowing) && t in Trace(s, r) && Out(s, r) == Paused
  {
    if k == 0 {
      r := Guarded(inner, Unhandled, []);
    } else if k == 1 {
      var body := BlockRunFor(s.body, Normal, swallowing);
      r := Guarded(body, ElseClause(inner), []);
    } else if k == 2 {
      var m :| m in RescuedOuts(s, swallowing) && m != Paused;
      var body, rescue := RescueRunFor(s, m, swallowing);
      r := Guarded(body, rescue, inner);
    } else {
      var body := BlockRunFor(s.body, Raised, swallowing);
      r := Guarded(body, if s.star then GroupPart(k - 3, inner, GroupEnd(false)) else Handled(k - 3, inner), []);
    }
  }

  /** For every program: the computed list holds exactly the statements executions start. */
  lemma StartedIffCanStart(body: seq<Stmt>, t: Stmt, swallowing: set<nat>)
    ensures t in Started(body, swallowing) <==> CanStart(body, t, swallowing)
  {
    if t in Started(body, swallowing) {
      var rs := StartingRun(body, t, swallowing);
    }
    if CanStart(body, t, swallowing) {
      var rs :| BlockExecutes(body, rs, swallowing) && t in BlockTrace(body, rs);
      TraceIsStarted(body, rs, t, swallowing);
    }
  }

  // ---------- when the analysis credits dead code ----------

  /** Nothing yielded is dead: what follows a statement not judged terminating can be
      come to, and every live block that holds something can be entered. */
  predicate NothingDead(body: seq<Stmt>, swallowing: set<nat>)
    decreases body, 0
  {
    body == [] ||
    (&& NothingDeadIn(body[0], swallowing)
     && (Terminates(body[0]) || |body| == 1 || (Normal in Outs(body[0], swallowing) && NothingDead(body[1..], swallowing))))
  }

  predicate NothingDeadIn(s: Stmt, swallowing: set<nat>)
    decreases s, 1
  {
    forall k :: 0 <= k < |LiveBlocks(s)| ==> LiveBlockIsEntered(s, k, swallowing)
  }

  predicate LiveBlockIsEntered(s: Stmt, k: nat, swallowing: set<nat>)
    requires k < |LiveBlocks(s)|
    decreases s, 0
  {
    LiveBlocks(s)[k] == [] || (CanEnter(s, k, swallowing) && NothingDead(LiveBlocks(s)[k], swallowing))
  }

  lemma TerminatingNeverCompletes(s: Stmt, swallowing: set<nat>)
    requires Terminates(s) && Trusted(OwnReachable(s), swallowing)
    ensures Normal !in Outs(s, swallowing)
  {
    if Normal in Outs(s, swallowing) {
      var r := RunFor(s, Normal, swallowing);
      StatementSound(s, r, swallowing);
    }
  }

  lemma {:induction false} Pruned(body: seq<Stmt>, swallowing: set<nat>)
    requires Trusted(Reachable(body), swallowing)
    ensures NothingDead(body, swallowing) ==> Started(body, swallowing) == Reachable(body)
    ensures !NothingDead(body, swallowing) ==> |Started(body, swallowing)| < |Reachable(body)|
    decreases body, 0, 0
  {
    if body != [] {
      var s := body[0];
      TrustedPart(Reachable(body), OwnReachable(s), swallowing);
      OwnPruned(s, swallowing);
      if Terminates(s) {
        TerminatingNeverCompletes(s, swallowing);
      } else {
        TrustedPart(Reachable(body), Reachable(body[1..]), swallowing);
        Pruned(body[1..], swallowing);
      }
    }
  }

  lemma {:induction false} OwnPruned(s: Stmt, swallowing: set<nat>)
    requires Trusted(OwnReachable(s), swallowing)
    ensures NothingDeadIn(s, swallowing) ==> OwnStarted(s, swallowing) == OwnReachable(s)
    ensures !NothingDeadIn(s, swallowing) ==> |OwnStarted(s, swallowing)| < |OwnReachable(s)|
    decreases s, 2, 0
  {
    assert LiveBlocks(s)[0..] == LiveBlocks(s);
    TrustedPart(OwnReachable(s), AllReachable(s, LiveBlocks(s)), swallowing);
    PrunedFrom(s, 0, swallowing);
    assert NothingDeadIn(s, swallowing) <==> EnteredFrom(s, 0, swallowing);
  }

  ghost predicate EnteredFrom(s: Stmt, k: nat, swallowing: set<nat>)
    requires k <= |LiveBlocks(s)|
  {
    forall j :: k <= j < |LiveBlocks(s)| ==> LiveBlockIsEntered(s, j, swallowing)
  }

  lemma EnteredFromStep(s: Stmt, k: nat, swallowing: set<nat>)
    requires k < |LiveBlocks(s)|
    ensures EnteredFrom(s, k, swallowing) <==> LiveBlockIsEntered(s, k, swallowing) && EnteredFrom(s, k + 1, swallowing)
  {
  }

  /** What one live block adds to the walk, entered or not. */
  lemma {:induction false} StartedInBlock(s: Stmt, k: nat, swallowing: set<nat>)
    requires k < |LiveBlocks(s)|
    requires var block := LiveBlocks(s)[k];
             && (NothingDead(block, swallowing) ==> Started(block, swallowing) == Reachable(block))
             && (!NothingDead(block, swallowing) ==> |Started(block, swallowing)| < |Reachable(block)|)
    ensures var block := LiveBlocks(s)[k];
            var own := if CanEnter(s, k, swallowing) then Started(block, swallowing) else [];
            && StartedFrom(s, k, swallowing) == own + StartedFrom(s, k + 1, swallowing)
            && (LiveBlockIsEntered(s, k, swallowing) ==> own == Reachable(block))
            && (!LiveBlockIsEntered(s, k, swallowing) ==> |own| < |Reachable(block)|)
  {
  }

  lemma {:induction false} PrunedFrom(s: Stmt, k: nat, swallowing: set<nat>)
    requires k <= |LiveBlocks(s)| && Trusted(AllReachable(s, LiveBlocks(s)[k..]), swallowing)
    ensures EnteredFrom(s, k, swallowing) ==> StartedFrom(s, k, swallowing) == AllReachable(s, LiveBlocks(s)[k..])
    ensures !EnteredFrom(s, k, swallowing) ==> |StartedFrom(s, k, swallowing)| < |AllReachable(s, LiveBlocks(s)[k..])|
    decreases s, 1, |LiveBlocks(s)| - k
  {
    if k < |LiveBlocks(s)| {
      var whole, block := AllReachable(s, LiveBlocks(s)[k..]), LiveBlocks(s)[k];
      AllReachableStep(s, k);
      TrustedPart(whole, Reachable(block), swallowing);
      TrustedPart(whole, AllReachable(s, LiveBlocks(s)[k + 1..]), swallowing);
      Pruned(block, swallowing);
      PrunedFrom(s, k + 1, swallowing);
      EnteredFromStep(s, k, swallowing);
      StartedInBlock(s, k, swallowing);
    }
  }

  /** For every program with trusted managers: the analysis yields exactly what
      executions start if and only if nothing it yields is dead; otherwise it yields
      strictly more. */
  lemma ExactIffNothingDead(body: seq<Stmt>, swallowing: set<nat>)
    requires Trusted(Reachable(body), swallowing)
    ensures Reachable(body) == Started(body, swallowing) <==> NothingDead(body, swallowing)
    ensures !NothingDead(body, swallowing) ==> |Started(body, swallowing)| < |Reachable(body)|
  {
    Pruned(body, swallowing);
  }

  // ---------- where the verdicts are wrong ----------

  /** Without trust, a live statement is missed: the manager suppresses the
      exception and the statement behind the `with` runs. */
  lemma SwallowedExceptionReachesDeadCode(s: Stmt, x: Stmt, swallowing: set<nat>)
    requires s.With? && BlockTerminates(s.body) && s.id in swallowing && x !in OwnReachable(s)
    ensures CanStart([s, x], x, swallowing) && x !in Reachable([s, x])
  {
    var body := [s, x];
    assert body[0] == s && body[1..] == [x] && [x][0] == x;
    WithSwallows(s, swallowing);
    var r :| Executes(s, r, swallowing) && Out(s, r) == Normal;
    OutIsComputed(s, r, swallowing);
    assert x in OwnStarted(x, swallowing) && x in Started([x], swallowing);
    assert Started(body, swallowing) == OwnStarted(s, swallowing) + Started(body[1..], swallowing);
    assert x in Started(body, swallowing);
    StartedIffCanStart(body, x, swallowing);
    assert Terminates(s) && Reachable(body) == OwnReachable(s) + [];
  }

  lemma StartedIsYielded(s: Stmt, t: Stmt, swallowing: set<nat>)
    requires Trusted(OwnReachable(s), swallowing)
    ensures t in OwnStarted(s, swallowing) ==> t in OwnReachable(s)
  {
    if t in OwnStarted(s, swallowing) {
      var r := OwnStartingRun(s, t, swallowing);
      StatementSound(s, r, swallowing);
    }
  }

  /** Dead code is credited behind `if True:` with a body that always leaves. */
  lemma ConstantTrueReturnIsCredited(s: Stmt, x: Stmt, swallowing: set<nat>)
    requires s.If? && s.test == Literal(true) && s.orelse == [] && BlockTerminates(s.body)
    requires Trusted(OwnReachable(s), swallowing) && x !in OwnReachable(s)
    ensures x in Reachable([s, x]) && !CanStart([s, x], x, swallowing)
  {
    var body := [s, x];
    assert body[0] == s && body[1..] == [x] && [x][0] == x;
    assert x in OwnReachable(x) && x in Reachable([x]);
    TrueArmNeverCompletes(s, swallowing);
    assert Started(body, swallowing) == OwnStarted(s, swallowing) + [];
    StartedIsYielded(s, x, swallowing);
    StartedIffCanStart(body, x, swallowing);
  }

  lemma TrueArmNeverCompletes(s: Stmt, swallowing: set<nat>)
    requires s.If? && s.test == Literal(true) && BlockTerminates(s.body)
    requires Trusted(OwnReachable(s), swallowing)
    ensures Normal !in Outs(s, swallowing)
  {
    assert LiveBlocks(s) == [s.body];
    if Normal in Outs(s, swallowing) {
      var r := RunFor(s, Normal, swallowing);
      LiveBlockSound(s, 0, r.inner, swallowing);
    }
  }

  /** Dead code is credited in the `else` of a `try` whose body never completes. */
  lemma ElseAfterReturnIsCredited(s: Stmt, x: Stmt, swallowing: set<nat>)
    requires s.Try? && BlockTerminates(s.body) && Trusted(OwnReachable(s), swallowing)
    requires x in Reachable(s.orelse) && x != s
    requires forall k :: 0 <= k < |LiveBlocks(s)| && k != 1 ==> x !in Reachable(LiveBlocks(s)[k])
    ensures x in Reachable([s]) && !CanStart([s], x, swallowing)
  {
    assert [s][0] == s && [s][1..] == [];
    LiveBlockYielded(s, LiveBlocks(s), 1, x);
    if Normal in BlockOuts(s.body, swallowing) {
      var rs := BlockRunFor(s.body, Normal, swallowing);
      LiveBlockSound(s, 0, rs, swallowing);
    }
    if x in OwnStarted(s, swallowing) {
      var k := StartedIsEntered(s, 0, x, swallowing);
      var rs := StartingRun(LiveBlocks(s)[k], x, swallowing);
      LiveBlockTrusted(s, k, swallowing);
      BlockSound(LiveBlocks(s)[k], rs, swallowing);
    }
    StartedIffCanStart([s], x, swallowing);
  }

  lemma LiveBlockTrusted(s: Stmt, k: nat, swallowing: set<nat>)
    requires k < |LiveBlocks(s)| && Trusted(OwnReachable(s), swallowing)
    ensures Trusted(Reachable(LiveBlocks(s)[k]), swallowing)
  {
    forall t | t in Reachable(LiveBlocks(s)[k]) ensures t in OwnReachable(s) {
      LiveBlockYielded(s, LiveBlocks(s), k, t);
    }
    TrustedPart(OwnReachable(s), Reachable(LiveBlocks(s)[k]), swallowing);
  }

  // ---------- the generator ----------

  lemma ReachableStep(done: seq<Stmt>, body: seq<Stmt>, i: nat)
    requires i < |body|
    ensures done + Reachable(body[i..]) ==
            done + OwnReachable(body[i]) + (if Terminates(body[i]) then [] else Reachable(body[i + 1..]))
  {
    assert body[i..][0] == body[i] && body[i..][1..] == body[i + 1..];
  }

  lemma AllReachableStep(s: Stmt, i: nat)
    requires i < |LiveBlocks(s)|
    ensures AllReachable(s, LiveBlocks(s)[i..]) ==
            Reachable(LiveBlocks(s)[i]) + AllReachable(s, LiveBlocks(s)[i + 1..])
  {
  }

  /** The recursive generator, with the yielded nodes as an output list. */
  method ReachableStatements(body: seq<Stmt>) returns (yielded: seq<Stmt>)
    ensures yielded == Reachable(body)
    decreases body, 0
  {
    yielded := [];
    assert body[0..] == body && body[|body|..] == [];
    for i := 0 to |body|
      invariant yielded + Reachable(body[i..]) == Reachable(body)
    {
      ReachableStep(yielded, body, i);
      var own := LiveStatements(body[i]);
      yielded := yielded + own;
      if Terminates(body[i]) {
        return yielded;
      }
    }
  }

  /** A statement, then what its live blocks yield. */
  method LiveStatements(stmt: Stmt) returns (yielded: seq<Stmt>)
    ensures yielded == OwnReachable(stmt)
    decreases stmt, 1
  {
    yielded := [stmt];
    var blocks := LiveBlocks(stmt);
    ghost var whole := OwnReachable(stmt);
    assert blocks[0..] == blocks;
    for i := 0 to |blocks|
      invariant whole == yielded + AllReachable(stmt, blocks[i..])
    {
      AllReachableStep(stmt, i);
      var inner := ReachableStatements(blocks[i]);
      yielded := yielded + inner;
    }
  }
}
