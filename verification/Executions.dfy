/** Executions of a block, after sections 8.1 to 8.6 of the Python Language
    Reference, and the soundness of the reachability analysis against them.

    An execution is a derivation tree. `Paused` ends an execution that is
    observed part way, so non-terminating executions are covered by all their
    finite prefixes. Any statement may raise, as any statement can be interrupted. */
module Executions {
  import opened ControlFlow

  datatype Outcome = Normal | Returned | Raised | Broke | Continued | Paused

  datatype Run =
    | Leaf(out: Outcome)                       // the statement's own evaluation, entering no block
    | Arm(index: nat, inner: seq<Run>)         // an `if` branch or a `match` case
    | LoopElse(inner: seq<Run>)                // the test failed or the iterator is exhausted
    | LoopExit(inner: seq<Run>)                // an iteration that leaves the loop
    | LoopNext(inner: seq<Run>, rest: Run)     // an iteration that comes back to the test
    | Managed(inner: seq<Run>, out: Outcome)   // a `with` body, then the manager's exit
    | Guarded(inner: seq<Run>, rescue: Rescue, last: seq<Run>)

  /** What happens between a `try` body and its `finally`. */
  datatype Rescue =
    | Unhandled
    | ElseClause(run: seq<Run>)
    | Handled(index: nat, run: seq<Run>)
    | GroupPart(index: nat, run: seq<Run>, rest: Rescue)   // one `except*` clause of several
    | GroupEnd(leftover: bool)

  // ---------- outcome and trace ----------

  function Out(s: Stmt, r: Run): Outcome
    decreases r, 1
  {
    match r
    case Leaf(o) => o
    case Arm(k, inner) =>
      if s.If? then BlockOut(if k == 0 then s.body else s.orelse, inner)
      else if s.Match? && k < |s.cases| then BlockOut(s.cases[k].body, inner) else Paused
    case LoopElse(inner) => if s.While? || s.For? then BlockOut(s.orelse, inner) else Paused
    case LoopExit(inner) =>
      var o := if s.While? || s.For? then BlockOut(s.body, inner) else Paused;
      if o == Broke then Normal else o
    case LoopNext(_, rest) => Out(s, rest)
    case Managed(_, o) => o
    case Guarded(inner, rescue, last) =>
      if !s.Try? then Paused else
      var m := RescueOut(s, BlockOut(s.body, inner), rescue);
      if m == Paused then Paused else
      var f := BlockOut(s.finalbody, last);
      if f == Normal then m else f
  }

  function BlockOut(body: seq<Stmt>, rs: seq<Run>): Outcome
    decreases rs, 0
  {
    if body == [] || rs == [] then Normal else
    var o := Out(body[0], rs[0]);
    if o == Normal then BlockOut(body[1..], rs[1..]) else o
  }

  function RescueOut(s: Stmt, o: Outcome, rescue: Rescue): Outcome
    requires s.Try?
    decreases rescue, 0
  {
    match rescue
    case Unhandled => o
    case ElseClause(run) => BlockOut(s.orelse, run)
    case Handled(k, run) => if k < |s.handlers| then BlockOut(s.handlers[k].body, run) else o
    case GroupPart(k, run, rest) =>
      var h := if k < |s.handlers| then BlockOut(s.handlers[k].body, run) else o;
      if h == Normal || h == Paused then (if h == Paused then Paused else RescueOut(s, o, rest))
      else if RescueOut(s, o, rest) == Paused then Paused else Raised
    case GroupEnd(leftover) => if leftover then Raised else Normal
  }

  /** The statements an execution starts, in order of first start. */
  function Trace(s: Stmt, r: Run): seq<Stmt>
    decreases r, 1
  {
    [s] + match r
    case Leaf(_) => []
    case Arm(k, inner) =>
      if s.If? then BlockTrace(if k == 0 then s.body else s.orelse, inner)
      else if s.Match? && k < |s.cases| then BlockTrace(s.cases[k].body, inner) else []
    case LoopElse(inner) => if s.While? || s.For? then BlockTrace(s.orelse, inner) else []
    case LoopExit(inner) => if s.While? || s.For? then BlockTrace(s.body, inner) else []
    case LoopNext(inner, rest) => (if s.While? || s.For? then BlockTrace(s.body, inner) else []) + Trace(s, rest)
    case Managed(inner, _) => if s.With? then BlockTrace(s.body, inner) else []
    case Guarded(inner, rescue, last) =>
      if s.Try? then BlockTrace(s.body, inner) + RescueTrace(s, rescue) + BlockTrace(s.finalbody, last) else []
  }

  function BlockTrace(body: seq<Stmt>, rs: seq<Run>): seq<Stmt>
    decreases rs, 0
  {
    if body == [] || rs == [] then [] else Trace(body[0], rs[0]) + BlockTrace(body[1..], rs[1..])
  }

  function RescueTrace(s: Stmt, rescue: Rescue): seq<Stmt>
    requires s.Try?
    decreases rescue, 0
  {
    match rescue
    case ElseClause(run) => BlockTrace(s.orelse, run)
    case Handled(k, run) => if k < |s.handlers| then BlockTrace(s.handlers[k].body, run) else []
    case GroupPart(k, run, rest) =>
      (if k < |s.handlers| then BlockTrace(s.handlers[k].body, run) else []) + RescueTrace(s, rest)
    case _ => []
  }

  // ---------- which trees are executions ----------

  /** Some value gets past a case: its guard can be false, or its pattern can miss. */
  predicate CanFail(c: Case) {
    c.guarded || !c.irrefutable
  }

  predicate LeafOutcome(s: Stmt, o: Outcome) {
    match o
    case Paused => true
    case Raised => true
    case Normal =>
      || s.Simple? || s.Assign? || s.AnnAssign? || s.Definition?
      || (s.Match? && forall i :: 0 <= i < |s.cases| ==> CanFail(s.cases[i]))   // no case matched
    case Returned => s.Return?
    case Broke => s.Break?
    case Continued => s.Continue?
  }

  predicate MayEnterBody(s: Stmt) {
    s.For? || ((s.If? || s.While?) && s.test != Literal(false))
  }

  predicate MayEnterElse(s: Stmt) {
    s.For? || ((s.If? || s.While?) && s.test != Literal(true))
  }

  /** `r` is an execution of `s`, where only the context managers of the `with`
      statements named in `swallowing` may suppress an exception. */
  predicate Executes(s: Stmt, r: Run, swallowing: set<nat>)
    decreases r, 1
  {
    match r
    case Leaf(o) => LeafOutcome(s, o)
    case Arm(k, inner) =>
      if s.If? then
        && k < 2 && (if k == 0 then MayEnterBody(s) else MayEnterElse(s))
        && BlockExecutes(if k == 0 then s.body else s.orelse, inner, swallowing)
      else
        s.Match? && k < |s.cases| && BlockExecutes(s.cases[k].body, inner, swallowing)
    case LoopElse(inner) =>
      (s.While? || s.For?) && MayEnterElse(s) && BlockExecutes(s.orelse, inner, swallowing)
    case LoopExit(inner) =>
      && (s.While? || s.For?) && MayEnterBody(s) && BlockExecutes(s.body, inner, swallowing)
      && BlockOut(s.body, inner) != Normal && BlockOut(s.body, inner) != Continued
    case LoopNext(inner, rest) =>
      && (s.While? || s.For?) && MayEnterBody(s) && BlockExecutes(s.body, inner, swallowing)
      && (BlockOut(s.body, inner) == Normal || BlockOut(s.body, inner) == Continued)
      && Executes(s, rest, swallowing)
    case Managed(inner, o) =>
      && s.With? && BlockExecutes(s.body, inner, swallowing)
      && var b := BlockOut(s.body, inner);
         || o == Paused
         || (b != Paused && (o == b || o == Raised))
         || (b == Raised && o == Normal && s.id in swallowing)
    case Guarded(inner, rescue, last) =>
      && s.Try? && BlockExecutes(s.body, inner, swallowing)
      && var b := BlockOut(s.body, inner);
         && RescueExecutes(s, b, rescue, swallowing)
         && (if RescueOut(s, b, rescue) == Paused then last == []
             else BlockExecutes(s.finalbody, last, swallowing))
  }

  /** A block runs its statements in order until one does not complete normally. */
  predicate BlockExecutes(body: seq<Stmt>, rs: seq<Run>, swallowing: set<nat>)
    decreases rs, 0
  {
    if rs == [] then body == [] else
      && body != [] && Executes(body[0], rs[0], swallowing)
      && (if Out(body[0], rs[0]) == Normal then BlockExecutes(body[1..], rs[1..], swallowing) else |rs| == 1)
  }

  predicate RescueExecutes(s: Stmt, o: Outcome, rescue: Rescue, swallowing: set<nat>)
    requires s.Try?
    decreases rescue, 1
  {
    match rescue
    case Unhandled => o != Normal
    case ElseClause(run) => o == Normal && BlockExecutes(s.orelse, run, swallowing)
    case Handled(k, run) =>
      o == Raised && !s.star && k < |s.handlers| && BlockExecutes(s.handlers[k].body, run, swallowing)
    case GroupPart(_, _, _) => o == Raised && s.star && GroupExecutes(s, 0, rescue, swallowing)
    case GroupEnd(_) => false
  }

  /** `except*` clauses run in order, each at most once; none of them may return,
      break or continue. */
  predicate GroupExecutes(s: Stmt, from: nat, rescue: Rescue, swallowing: set<nat>)
    requires s.Try?
    decreases rescue, 0
  {
    match rescue
    case GroupPart(k, run, rest) =>
      && from <= k < |s.handlers| && BlockExecutes(s.handlers[k].body, run, swallowing)
      && var h := BlockOut(s.handlers[k].body, run);
         && (h == Normal || h == Raised || h == Paused)
         && (if h == Paused then rest == GroupEnd(false) else GroupExecutes(s, k + 1, rest, swallowing))
    case GroupEnd(_) => true
    case _ => false
  }

  // ---------- soundness ----------

  /** No context manager the analysis relies on swallows: a `with` it takes for
      terminating has a manager that lets exceptions through. */
  ghost predicate Trusted(seen: seq<Stmt>, swallowing: set<nat>) {
    forall w :: w in seen && w.With? && BlockTerminates(w.body) ==> w.id !in swallowing
  }

  lemma TrustedPart(whole: seq<Stmt>, part: seq<Stmt>, swallowing: set<nat>)
    requires Trusted(whole, swallowing) && forall w :: w in part ==> w in whole
    ensures Trusted(part, swallowing)
  {
  }

  /** Everything a live block yields is yielded by its owner. */
  lemma {:induction false} LiveBlockYielded(owner: Stmt, blocks: seq<seq<Stmt>>, k: nat, t: Stmt)
    requires forall i :: 0 <= i < |blocks| ==> (owner decreases to blocks[i])
    requires k < |blocks| && t in Reachable(blocks[k])
    ensures t in AllReachable(owner, blocks)
    decreases |blocks|
  {
    if k > 0 {
      LiveBlockYielded(owner, blocks[1..], k - 1, t);
    }
  }

  /** Soundness of one live block, lifted to the statement that owns it. */
  lemma {:induction false} LiveBlockSound(s: Stmt, k: nat, rs: seq<Run>, swallowing: set<nat>)
    requires k < |LiveBlocks(s)| && BlockExecutes(LiveBlocks(s)[k], rs, swallowing)
    requires Trusted(OwnReachable(s), swallowing)
    ensures BlockTerminates(LiveBlocks(s)[k]) ==> BlockOut(LiveBlocks(s)[k], rs) != Normal
    ensures forall t :: t in BlockTrace(LiveBlocks(s)[k], rs) ==> t in OwnReachable(s)
    decreases rs, 2
  {
    var block := LiveBlocks(s)[k];
    forall t | t in Reachable(block) ensures t in OwnReachable(s) {
      LiveBlockYielded(s, LiveBlocks(s), k, t);
    }
    TrustedPart(OwnReachable(s), Reachable(block), swallowing);
    BlockSound(block, rs, swallowing);
  }

  /** Main induction: a block the analysis calls terminating never completes
      normally, and every statement an execution starts is yielded. */
  lemma {:induction false} BlockSound(body: seq<Stmt>, rs: seq<Run>, swallowing: set<nat>)
    requires BlockExecutes(body, rs, swallowing) && Trusted(Reachable(body), swallowing)
    ensures BlockTerminates(body) ==> BlockOut(body, rs) != Normal
    ensures forall t :: t in BlockTrace(body, rs) ==> t in Reachable(body)
    decreases rs, 1
  {
    if rs != [] {
      TrustedPart(Reachable(body), OwnReachable(body[0]), swallowing);
      StatementSound(body[0], rs[0], swallowing);
      if Out(body[0], rs[0]) == Normal {
        TrustedPart(Reachable(body), Reachable(body[1..]), swallowing);
        BlockSound(body[1..], rs[1..], swallowing);
      } else {
        assert rs[1..] == [];
      }
    }
  }

  lemma {:induction false} StatementSound(s: Stmt, r: Run, swallowing: set<nat>)
    requires Executes(s, r, swallowing) && Trusted(OwnReachable(s), swallowing)
    ensures Terminates(s) ==> Out(s, r) != Normal
    ensures forall t :: t in Trace(s, r) ==> t in OwnReachable(s)
    decreases r, 3
  {
    match r
    case Leaf(_) =>
    case Arm(k, inner) =>
      if s.If? {
        LiveBlockSound(s, if k == 0 || s.test == Literal(false) then 0 else |LiveBlocks(s)| - 1, inner, swallowing);
      } else {
        LiveBlockSound(s, k, inner, swallowing);
      }
    case LoopElse(inner) =>
      LiveBlockSound(s, |LiveBlocks(s)| - 1, inner, swallowing);
    case LoopExit(inner) =>
      LiveBlockSound(s, 0, inner, swallowing);
      if Terminates(s) {
        NeverBreaks(s.body, inner, swallowing);
      }
    case LoopNext(inner, rest) =>
      LiveBlockSound(s, 0, inner, swallowing);
      StatementSound(s, rest, swallowing);
    case Managed(inner, _) =>
      assert LiveBlocks(s) == [s.body];
      LiveBlockSound(s, 0, inner, swallowing);
      assert s in OwnReachable(s);
    case Guarded(inner, rescue, last) =>
      var b := BlockOut(s.body, inner);
      LiveBlockSound(s, 0, inner, swallowing);
      RescueSound(s, b, rescue, swallowing);
      if RescueOut(s, b, rescue) != Paused {
        LiveBlockSound(s, 2, last, swallowing);
      }
  }

  lemma {:induction false} RescueSound(s: Stmt, o: Outcome, rescue: Rescue, swallowing: set<nat>)
    requires s.Try? && RescueExecutes(s, o, rescue, swallowing) && Trusted(OwnReachable(s), swallowing)
    ensures rescue.ElseClause? && BlockTerminates(s.orelse) ==> RescueOut(s, o, rescue) != Normal
    ensures !rescue.ElseClause? && (forall i :: 0 <= i < |s.handlers| ==> BlockTerminates(s.handlers[i].body)) ==>
              RescueOut(s, o, rescue) != Normal
    ensures forall t :: t in RescueTrace(s, rescue) ==> t in OwnReachable(s)
    decreases rescue, 3
  {
    match rescue
    case ElseClause(run) => LiveBlockSound(s, 1, run, swallowing);
    case Handled(k, run) => LiveBlockSound(s, 3 + k, run, swallowing);
    case GroupPart(_, _, _) => GroupSound(s, 0, o, rescue, swallowing);
    case _ =>
  }

  lemma {:induction false} GroupSound(s: Stmt, from: nat, o: Outcome, rescue: Rescue, swallowing: set<nat>)
    requires s.Try? && GroupExecutes(s, from, rescue, swallowing) && Trusted(OwnReachable(s), swallowing)
    ensures rescue.GroupPart? && (forall i :: 0 <= i < |s.handlers| ==> BlockTerminates(s.handlers[i].body)) ==>
              RescueOut(s, o, rescue) != Normal
    ensures forall t :: t in RescueTrace(s, rescue) ==> t in OwnReachable(s)
    decreases rescue, 2
  {
    if rescue.GroupPart? {
      LiveBlockSound(s, 3 + rescue.index, rescue.run, swallowing);
      if BlockOut(s.handlers[rescue.index].body, rescue.run) != Paused {
        GroupSound(s, rescue.index + 1, o, rescue.rest, swallowing);
      }
    }
  }

  // ---------- no break without a break statement ----------

  lemma {:induction false} NeverBreaks(body: seq<Stmt>, rs: seq<Run>, swallowing: set<nat>)
    requires BlockExecutes(body, rs, swallowing) && !BlockContainsBreak(body)
    ensures BlockOut(body, rs) != Broke
    decreases rs, 0
  {
    if rs != [] {
      StatementNeverBreaks(body[0], rs[0], swallowing);
      if Out(body[0], rs[0]) == Normal {
        NeverBreaks(body[1..], rs[1..], swallowing);
      }
    }
  }

  lemma {:induction false} StatementNeverBreaks(s: Stmt, r: Run, swallowing: set<nat>)
    requires Executes(s, r, swallowing) && !ContainsBreak(s)
    ensures Out(s, r) != Broke
    decreases r, 1
  {
    match r
    case Leaf(_) =>
    case Arm(k, inner) =>
      NeverBreaks(if s.Match? then s.cases[k].body else if k == 0 then s.body else s.orelse, inner, swallowing);
    case LoopElse(inner) => NeverBreaks(s.orelse, inner, swallowing);
    case LoopExit(inner) => NeverBreaks(s.body, inner, swallowing);
    case LoopNext(_, rest) => StatementNeverBreaks(s, rest, swallowing);
    case Managed(inner, _) => NeverBreaks(s.body, inner, swallowing);
    case Guarded(inner, rescue, last) =>
      NeverBreaks(s.body, inner, swallowing);
      var b := BlockOut(s.body, inner);
      RescueNeverBreaks(s, b, rescue, swallowing);
      if RescueOut(s, b, rescue) != Paused {
        NeverBreaks(s.finalbody, last, swallowing);
      }
  }

  lemma {:induction false} RescueNeverBreaks(s: Stmt, o: Outcome, rescue: Rescue, swallowing: set<nat>)
    requires s.Try? && RescueExecutes(s, o, rescue, swallowing) && !ContainsBreak(s) && o != Broke
    ensures RescueOut(s, o, rescue) != Broke
    decreases rescue, 1
  {
    match rescue
    case ElseClause(run) => NeverBreaks(s.orelse, run, swallowing);
    case Handled(k, run) => NeverBreaks(s.handlers[k].body, run, swallowing);
    case GroupPart(_, _, _) => GroupNeverBreaks(s, 0, o, rescue, swallowing);
    case _ =>
  }

  lemma {:induction false} GroupNeverBreaks(s: Stmt, from: nat, o: Outcome, rescue: Rescue, swallowing: set<nat>)
    requires s.Try? && GroupExecutes(s, from, rescue, swallowing)
    ensures RescueOut(s, o, rescue) != Broke
    decreases rescue, 0
  {
    if rescue.GroupPart? && BlockOut(s.handlers[rescue.index].body, rescue.run) != Paused {
      GroupNeverBreaks(s, rescue.index + 1, o, rescue.rest, swallowing);
    }
  }
}
