/** Every way a statement can end, computed from its text, and with it exactly which
    statements an execution can start. The measure of the gate's own verdicts. */
module Outcomes {
  import opened ControlFlow
  import opened Executions

  function LeafOuts(s: Stmt): set<Outcome> {
    set o: Outcome | LeafOutcome(s, o)
  }

  function LoopOuts(s: Stmt, body: set<Outcome>, orelse: set<Outcome>): set<Outcome>
    requires s.While? || s.For?
  {
    (if MayEnterElse(s) then orelse else {})
    + (if MayEnterBody(s) then body - {Normal, Continued, Broke} + (if Broke in body then {Normal} else {}) else {})
  }

  function WithOuts(s: Stmt, body: set<Outcome>, swallowing: set<nat>): set<Outcome>
    requires s.With?
  {
    body + {Paused}
    + (if body - {Paused} != {} then {Raised} else {})
    + (if Raised in body && s.id in swallowing then {Normal} else {})
  }

  /** A `finally` that completes lets the outcome before it through. */
  function FinallyOuts(before: set<Outcome>, last: set<Outcome>): set<Outcome> {
    (if Paused in before then {Paused} else {})
    + (if before - {Paused} == {} then {}
       else last - {Normal} + (if Normal in last then before - {Paused} else {}))
  }

  /** The outcomes of all executions of a statement. */
  function Outs(s: Stmt, swallowing: set<nat>): set<Outcome>
    decreases s, 2, 0
  {
    LeafOuts(s) + match s
    case If(_, _, body, orelse) =>
      (if MayEnterBody(s) then BlockOuts(body, swallowing) else {})
      + (if MayEnterElse(s) then BlockOuts(orelse, swallowing) else {})
    case While(_, _, body, orelse) => LoopOuts(s, BlockOuts(body, swallowing), BlockOuts(orelse, swallowing))
    case For(_, _, _, body, orelse) => LoopOuts(s, BlockOuts(body, swallowing), BlockOuts(orelse, swallowing))
    case Try(_, _, _, _, _, finalbody) => FinallyOuts(RescuedOuts(s, swallowing), BlockOuts(finalbody, swallowing))
    case With(_, _, body) => WithOuts(s, BlockOuts(body, swallowing), swallowing)
    case Match(_, _, cases) =>
      set k, o | 0 <= k < |cases| && o in BlockOuts(cases[k].body, swallowing) :: o
    case _ => {}
  }

  function BlockOuts(body: seq<Stmt>, swallowing: set<nat>): set<Outcome>
    decreases body, 0, 0
  {
    if body == [] then {Normal}
    else
      var first := Outs(body[0], swallowing);
      if Normal in first then first - {Normal} + BlockOuts(body[1..], swallowing) else first
  }

  /** What a `try` is left with when its `finally` begins. */
  function RescuedOuts(s: Stmt, swallowing: set<nat>): set<Outcome>
    requires s.Try?
    decreases s, 1, 0
  {
    var body := BlockOuts(s.body, swallowing);
    body - {Normal}
    + (if Normal in body then BlockOuts(s.orelse, swallowing) else {})
    + (if Raised !in body then {}
       else if s.star then GroupOuts(s, 0, swallowing)
       else set k, o | 0 <= k < |s.handlers| && o in BlockOuts(s.handlers[k].body, swallowing) :: o)
  }

  /** Chains of `except*` clauses whose first clause is `from` or a later one. */
  function GroupOuts(s: Stmt, from: nat, swallowing: set<nat>): set<Outcome>
    requires s.Try?
    decreases s, 0, |s.handlers| - from
  {
    if from >= |s.handlers| then {}
    else
      var clause := BlockOuts(s.handlers[from].body, swallowing);
      var later := GroupOuts(s, from + 1, swallowing);
      ClauseOuts(clause, later + {Normal, Raised}) + later
  }

  function ClauseOuts(clause: set<Outcome>, rest: set<Outcome>): set<Outcome> {
    (if Paused in clause then {Paused} else {})
    + (if Normal in clause then rest else {})
    + (if Raised in clause then {Raised} + (if Paused in rest then {Paused} else {}) else {})
  }

  // ---------- every execution ends in a computed outcome ----------

  lemma {:induction false} OutIsComputed(s: Stmt, r: Run, swallowing: set<nat>)
    requires Executes(s, r, swallowing)
    ensures Out(s, r) in Outs(s, swallowing)
    decreases r, 1
  {
    match r
    case Leaf(_) =>
    case Arm(k, inner) =>
      BlockOutIsComputed(if s.Match? then s.cases[k].body else if k == 0 then s.body else s.orelse, inner, swallowing);
    case LoopElse(inner) => BlockOutIsComputed(s.orelse, inner, swallowing);
    case LoopExit(inner) => BlockOutIsComputed(s.body, inner, swallowing);
    case LoopNext(_, rest) => OutIsComputed(s, rest, swallowing);
    case Managed(inner, _) => BlockOutIsComputed(s.body, inner, swallowing);
    case Guarded(_, _, _) => TryOutIsComputed(s, r, swallowing);
  }

  lemma {:induction false} TryOutIsComputed(s: Stmt, r: Run, swallowing: set<nat>)
    requires r.Guarded? && Executes(s, r, swallowing)
    ensures Out(s, r) in Outs(s, swallowing)
    decreases r, 0
  {
    var b := BlockOut(s.body, r.inner);
    BlockOutIsComputed(s.body, r.inner, swallowing);
    RescueIsComputed(s, b, r.rescue, swallowing);
    var m, before := RescueOut(s, b, r.rescue), RescuedOuts(s, swallowing);
    if m != Paused {
      BlockOutIsComputed(s.finalbody, r.last, swallowing);
      PassesThrough(before, BlockOuts(s.finalbody, swallowing), m, BlockOut(s.finalbody, r.last));
    }
  }

  lemma PassesThrough(before: set<Outcome>, last: set<Outcome>, m: Outcome, f: Outcome)
    requires m in before && m != Paused && f in last
    ensures (if f == Normal then m else f) in FinallyOuts(before, last)
  {
    assert m in before - {Paused};
  }

  lemma {:induction false} BlockOutIsComputed(body: seq<Stmt>, rs: seq<Run>, swallowing: set<nat>)
    requires BlockExecutes(body, rs, swallowing)
    ensures BlockOut(body, rs) in BlockOuts(body, swallowing)
    decreases rs, 0
  {
    if rs != [] {
      OutIsComputed(body[0], rs[0], swallowing);
      if Out(body[0], rs[0]) == Normal {
        BlockOutIsComputed(body[1..], rs[1..], swallowing);
      }
    }
  }

  lemma {:induction false} RescueIsComputed(s: Stmt, o: Outcome, rescue: Rescue, swallowing: set<nat>)
    requires s.Try? && o in BlockOuts(s.body, swallowing) && RescueExecutes(s, o, rescue, swallowing)
    ensures RescueOut(s, o, rescue) in RescuedOuts(s, swallowing)
    decreases rescue, 1
  {
    match rescue
    case ElseClause(run) => BlockOutIsComputed(s.orelse, run, swallowing);
    case Handled(k, run) => BlockOutIsComputed(s.handlers[k].body, run, swallowing);
    case GroupPart(_, _, _) => GroupIsComputed(s, 0, o, rescue, swallowing);
    case _ =>
  }

  lemma {:induction false} GroupIsComputed(s: Stmt, from: nat, o: Outcome, rescue: Rescue, swallowing: set<nat>)
    requires s.Try? && GroupExecutes(s, from, rescue, swallowing)
    ensures RescueOut(s, o, rescue) in GroupOuts(s, from, swallowing) + {Normal, Raised}
    ensures rescue.GroupPart? ==> RescueOut(s, o, rescue) in GroupOuts(s, from, swallowing)
    decreases rescue, 0
  {
    if rescue.GroupPart? {
      var k := rescue.index;
      BlockOutIsComputed(s.handlers[k].body, rescue.run, swallowing);
      if BlockOut(s.handlers[k].body, rescue.run) != Paused {
        GroupIsComputed(s, k + 1, o, rescue.rest, swallowing);
      }
      assert RescueOut(s, o, rescue) in GroupOuts(s, k, swallowing);
      LaterClauses(s, from, k, swallowing);
    }
  }

  lemma {:induction false} LaterClauses(s: Stmt, from: nat, k: nat, swallowing: set<nat>)
    requires s.Try? && from <= k <= |s.handlers|
    ensures GroupOuts(s, k, swallowing) <= GroupOuts(s, from, swallowing)
    decreases k - from
  {
    if from < k {
      LaterClauses(s, from + 1, k, swallowing);
    }
  }

  // ---------- every computed outcome has an execution ----------

  lemma {:induction false} RunFor(s: Stmt, o: Outcome, swallowing: set<nat>) returns (r: Run)
    requires o in Outs(s, swallowing)
    ensures Executes(s, r, swallowing) && Out(s, r) == o
    decreases s, 2, 0
  {
    if LeafOutcome(s, o) {
      r := Leaf(o);
    } else if s.If? {
      var k := if MayEnterBody(s) && o in BlockOuts(s.body, swallowing) then 0 else 1;
      var inner := BlockRunFor(if k == 0 then s.body else s.orelse, o, swallowing);
      r := Arm(k, inner);
    } else if s.Match? {
      var k :| 0 <= k < |s.cases| && o in BlockOuts(s.cases[k].body, swallowing);
      var inner := BlockRunFor(s.cases[k].body, o, swallowing);
      r := Arm(k, inner);
    } else if s.With? {
      r := WithRunFor(s, o, swallowing);
    } else if s.Try? {
      r := TryRunFor(s, o, swallowing);
    } else {
      r := LoopRunFor(s, o, swallowing);
    }
  }

  lemma {:induction false} LoopRunFor(s: Stmt, o: Outcome, swallowing: set<nat>) returns (r: Run)
    requires (s.While? || s.For?) && o in LoopOuts(s, BlockOuts(s.body, swallowing), BlockOuts(s.orelse, swallowing))
    ensures Executes(s, r, swallowing) && Out(s, r) == o
    decreases s, 1, 0
  {
    if MayEnterElse(s) && o in BlockOuts(s.orelse, swallowing) {
      var inner := BlockRunFor(s.orelse, o, swallowing);
      r := LoopElse(inner);
    } else {
      var inner := BlockRunFor(s.body, if o == Normal then Broke else o, swallowing);
      r := LoopExit(inner);
    }
  }

  lemma {:induction false} WithRunFor(s: Stmt, o: Outcome, swallowing: set<nat>) returns (r: Run)
    requires s.With? && o in WithOuts(s, BlockOuts(s.body, swallowing), swallowing)
    ensures Executes(s, r, swallowing) && Out(s, r) == o
    decreases s, 1, 0
  {
    var body := BlockOuts(s.body, swallowing);
    SomeOutcome(s.body, swallowing);
    var b :| b in body && (o in body ==> b == o) && (o !in body && o == Normal ==> b == Raised)
              && (o !in body && o == Raised ==> b != Paused);
    var inner := BlockRunFor(s.body, b, swallowing);
    r := Managed(inner, o);
  }

  lemma {:induction false} TryRunFor(s: Stmt, o: Outcome, swallowing: set<nat>) returns (r: Run)
    requires s.Try? && o in FinallyOuts(RescuedOuts(s, swallowing), BlockOuts(s.finalbody, swallowing))
    ensures Executes(s, r, swallowing) && Out(s, r) == o
    decreases s, 1, 1
  {
    var before, last := RescuedOuts(s, swallowing), BlockOuts(s.finalbody, swallowing);
    if o == Paused && o in before {
      var inner, rescue := RescueRunFor(s, o, swallowing);
      r := Guarded(inner, rescue, []);
    } else {
      var passed := o in before && Normal in last;
      var m :| m in before && m != Paused && (passed ==> m == o);
      var inner, rescue := RescueRunFor(s, m, swallowing);
      var end := BlockRunFor(s.finalbody, if passed then Normal else o, swallowing);
      r := Guarded(inner, rescue, end);
    }
  }

  lemma {:induction false} RescueRunFor(s: Stmt, o: Outcome, swallowing: set<nat>) returns (inner: seq<Run>, rescue: Rescue)
    requires s.Try? && o in RescuedOuts(s, swallowing)
    ensures BlockExecutes(s.body, inner, swallowing)
    ensures RescueExecutes(s, BlockOut(s.body, inner), rescue, swallowing)
    ensures RescueOut(s, BlockOut(s.body, inner), rescue) == o
    decreases s, 1, 0
  {
    var body := BlockOuts(s.body, swallowing);
    if o != Normal && o in body {
      inner := BlockRunFor(s.body, o, swallowing);
      rescue := Unhandled;
    } else if Normal in body && o in BlockOuts(s.orelse, swallowing) {
      inner := BlockRunFor(s.body, Normal, swallowing);
      var run := BlockRunFor(s.orelse, o, swallowing);
      rescue := ElseClause(run);
    } else {
      inner := BlockRunFor(s.body, Raised, swallowing);
      if s.star {
        rescue := GroupRunFor(s, 0, Raised, o, swallowing);
      } else {
        var k :| 0 <= k < |s.handlers| && o in BlockOuts(s.handlers[k].body, swallowing);
        var run := BlockRunFor(s.handlers[k].body, o, swallowing);
        rescue := Handled(k, run);
      }
    }
  }

  lemma {:induction false} GroupRunFor(s: Stmt, from: nat, before: Outcome, o: Outcome, swallowing: set<nat>) returns (rescue: Rescue)
    requires s.Try? && o in GroupOuts(s, from, swallowing)
    ensures rescue.GroupPart? && GroupExecutes(s, from, rescue, swallowing) && RescueOut(s, before, rescue) == o
    decreases s, 0, |s.handlers| - from
  {
    var clause, later := BlockOuts(s.handlers[from].body, swallowing), GroupOuts(s, from + 1, swallowing);
    if o in later {
      rescue := GroupRunFor(s, from + 1, before, o, swallowing);
    } else {
      var h := if o == Paused && Paused in clause then Paused else if Normal in clause && o != Paused then Normal else Raised;
      var run := BlockRunFor(s.handlers[from].body, h, swallowing);
      rescue := GroupPart(from, run, GroupEnd(o == Raised && h != Paused));
      LastClause(s, from, before, run, GroupEnd(o == Raised && h != Paused), swallowing);
    }
  }

  /** A chain of one clause. */
  lemma LastClause(s: Stmt, from: nat, before: Outcome, run: seq<Run>, end: Rescue, swallowing: set<nat>)
    requires s.Try? && from < |s.handlers| && end.GroupEnd? && BlockExecutes(s.handlers[from].body, run, swallowing)
    requires var h := BlockOut(s.handlers[from].body, run);
             h == Normal || h == Raised || (h == Paused && end == GroupEnd(false))
    ensures GroupExecutes(s, from, GroupPart(from, run, end), swallowing)
    ensures var h := BlockOut(s.handlers[from].body, run);
            RescueOut(s, before, GroupPart(from, run, end)) ==
              if h == Normal && !end.leftover then Normal else if h == Paused then Paused else Raised
  {
  }

  lemma {:induction false} BlockRunFor(body: seq<Stmt>, o: Outcome, swallowing: set<nat>) returns (rs: seq<Run>)
    requires o in BlockOuts(body, swallowing)
    ensures BlockExecutes(body, rs, swallowing) && BlockOut(body, rs) == o
    decreases body, 0, 0
  {
    if body == [] {
      rs := [];
    } else if o != Normal && o in Outs(body[0], swallowing) {
      var r := RunFor(body[0], o, swallowing);
      rs := [r];
    } else {
      var r := RunFor(body[0], Normal, swallowing);
      var rest := BlockRunFor(body[1..], o, swallowing);
      rs := [r] + rest;
      assert rs[1..] == rest;
    }
  }

  lemma SomeOutcome(body: seq<Stmt>, swallowing: set<nat>)
    ensures if body == [] then Normal in BlockOuts(body, swallowing) else {Paused, Raised} <= BlockOuts(body, swallowing)
  {
  }

  /** The computed outcomes are exactly those of executions, for every program and
      every choice of swallowing managers. */
  lemma OutsAreExact(s: Stmt, o: Outcome, swallowing: set<nat>)
    ensures o in Outs(s, swallowing) <==> exists r :: Executes(s, r, swallowing) && Out(s, r) == o
  {
    if o in Outs(s, swallowing) {
      var r := RunFor(s, o, swallowing);
    }
    forall r | Executes(s, r, swallowing) ensures Out(s, r) in Outs(s, swallowing) {
      OutIsComputed(s, r, swallowing);
    }
  }

  lemma BlockOutsAreExact(body: seq<Stmt>, o: Outcome, swallowing: set<nat>)
    ensures o in BlockOuts(body, swallowing) <==> exists rs :: BlockExecutes(body, rs, swallowing) && BlockOut(body, rs) == o
  {
    if o in BlockOuts(body, swallowing) {
      var rs := BlockRunFor(body, o, swallowing);
    }
    forall rs | BlockExecutes(body, rs, swallowing) ensures BlockOut(body, rs) in BlockOuts(body, swallowing) {
      BlockOutIsComputed(body, rs, swallowing);
    }
  }
}
