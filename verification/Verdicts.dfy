/** What a verdict of "terminates" means, in both directions: exactly that no
    execution completes, on programs without the forms the analysis gives up on, and
    for every program once those forms are loosened. */
module Verdicts {
  import opened ControlFlow
  import opened Executions
  import opened Outcomes
  import opened Reachability

  // ---------- programs the analysis decides ----------

  /** No constant `if`, no loop with an `else`, and a constant `while` only as
      `while True` without a `break`; a `try` has a body, as the grammar demands. */
  predicate Decided(s: Stmt)
    decreases s, 1
  {
    match s
    case If(_, test, body, orelse) => test.Dynamic? && AllDecided(body) && AllDecided(orelse)
    case While(_, test, body, orelse) =>
      orelse == [] && AllDecided(body) && (test.Dynamic? || (test.truth && !BlockContainsBreak(body)))
    case For(_, _, _, body, orelse) => orelse == [] && AllDecided(body)
    case Try(_, _, body, handlers, orelse, finalbody) =>
      && body != [] && AllDecided(body) && AllDecided(orelse) && AllDecided(finalbody)
      && forall i :: 0 <= i < |handlers| ==> AllDecided(handlers[i].body)
    case With(_, _, body) => AllDecided(body)
    case Match(_, _, cases) => forall i :: 0 <= i < |cases| ==> AllDecided(cases[i].body)
    case _ => true
  }

  predicate AllDecided(body: seq<Stmt>)
    decreases body, 0
  {
    forall i :: 0 <= i < |body| ==> Decided(body[i])
  }

  lemma {:induction false} NeverCompletesIsVerdict(s: Stmt)
    requires Decided(s) && Normal !in Outs(s, {})
    ensures Terminates(s)
    decreases s, 1, 0
  {
    match s
    case If(_, _, body, orelse) =>
      BlockNeverCompletesIsVerdict(body);
      BlockNeverCompletesIsVerdict(orelse);
    case With(_, _, body) => BlockNeverCompletesIsVerdict(body);
    case Match(_, _, cases) => MatchNeverCompletes(s);
    case Try(_, _, _, _, _, _) => TryNeverCompletes(s);
    case _ =>
  }

  lemma {:induction false} BlockNeverCompletesIsVerdict(body: seq<Stmt>)
    requires AllDecided(body) && Normal !in BlockOuts(body, {})
    ensures BlockTerminates(body)
    decreases body, 0, 0
  {
    if Normal in Outs(body[0], {}) {
      BlockNeverCompletesIsVerdict(body[1..]);
    } else {
      NeverCompletesIsVerdict(body[0]);
    }
  }

  lemma {:induction false} MatchNeverCompletes(s: Stmt)
    requires s.Match? && Decided(s) && Normal !in Outs(s, {})
    ensures Terminates(s)
    decreases s, 0, 0
  {
    assert !LeafOutcome(s, Normal);
    var c :| 0 <= c < |s.cases| && !CanFail(s.cases[c]);
    assert IsCatchAll(s.cases[c]);
    forall i | 0 <= i < |s.cases| ensures BlockTerminates(s.cases[i].body) {
      BlockNeverCompletesIsVerdict(s.cases[i].body);
    }
  }

  lemma {:induction false} TryNeverCompletes(s: Stmt)
    requires s.Try? && Decided(s) && Normal !in Outs(s, {})
    ensures Terminates(s)
    decreases s, 0, 1
  {
    SomeOutcome(s.body, {});
    if Normal !in BlockOuts(s.finalbody, {}) {
      BlockNeverCompletesIsVerdict(s.finalbody);
    } else {
      assert Normal !in RescuedOuts(s, {});
      if Normal in BlockOuts(s.body, {}) {
        BlockNeverCompletesIsVerdict(s.orelse);
      } else {
        BlockNeverCompletesIsVerdict(s.body);
      }
      forall i | 0 <= i < |s.handlers| ensures BlockTerminates(s.handlers[i].body) {
        HandlerNeverCompletes(s, i);
        BlockNeverCompletesIsVerdict(s.handlers[i].body);
      }
    }
  }

  lemma HandlerNeverCompletes(s: Stmt, i: nat)
    requires s.Try? && s.body != [] && i < |s.handlers| && Normal !in RescuedOuts(s, {})
    ensures Normal !in BlockOuts(s.handlers[i].body, {})
  {
    SomeOutcome(s.body, {});
    if s.star {
      ClauseNeverCompletes(s, 0, i);
    }
  }

  lemma {:induction false} ClauseNeverCompletes(s: Stmt, from: nat, i: nat)
    requires s.Try? && from <= i < |s.handlers| && Normal !in GroupOuts(s, from, {})
    ensures Normal !in BlockOuts(s.handlers[i].body, {})
    decreases i - from
  {
    if from < i {
      ClauseNeverCompletes(s, from + 1, i);
    }
  }

  lemma NothingSwallowsIsTrusted(body: seq<Stmt>)
    ensures Trusted(body, {})
  {
  }

  /** On such programs the verdict is exact: a statement is called terminating if and
      only if none of its executions completes. */
  lemma VerdictIsExact(s: Stmt)
    requires Decided(s)
    ensures Terminates(s) <==> !CanComplete(s, {})
  {
    NothingSwallowsIsTrusted(OwnReachable(s));
    if Normal in Outs(s, {}) {
      var r := RunFor(s, Normal, {});
      assert CanComplete(s, {});
    } else {
      NeverCompletesIsVerdict(s);
      forall r | Executes(s, r, {}) ensures Out(s, r) != Normal {
        OutIsComputed(s, r, {});
      }
    }
    if Terminates(s) {
      TerminatingNeverCompletes(s, {});
    }
  }

  // ---------- every program, loosened ----------

  const UNKNOWN := Dynamic(Name("", false))

  /** A program with fewer certainties: tests are not looked at, loops that have an
      `else`, or a `break` anywhere below, may simply end. */
  function Loosened(s: Stmt): Stmt
    decreases s, 1
  {
    match s
    case If(id, _, body, orelse) => If(id, UNKNOWN, AllLoosened(body), AllLoosened(orelse))
    case While(id, test, body, orelse) =>
      var endless := test == Literal(true) && orelse == [] && !BlockContainsBreak(body);
      While(id, if endless then test else UNKNOWN, AllLoosened(body), [])
    case For(id, target, iterable, body, _) => For(id, target, iterable, AllLoosened(body), [])
    case Try(id, star, body, handlers, orelse, finalbody) =>
      Try(id, star, AllLoosened(body),
          seq(|handlers|, i requires 0 <= i < |handlers| => handlers[i].(body := AllLoosened(handlers[i].body))),
          AllLoosened(orelse), AllLoosened(finalbody))
    case With(id, items, body) => With(id, items, AllLoosened(body))
    case Match(id, subject, cases) =>
      Match(id, subject, seq(|cases|, i requires 0 <= i < |cases| => cases[i].(body := AllLoosened(cases[i].body))))
    case _ => s
  }

  function AllLoosened(body: seq<Stmt>): (loose: seq<Stmt>)
    ensures |loose| == |body|
    decreases body, 0
  {
    if body == [] then [] else [Loosened(body[0])] + AllLoosened(body[1..])
  }

  /** Every `try` has a body. */
  predicate Grammatical(s: Stmt)
    decreases s, 1
  {
    match s
    case If(_, _, body, orelse) => AllGrammatical(body) && AllGrammatical(orelse)
    case While(_, _, body, orelse) => AllGrammatical(body) && AllGrammatical(orelse)
    case For(_, _, _, body, orelse) => AllGrammatical(body) && AllGrammatical(orelse)
    case Try(_, _, body, handlers, orelse, finalbody) =>
      && body != [] && AllGrammatical(body) && AllGrammatical(orelse) && AllGrammatical(finalbody)
      && forall i :: 0 <= i < |handlers| ==> AllGrammatical(handlers[i].body)
    case With(_, _, body) => AllGrammatical(body)
    case Match(_, _, cases) => forall i :: 0 <= i < |cases| ==> AllGrammatical(cases[i].body)
    case _ => true
  }

  predicate AllGrammatical(body: seq<Stmt>)
    decreases body, 0
  {
    forall i :: 0 <= i < |body| ==> Grammatical(body[i])
  }

  /** What loosening keeps of a block. */
  ghost predicate KeepsVerdict(body: seq<Stmt>) {
    var loose := AllLoosened(body);
    && (BlockTerminates(loose) <==> BlockTerminates(body))
    && (BlockContainsBreak(loose) ==> BlockContainsBreak(body))
    && (AllGrammatical(body) ==> AllDecided(loose))
  }

  lemma {:induction false} LooseningKeepsBlock(body: seq<Stmt>)
    ensures KeepsVerdict(body)
    decreases body, 0
  {
    if body != [] {
      var loose := AllLoosened(body);
      LooseningKeeps(body[0]);
      LooseningKeepsBlock(body[1..]);
      assert loose[0] == Loosened(body[0]) && loose[1..] == AllLoosened(body[1..]);
      if AllGrammatical(body) {
        assert Grammatical(body[0]);
        assert AllGrammatical(body[1..]) by {
          forall i | 0 <= i < |body[1..]| ensures Grammatical(body[1..][i]) {
            assert body[1..][i] == body[i + 1];
          }
        }
        forall i | 0 <= i < |loose| ensures Decided(loose[i]) {
          assert i > 0 ==> loose[i] == loose[1..][i - 1];
        }
      }
    }
  }

  lemma {:induction false} LooseningKeeps(s: Stmt)
    ensures Terminates(Loosened(s)) <==> Terminates(s)
    ensures ContainsBreak(Loosened(s)) ==> ContainsBreak(s)
    ensures Grammatical(s) ==> Decided(Loosened(s))
    decreases s, 1
  {
    match s
    case If(_, _, body, orelse) =>
      LooseningKeepsBlock(body);
      LooseningKeepsBlock(orelse);
    case While(_, _, _, _) => LooseningKeepsLoop(s);
    case For(_, _, _, _, _) => LooseningKeepsLoop(s);
    case Try(_, _, _, _, _, _) => LooseningKeepsTry(s);
    case With(_, _, body) => LooseningKeepsBlock(body);
    case Match(_, _, _) => LooseningKeepsMatch(s);
    case _ =>
  }

  lemma {:induction false} LooseningKeepsLoop(s: Stmt)
    requires s.While? || s.For?
    ensures Terminates(Loosened(s)) <==> Terminates(s)
    ensures ContainsBreak(Loosened(s)) ==> ContainsBreak(s)
    ensures Grammatical(s) ==> Decided(Loosened(s))
    decreases s, 0
  {
    LooseningKeepsBlock(s.body);
    var loose := Loosened(s);
    assert loose.orelse == [] && loose.body == AllLoosened(s.body);
    assert !BlockContainsBreak(loose.orelse);
  }

  lemma {:induction false} LooseningKeepsTry(s: Stmt)
    requires s.Try?
    ensures Terminates(Loosened(s)) <==> Terminates(s)
    ensures ContainsBreak(Loosened(s)) ==> ContainsBreak(s)
    ensures Grammatical(s) ==> Decided(Loosened(s))
    decreases s, 0
  {
    LooseningKeepsBlock(s.body);
    LooseningKeepsBlock(s.orelse);
    LooseningKeepsBlock(s.finalbody);
    var loose := Loosened(s);
    forall i | 0 <= i < |s.handlers|
      ensures loose.handlers[i].body == AllLoosened(s.handlers[i].body) && KeepsVerdict(s.handlers[i].body)
    {
      LooseningKeepsBlock(s.handlers[i].body);
    }
  }

  lemma {:induction false} LooseningKeepsMatch(s: Stmt)
    requires s.Match?
    ensures Terminates(Loosened(s)) <==> Terminates(s)
    ensures ContainsBreak(Loosened(s)) ==> ContainsBreak(s)
    ensures Grammatical(s) ==> Decided(Loosened(s))
    decreases s, 0
  {
    var loose := Loosened(s);
    forall i | 0 <= i < |s.cases|
      ensures loose.cases[i].body == AllLoosened(s.cases[i].body) && KeepsVerdict(s.cases[i].body)
      ensures IsCatchAll(loose.cases[i]) <==> IsCatchAll(s.cases[i])
    {
      LooseningKeepsBlock(s.cases[i].body);
    }
  }

  /** For every program: a statement is called terminating if and only if no execution
      of it completes, even with its certainties loosened. */
  lemma VerdictMeansLoosened(s: Stmt)
    requires Grammatical(s)
    ensures Terminates(s) <==> !CanComplete(Loosened(s), {})
  {
    LooseningKeeps(s);
    VerdictIsExact(Loosened(s));
  }

  // ---------- where a `break` occurs ----------

  /** `t` is written somewhere below `s`, nested definitions included. */
  predicate Below(s: Stmt, t: Stmt)
    decreases s, 1
  {
    t == s || match s
    case Definition(_, _, _, body) => BelowBlock(body, t)
    case If(_, _, body, orelse) => BelowBlock(body, t) || BelowBlock(orelse, t)
    case While(_, _, body, orelse) => BelowBlock(body, t) || BelowBlock(orelse, t)
    case For(_, _, _, body, orelse) => BelowBlock(body, t) || BelowBlock(orelse, t)
    case Try(_, _, body, handlers, orelse, finalbody) =>
      || BelowBlock(body, t) || BelowBlock(orelse, t) || BelowBlock(finalbody, t)
      || exists i :: 0 <= i < |handlers| && BelowBlock(handlers[i].body, t)
    case With(_, _, body) => BelowBlock(body, t)
    case Match(_, _, cases) => exists i :: 0 <= i < |cases| && BelowBlock(cases[i].body, t)
    case _ => false
  }

  predicate BelowBlock(body: seq<Stmt>, t: Stmt)
    decreases body, 0
  {
    exists i :: 0 <= i < |body| && Below(body[i], t)
  }

  lemma {:induction false} BreakIsBelow(s: Stmt) returns (t: Stmt)
    requires ContainsBreak(s)
    ensures t.Break? && Below(s, t)
    decreases s, 1
  {
    match s {
      case Break(_) => t := s;
      case Definition(_, _, _, body) => t := BreakIsBelowBlock(body);
      case If(_, _, body, orelse) => t := BreakIsBelowBlock(if BlockContainsBreak(body) then body else orelse);
      case While(_, _, body, orelse) => t := BreakIsBelowBlock(if BlockContainsBreak(body) then body else orelse);
      case For(_, _, _, body, orelse) => t := BreakIsBelowBlock(if BlockContainsBreak(body) then body else orelse);
      case Try(_, _, body, handlers, orelse, finalbody) =>
        if i :| 0 <= i < |handlers| && BlockContainsBreak(handlers[i].body) {
          t := BreakIsBelowBlock(handlers[i].body);
        } else {
          t := BreakIsBelowBlock(if BlockContainsBreak(body) then body else if BlockContainsBreak(orelse) then orelse else finalbody);
        }
      case With(_, _, body) => t := BreakIsBelowBlock(body);
      case Match(_, _, cases) =>
        var i :| 0 <= i < |cases| && BlockContainsBreak(cases[i].body);
        t := BreakIsBelowBlock(cases[i].body);
    }
  }

  lemma {:induction false} BreakIsBelowBlock(body: seq<Stmt>) returns (t: Stmt)
    requires BlockContainsBreak(body)
    ensures t.Break? && BelowBlock(body, t)
    decreases body, 0
  {
    if ContainsBreak(body[0]) {
      t := BreakIsBelow(body[0]);
    } else {
      t := BreakIsBelowBlock(body[1..]);
      var i :| 0 <= i < |body[1..]| && Below(body[1..][i], t);
      assert body[1..][i] == body[i + 1];
    }
  }

  lemma {:induction false} BelowBreakIsFound(s: Stmt, t: Stmt)
    requires t.Break? && Below(s, t)
    ensures ContainsBreak(s)
    decreases s, 1
  {
    if t != s {
      match s
      case Definition(_, _, _, body) => BelowBlockBreakIsFound(body, t);
      case If(_, _, body, orelse) => BelowBlockBreakIsFound(if BelowBlock(body, t) then body else orelse, t);
      case While(_, _, body, orelse) => BelowBlockBreakIsFound(if BelowBlock(body, t) then body else orelse, t);
      case For(_, _, _, body, orelse) => BelowBlockBreakIsFound(if BelowBlock(body, t) then body else orelse, t);
      case Try(_, _, body, handlers, orelse, finalbody) =>
        if i :| 0 <= i < |handlers| && BelowBlock(handlers[i].body, t) {
          BelowBlockBreakIsFound(handlers[i].body, t);
        } else {
          BelowBlockBreakIsFound(if BelowBlock(body, t) then body else if BelowBlock(orelse, t) then orelse else finalbody, t);
        }
      case With(_, _, body) => BelowBlockBreakIsFound(body, t);
      case Match(_, _, cases) =>
        var i :| 0 <= i < |cases| && BelowBlock(cases[i].body, t);
        BelowBlockBreakIsFound(cases[i].body, t);
    }
  }

  lemma {:induction false} BelowBlockBreakIsFound(body: seq<Stmt>, t: Stmt)
    requires t.Break? && BelowBlock(body, t)
    ensures BlockContainsBreak(body)
    decreases body, 0
  {
    var i :| 0 <= i < |body| && Below(body[i], t);
    if i == 0 {
      BelowBreakIsFound(body[0], t);
    } else {
      assert body[1..][i - 1] == body[i];
      BelowBlockBreakIsFound(body[1..], t);
    }
  }

  /** The search for an escape finds a `break` exactly when one is written below. */
  lemma BreakIsFoundIff(body: seq<Stmt>)
    ensures BlockContainsBreak(body) <==> exists t: Stmt :: t.Break? && BelowBlock(body, t)
  {
    if BlockContainsBreak(body) {
      var t := BreakIsBelowBlock(body);
    }
    if t: Stmt :| t.Break? && BelowBlock(body, t) {
      BelowBlockBreakIsFound(body, t);
    }
  }
}
