/** Exactly when the reachability analysis misses a statement that an execution
    starts, whatever the context managers swallow. */
module MissedStatements {
  import opened ControlFlow
  import opened Executions
  import opened Outcomes
  import opened Reachability

  /** No execution goes on behind a statement judged terminating, in any block an
      execution enters, unless there is nothing behind it. */
  predicate NothingMissed(body: seq<Stmt>, swallowing: set<nat>)
    decreases body, 0
  {
    body == [] ||
    (&& NothingMissedIn(body[0], swallowing)
     && (Normal in Outs(body[0], swallowing) && |body| > 1 ==>
           !Terminates(body[0]) && NothingMissed(body[1..], swallowing)))
  }

  predicate NothingMissedIn(s: Stmt, swallowing: set<nat>)
    decreases s, 1
  {
    forall k :: 0 <= k < |LiveBlocks(s)| ==> BlockMissesNothing(s, k, swallowing)
  }

  predicate BlockMissesNothing(s: Stmt, k: nat, swallowing: set<nat>)
    requires k < |LiveBlocks(s)|
    decreases s, 0
  {
    CanEnter(s, k, swallowing) ==> NothingMissed(LiveBlocks(s)[k], swallowing)
  }

  // ---------- enough for every program ----------

  lemma {:induction false} StartedAreYielded(body: seq<Stmt>, t: Stmt, swallowing: set<nat>)
    requires NothingMissed(body, swallowing) && t in Started(body, swallowing)
    ensures t in Reachable(body)
    decreases body, 0
  {
    if t in OwnStarted(body[0], swallowing) {
      OwnStartedAreYielded(body[0], t, swallowing);
    } else {
      StartedAreYielded(body[1..], t, swallowing);
    }
  }

  lemma {:induction false} OwnStartedAreYielded(s: Stmt, t: Stmt, swallowing: set<nat>)
    requires NothingMissedIn(s, swallowing) && t in OwnStarted(s, swallowing)
    ensures t in OwnReachable(s)
    decreases s, 1
  {
    if t != s {
      var k := StartedIsEntered(s, 0, t, swallowing);
      assert BlockMissesNothing(s, k, swallowing);
      StartedAreYielded(LiveBlocks(s)[k], t, swallowing);
      LiveBlockYielded(s, LiveBlocks(s), k, t);
    }
  }

  // ---------- the statements of a program ----------

  /** All statements outside the dead arms, in order. */
  function Live(body: seq<Stmt>): seq<Stmt>
    decreases body, 0, 0
  {
    if body == [] then [] else OwnLive(body[0]) + Live(body[1..])
  }

  function OwnLive(s: Stmt): seq<Stmt>
    decreases s, 2, 0
  {
    [s] + LiveFrom(s, 0)
  }

  function LiveFrom(s: Stmt, k: nat): seq<Stmt>
    requires k <= |LiveBlocks(s)|
    decreases s, 1, |LiveBlocks(s)| - k
  {
    if k == |LiveBlocks(s)| then [] else Live(LiveBlocks(s)[k]) + LiveFrom(s, k + 1)
  }

  /** Statements are nodes: no two are the same one. */
  ghost predicate AreDistinct(list: seq<Stmt>) {
    forall i, j :: 0 <= i < j < |list| ==> list[i] != list[j]
  }

  lemma DistinctParts(a: seq<Stmt>, b: seq<Stmt>)
    requires AreDistinct(a + b)
    ensures AreDistinct(a) && AreDistinct(b)
    ensures forall t :: t in a ==> t !in b
  {
    var both := a + b;
    forall i, j | 0 <= i < j < |a| ensures a[i] != a[j] {
      assert both[i] != both[j];
    }
    forall i, j | 0 <= i < j < |b| ensures b[i] != b[j] {
      assert both[|a| + i] != both[|a| + j];
    }
    forall t | t in a ensures t !in b {
      if t in b {
        TwiceIsNotDistinct(a, b, t);
      }
    }
  }

  lemma TwiceIsNotDistinct(a: seq<Stmt>, b: seq<Stmt>, t: Stmt)
    requires t in a && t in b
    ensures !AreDistinct(a + b)
  {
    var i :| 0 <= i < |a| && a[i] == t;
    var j :| 0 <= j < |b| && b[j] == t;
    assert (a + b)[i] == (a + b)[|a| + j];
  }

  lemma {:induction false} LiveBlockIsLive(s: Stmt, from: nat, k: nat, t: Stmt)
    requires from <= k < |LiveBlocks(s)| && t in Live(LiveBlocks(s)[k])
    ensures t in LiveFrom(s, from)
    decreases k - from
  {
    if from < k {
      LiveBlockIsLive(s, from + 1, k, t);
    }
  }

  lemma {:induction false} StartedIsLive(body: seq<Stmt>, t: Stmt, swallowing: set<nat>)
    requires t in Started(body, swallowing)
    ensures t in Live(body)
    decreases body, 0
  {
    if t in OwnStarted(body[0], swallowing) {
      OwnStartedIsLive(body[0], t, swallowing);
    } else {
      StartedIsLive(body[1..], t, swallowing);
    }
  }

  lemma {:induction false} OwnStartedIsLive(s: Stmt, t: Stmt, swallowing: set<nat>)
    requires t in OwnStarted(s, swallowing)
    ensures t in OwnLive(s)
    decreases s, 1
  {
    if t != s {
      var k := StartedIsEntered(s, 0, t, swallowing);
      StartedIsLive(LiveBlocks(s)[k], t, swallowing);
      LiveBlockIsLive(s, 0, k, t);
    }
  }

  lemma {:induction false} YieldedIsLive(body: seq<Stmt>, t: Stmt)
    requires t in Reachable(body)
    ensures t in Live(body)
    decreases body, 0
  {
    if t in OwnReachable(body[0]) {
      OwnYieldedIsLive(body[0], t);
    } else {
      YieldedIsLive(body[1..], t);
    }
  }

  lemma {:induction false} OwnYieldedIsLive(s: Stmt, t: Stmt)
    requires t in OwnReachable(s)
    ensures t in OwnLive(s)
    decreases s, 1
  {
    if t != s {
      var k := LiveBlockOf(s, LiveBlocks(s), t);
      YieldedIsLive(LiveBlocks(s)[k], t);
      LiveBlockIsLive(s, 0, k, t);
    }
  }

  // ---------- and needed when statements are distinct ----------

  lemma {:induction false} BlockIsDistinct(s: Stmt, from: nat, k: nat)
    requires from <= k < |LiveBlocks(s)| && AreDistinct(LiveFrom(s, from))
    ensures AreDistinct(Live(LiveBlocks(s)[k]))
    decreases k - from
  {
    DistinctParts(Live(LiveBlocks(s)[from]), LiveFrom(s, from + 1));
    if from < k {
      BlockIsDistinct(s, from + 1, k);
    }
  }

  lemma {:induction false} BlocksAreApart(s: Stmt, from: nat, j: nat, k: nat, t: Stmt)
    requires from <= j < |LiveBlocks(s)| && from <= k < |LiveBlocks(s)| && AreDistinct(LiveFrom(s, from))
    requires t in Live(LiveBlocks(s)[j]) && t in Live(LiveBlocks(s)[k])
    ensures j == k
    decreases |LiveBlocks(s)| - from
  {
    DistinctParts(Live(LiveBlocks(s)[from]), LiveFrom(s, from + 1));
    if j > from {
      LiveBlockIsLive(s, from + 1, j, t);
    }
    if k > from {
      LiveBlockIsLive(s, from + 1, k, t);
    }
    if j > from && k > from {
      BlocksAreApart(s, from + 1, j, k, t);
    }
  }

  lemma {:induction false} MissedStatement(body: seq<Stmt>, swallowing: set<nat>) returns (t: Stmt)
    requires !NothingMissed(body, swallowing) && AreDistinct(Live(body))
    ensures t in Started(body, swallowing) && t !in Reachable(body)
    decreases body, 0
  {
    var s, rest := body[0], body[1..];
    DistinctParts(OwnLive(s), Live(rest));
    if !NothingMissedIn(s, swallowing) {
      t := OwnMissedStatement(s, swallowing);
      OwnStartedIsLive(s, t, swallowing);
      if t in Reachable(rest) {
        YieldedIsLive(rest, t);
      }
    } else {
      if Terminates(s) {
        t := rest[0];
        assert t in OwnStarted(t, swallowing) && t in Started(rest, swallowing);
      } else {
        t := MissedStatement(rest, swallowing);
      }
      StartedIsLive(rest, t, swallowing);
      if t in OwnReachable(s) {
        OwnYieldedIsLive(s, t);
      }
    }
  }

  lemma {:induction false} OwnMissedStatement(s: Stmt, swallowing: set<nat>) returns (t: Stmt)
    requires !NothingMissedIn(s, swallowing) && AreDistinct(OwnLive(s))
    ensures t in OwnStarted(s, swallowing) && t !in OwnReachable(s)
    decreases s, 1
  {
    var k :| 0 <= k < |LiveBlocks(s)| && !BlockMissesNothing(s, k, swallowing);
    DistinctParts([s], LiveFrom(s, 0));
    BlockIsDistinct(s, 0, k);
    t := MissedStatement(LiveBlocks(s)[k], swallowing);
    EnteredIsStarted(s, 0, k, t, swallowing);
    StartedIsLive(LiveBlocks(s)[k], t, swallowing);
    LiveBlockIsLive(s, 0, k, t);
    if t in AllReachable(s, LiveBlocks(s)) {
      var j := LiveBlockOf(s, LiveBlocks(s), t);
      YieldedIsLive(LiveBlocks(s)[j], t);
      BlocksAreApart(s, 0, j, k, t);
    }
  }

  /** For every program and every choice of swallowing managers: the analysis yields
      all that executions start if and only if no execution goes on behind a
      statement judged terminating. */
  lemma AllStartedYieldedIff(body: seq<Stmt>, swallowing: set<nat>)
    requires AreDistinct(Live(body))
    ensures (forall t :: CanStart(body, t, swallowing) ==> t in Reachable(body)) <==> NothingMissed(body, swallowing)
  {
    if NothingMissed(body, swallowing) {
      forall t | CanStart(body, t, swallowing) ensures t in Reachable(body) {
        StartedIffCanStart(body, t, swallowing);
        StartedAreYielded(body, t, swallowing);
      }
    } else {
      var t := MissedStatement(body, swallowing);
      StartedIffCanStart(body, t, swallowing);
    }
  }
}
