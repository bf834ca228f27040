/** Over-cap functions and their lexical names
    (`scripts/_argument_count_sites.py`): the walker that keeps a stack of scopes
    finds each over-cap definition of a module exactly once, in the order of the
    walk, under the chain of classes and functions it is written in. */
module CandidateWalk {
  import opened Decimals

  // ---------- the tree ----------

  /** A definition's name, line, parameter counts and decorator names. */
  datatype Signature = Signature(name: string, lineno: nat, posOnly: nat, ordinary: nat, kwOnly: nat, decorators: set<string>)

  datatype Suite = Suite(stmts: seq<Stmt>)

  /** A statement. A field that a statement kind does not have is empty. */
  datatype Stmt =
    | ClassDef(name: string, body: Suite)
    | FunctionDef(signature: Signature, body: Suite)
    | Plain(body: Suite, orelse: Suite, finalbody: Suite, handlers: seq<Suite>, cases: seq<Suite>)

  /** The suites hanging off a plain statement. */
  function StatementBlocks(s: Stmt): (blocks: seq<Suite>)
    requires s.Plain?
    ensures forall k {:trigger blocks[k]} :: 0 <= k < |blocks| ==> (s decreases to blocks[k].stmts)
  {
    [s.body, s.orelse, s.finalbody] + s.handlers + s.cases
  }

  /** The suites a definition can be written in, one level below a statement. */
  function NestedBlocks(s: Stmt): (blocks: seq<Suite>)
    ensures forall k {:trigger blocks[k]} :: 0 <= k < |blocks| ==> (s decreases to blocks[k].stmts)
  {
    if s.Plain? then StatementBlocks(s) else [s.body]
  }

  // ---------- what a definition counts as ----------

  datatype Settings = Settings(rel: string, argCap: nat, positionalCap: nat)

  datatype Candidate = Candidate(rel: string, lineno: nat, qualname: string, argCount: nat, positionalCount: nat,
                                 overArgs: bool, overPositional: bool)

  /** The names of the enclosing classes and functions, outermost first, and whether
      the innermost of them is a class. */
  datatype Scope = Scope(names: seq<string>, inClass: bool)

  /** Total and positional parameters, without the receiver of a bound method. */
  function CountParameters(f: Signature, isMethod: bool): (nat, nat) {
    var positional := f.posOnly + f.ordinary;
    var bound := if isMethod && "staticmethod" !in f.decorators && positional > 0 then positional - 1 else positional;
    (bound + f.kwOnly, bound)
  }

  predicate IsOver(f: Signature, isMethod: bool, settings: Settings) {
    var (total, positional) := CountParameters(f, isMethod);
    total > settings.argCap || positional > settings.positionalCap
  }

  function DottedName(names: seq<string>): string {
    if names == [] then ""
    else if |names| == 1 then names[0]
    else DottedName(names[..|names| - 1]) + "." + names[|names| - 1]
  }

  function CandidateOf(f: Signature, scope: Scope, settings: Settings): Candidate {
    var (total, positional) := CountParameters(f, scope.inClass);
    Candidate(settings.rel, f.lineno, DottedName(scope.names + [f.name]), total, positional,
              total > settings.argCap, positional > settings.positionalCap)
  }

  /** The checks a candidate's constructor makes. */
  predicate IsLegal(c: Candidate) {
    && c.rel != "" && c.qualname != "" && c.lineno >= 1 && c.argCount >= 1 && c.positionalCount >= 0
    && (c.overArgs || c.overPositional)
  }

  /** A recorded candidate passes them exactly when its file has a path, its line is
      numbered from one, and it is not a nameless definition at the top. */
  lemma CandidateIsLegal(f: Signature, scope: Scope, settings: Settings)
    requires IsOver(f, scope.inClass, settings)
    ensures IsLegal(CandidateOf(f, scope, settings)) <==>
            settings.rel != "" && f.lineno >= 1 && (f.name != "" || scope.names != [])
  {
    if scope.names != [] {
      DottedNameEnds(scope.names + [f.name]);
    } else {
      assert scope.names + [f.name] == [f.name];
    }
  }

  // ---------- where a definition is ----------

  /** The place of a definition below a suite: the statement it is, or the block of
      the statement it is in. */
  datatype Address = Here(index: nat) | Inside(index: nat, block: nat, rest: Address)

  ghost predicate IsDefinition(stmts: seq<Stmt>, at: Address)
    decreases at
  {
    && at.index < |stmts|
    && if at.Here? then stmts[at.index].FunctionDef?
       else at.block < |NestedBlocks(stmts[at.index])| && IsDefinition(NestedBlocks(stmts[at.index])[at.block].stmts, at.rest)
  }

  ghost function DefinitionAt(stmts: seq<Stmt>, at: Address): Signature
    requires IsDefinition(stmts, at)
    decreases at
  {
    if at.Here? then stmts[at.index].signature
    else DefinitionAt(NestedBlocks(stmts[at.index])[at.block].stmts, at.rest)
  }

  /** The classes and functions a place is written in, outermost first. */
  ghost function Enclosing(stmts: seq<Stmt>, at: Address): seq<Stmt>
    requires IsDefinition(stmts, at)
    decreases at
  {
    if at.Here? then []
    else (if stmts[at.index].Plain? then [] else [stmts[at.index]]) + Enclosing(NestedBlocks(stmts[at.index])[at.block].stmts, at.rest)
  }

  function NameOf(s: Stmt): string
    requires !s.Plain?
  {
    if s.ClassDef? then s.name else s.signature.name
  }

  function Entered(scope: Scope, s: Stmt): Scope {
    if s.Plain? then scope else Scope(scope.names + [NameOf(s)], s.ClassDef?)
  }

  ghost predicate AreFrames(frames: seq<Stmt>) {
    forall i :: 0 <= i < |frames| ==> !frames[i].Plain?
  }

  ghost function Names(frames: seq<Stmt>): seq<string>
    requires AreFrames(frames)
  {
    seq(|frames|, i requires 0 <= i < |frames| => NameOf(frames[i]))
  }

  /** The scope of a place: all the names around it, and the kind of the innermost. */
  ghost function ScopeWithin(outer: Scope, frames: seq<Stmt>): Scope
    requires AreFrames(frames)
  {
    Scope(outer.names + Names(frames), if frames == [] then outer.inClass else frames[|frames| - 1].ClassDef?)
  }

  lemma {:induction false} EnclosingAreFrames(stmts: seq<Stmt>, at: Address)
    requires IsDefinition(stmts, at)
    ensures AreFrames(Enclosing(stmts, at))
    decreases at
  {
    if at.Inside? {
      EnclosingAreFrames(NestedBlocks(stmts[at.index])[at.block].stmts, at.rest);
    }
  }

  /** The scope of the definition at a place of a whole module, or below a suite
      already inside a scope. */
  ghost function ScopeAt(stmts: seq<Stmt>, at: Address, outer: Scope): Scope
    requires IsDefinition(stmts, at)
  {
    EnclosingAreFrames(stmts, at);
    ScopeWithin(outer, Enclosing(stmts, at))
  }

  lemma ScopeWithinStep(outer: Scope, s: Stmt, inner: seq<Stmt>)
    requires !s.Plain? && AreFrames(inner) && AreFrames([s] + inner)
    ensures ScopeWithin(outer, [s] + inner) == ScopeWithin(Entered(outer, s), inner)
  {
  }

  lemma ScopeOneLevelDown(stmts: seq<Stmt>, at: Address, outer: Scope)
    requires IsDefinition(stmts, at) && at.Inside?
    ensures ScopeAt(stmts, at, outer)
         == ScopeAt(NestedBlocks(stmts[at.index])[at.block].stmts, at.rest, Entered(outer, stmts[at.index]))
  {
    var s := stmts[at.index];
    var block := NestedBlocks(s)[at.block].stmts;
    var inner := Enclosing(block, at.rest);
    EnclosingAreFrames(block, at.rest);
    EnclosingAreFrames(stmts, at);
    if s.Plain? {
      assert Enclosing(stmts, at) == inner;
    } else {
      assert Enclosing(stmts, at) == [s] + inner;
      ScopeWithinStep(outer, s, inner);
    }
  }

  /** The order of the walk: by statement, a definition before what it holds, then by
      block, which at a `try` puts `else` and `finally` before the handlers. */
  predicate Before(a: Address, b: Address) {
    || a.index < b.index
    || (a.index == b.index && a.Here? && b.Inside?)
    || (a.index == b.index && a.Inside? && b.Inside? && (a.block < b.block || (a.block == b.block && Before(a.rest, b.rest))))
  }

  // ---------- the listing ----------

  datatype Entry = Entry(at: Address, candidate: Candidate, exempt: bool)

  function OwnEntry(s: Stmt, index: nat, scope: Scope, settings: Settings): seq<Entry> {
    if s.FunctionDef? && IsOver(s.signature, scope.inClass, settings)
    then [Entry(Here(index), CandidateOf(s.signature, scope, settings), "override" in s.signature.decorators)]
    else []
  }

  function Lifted(index: nat, block: nat, entries: seq<Entry>): seq<Entry> {
    seq(|entries|, i requires 0 <= i < |entries| => entries[i].(at := Inside(index, block, entries[i].at)))
  }

  function Listing(stmts: seq<Stmt>, scope: Scope, settings: Settings): seq<Entry>
    decreases stmts, 0
  {
    if stmts == [] then []
    else
      var k := |stmts| - 1;
      Listing(stmts[..k], scope, settings) + ListingOf(stmts[k], k, scope, settings)
  }

  /** What one statement contributes. */
  function ListingOf(s: Stmt, index: nat, scope: Scope, settings: Settings): seq<Entry>
    decreases s, |NestedBlocks(s)| + 1
  {
    OwnEntry(s, index, scope, settings) + ListingBelow(s, index, Entered(scope, s), settings, |NestedBlocks(s)|)
  }

  function ListingBelow(s: Stmt, index: nat, inner: Scope, settings: Settings, n: nat): seq<Entry>
    requires n <= |NestedBlocks(s)|
    decreases s, n
  {
    if n == 0 then []
    else ListingBelow(s, index, inner, settings, n - 1)
         + Lifted(index, n - 1, Listing(NestedBlocks(s)[n - 1].stmts, inner, settings))
  }

  function Candidates(entries: seq<Entry>): seq<Candidate> {
    seq(|entries|, i requires 0 <= i < |entries| => entries[i].candidate)
  }

  function ExemptLines(entries: seq<Entry>): set<nat> {
    set i | 0 <= i < |entries| && entries[i].exempt :: entries[i].candidate.lineno
  }

  // ---------- the listing holds exactly the over-cap definitions ----------

  ghost predicate Describes(e: Entry, stmts: seq<Stmt>, scope: Scope, settings: Settings) {
    && IsDefinition(stmts, e.at)
    && var f, own := DefinitionAt(stmts, e.at), ScopeAt(stmts, e.at, scope);
       && IsOver(f, own.inClass, settings)
       && e.candidate == CandidateOf(f, own, settings)
       && e.exempt == ("override" in f.decorators)
  }

  lemma PrefixAgrees(stmts: seq<Stmt>, k: nat, at: Address, scope: Scope)
    requires k <= |stmts| && at.index < k
    ensures IsDefinition(stmts[..k], at) <==> IsDefinition(stmts, at)
    ensures IsDefinition(stmts, at) ==> DefinitionAt(stmts[..k], at) == DefinitionAt(stmts, at) && ScopeAt(stmts[..k], at, scope) == ScopeAt(stmts, at, scope)
  {
  }

  lemma {:induction false} ListingDescribes(stmts: seq<Stmt>, scope: Scope, settings: Settings, e: Entry)
    ensures e in Listing(stmts, scope, settings) ==> Describes(e, stmts, scope, settings)
    decreases stmts, 0
  {
    if stmts != [] {
      var k := |stmts| - 1;
      if e in Listing(stmts[..k], scope, settings) {
        ListingDescribes(stmts[..k], scope, settings, e);
        PrefixAgrees(stmts, k, e.at, scope);
      } else if e in ListingOf(stmts[k], k, scope, settings) {
        OneDescribes(stmts, k, scope, settings, e);
      }
    }
  }

  lemma {:induction false} OneDescribes(stmts: seq<Stmt>, k: nat, scope: Scope, settings: Settings, e: Entry)
    requires k < |stmts| && e in ListingOf(stmts[k], k, scope, settings)
    ensures Describes(e, stmts, scope, settings) && e.at.index == k
    decreases stmts[k], |NestedBlocks(stmts[k])| + 1
  {
    if e in OwnEntry(stmts[k], k, scope, settings) {
      ScopeHere(stmts, e.at, scope);
    } else {
      BelowDescribes(stmts, k, scope, settings, |NestedBlocks(stmts[k])|, e);
    }
  }

  lemma {:induction false} BelowDescribes(stmts: seq<Stmt>, k: nat, scope: Scope, settings: Settings, n: nat, e: Entry)
    requires k < |stmts| && n <= |NestedBlocks(stmts[k])|
    requires e in ListingBelow(stmts[k], k, Entered(scope, stmts[k]), settings, n)
    ensures Describes(e, stmts, scope, settings) && e.at.Inside? && e.at.index == k && e.at.block < n
    decreases stmts[k], n
  {
    var inner := Entered(scope, stmts[k]);
    if e in ListingBelow(stmts[k], k, inner, settings, n - 1) {
      BelowDescribes(stmts, k, scope, settings, n - 1, e);
    } else {
      var block := NestedBlocks(stmts[k])[n - 1].stmts;
      var below := Listing(block, inner, settings);
      var i :| 0 <= i < |below| && e == below[i].(at := Inside(k, n - 1, below[i].at));
      ListingDescribes(block, inner, settings, below[i]);
      ScopeOneLevelDown(stmts, e.at, scope);
    }
  }

  ghost predicate Lists(entries: seq<Entry>, at: Address) {
    exists i :: 0 <= i < |entries| && entries[i].at == at
  }

  lemma ListsAppend(a: seq<Entry>, b: seq<Entry>, at: Address)
    ensures Lists(a, at) || Lists(b, at) ==> Lists(a + b, at)
  {
    if Lists(a, at) {
      var i :| 0 <= i < |a| && a[i].at == at;
      assert (a + b)[i].at == at;
    } else if Lists(b, at) {
      var i :| 0 <= i < |b| && b[i].at == at;
      assert (a + b)[|a| + i].at == at;
    }
  }

  lemma ScopeHere(stmts: seq<Stmt>, at: Address, scope: Scope)
    requires IsDefinition(stmts, at) && at.Here?
    ensures ScopeAt(stmts, at, scope) == scope
  {
  }

  lemma {:induction false} ListingIsComplete(stmts: seq<Stmt>, scope: Scope, settings: Settings, at: Address)
    requires IsDefinition(stmts, at) && IsOver(DefinitionAt(stmts, at), ScopeAt(stmts, at, scope).inClass, settings)
    ensures Lists(Listing(stmts, scope, settings), at)
    decreases stmts, 0
  {
    var k := |stmts| - 1;
    if at.index < k {
      PrefixAgrees(stmts, k, at, scope);
      ListingIsComplete(stmts[..k], scope, settings, at);
    } else {
      OneIsComplete(stmts, k, scope, settings, at);
    }
    ListsAppend(Listing(stmts[..k], scope, settings), ListingOf(stmts[k], k, scope, settings), at);
  }

  lemma {:induction false} OneIsComplete(stmts: seq<Stmt>, k: nat, scope: Scope, settings: Settings, at: Address)
    requires k < |stmts| && at.index == k
    requires IsDefinition(stmts, at) && IsOver(DefinitionAt(stmts, at), ScopeAt(stmts, at, scope).inClass, settings)
    ensures Lists(ListingOf(stmts[k], k, scope, settings), at)
    decreases stmts[k], |NestedBlocks(stmts[k])| + 1
  {
    var n, own := |NestedBlocks(stmts[k])|, OwnEntry(stmts[k], k, scope, settings);
    if at.Here? {
      ScopeHere(stmts, at, scope);
      assert own[0].at == at;
    } else {
      BelowIsComplete(stmts, k, scope, settings, n, at);
    }
    ListsAppend(own, ListingBelow(stmts[k], k, Entered(scope, stmts[k]), settings, n), at);
  }

  lemma {:induction false} BelowIsComplete(stmts: seq<Stmt>, k: nat, scope: Scope, settings: Settings, n: nat, at: Address)
    requires k < |stmts| && n <= |NestedBlocks(stmts[k])|
    requires at.Inside? && at.index == k && at.block < n
    requires IsDefinition(stmts, at) && IsOver(DefinitionAt(stmts, at), ScopeAt(stmts, at, scope).inClass, settings)
    ensures Lists(ListingBelow(stmts[k], k, Entered(scope, stmts[k]), settings, n), at)
    decreases stmts[k], n
  {
    var inner := Entered(scope, stmts[k]);
    var block := NestedBlocks(stmts[k])[n - 1].stmts;
    var lifted := Lifted(k, n - 1, Listing(block, inner, settings));
    if at.block < n - 1 {
      BelowIsComplete(stmts, k, scope, settings, n - 1, at);
    } else {
      ScopeOneLevelDown(stmts, at, scope);
      ListingIsComplete(block, inner, settings, at.rest);
      var i :| 0 <= i < |lifted| && Listing(block, inner, settings)[i].at == at.rest;
      assert lifted[i].at == at;
    }
    ListsAppend(ListingBelow(stmts[k], k, inner, settings, n - 1), lifted, at);
  }

  ghost predicate Ordered(entries: seq<Entry>) {
    forall i, j :: 0 <= i < j < |entries| ==> Before(entries[i].at, entries[j].at)
  }

  ghost predicate AllBefore(a: seq<Entry>, b: seq<Entry>) {
    forall x, y :: x in a && y in b ==> Before(x.at, y.at)
  }

  lemma OrderedAppend(a: seq<Entry>, b: seq<Entry>)
    requires Ordered(a) && Ordered(b) && AllBefore(a, b)
    ensures Ordered(a + b)
  {
  }

  /** Each over-cap definition is listed once, and the list is in walk order. */
  lemma {:induction false} ListingIsOrdered(stmts: seq<Stmt>, scope: Scope, settings: Settings)
    ensures Ordered(Listing(stmts, scope, settings))
    decreases stmts, 0
  {
    if stmts != [] {
      var k := |stmts| - 1;
      var before, last := Listing(stmts[..k], scope, settings), ListingOf(stmts[k], k, scope, settings);
      ListingIsOrdered(stmts[..k], scope, settings);
      OneIsOrdered(stmts, k, scope, settings);
      forall e | e in before ensures e.at.index < k {
        ListingDescribes(stmts[..k], scope, settings, e);
      }
      forall e | e in last ensures e.at.index == k {
        OneDescribes(stmts, k, scope, settings, e);
      }
      OrderedAppend(before, last);
    }
  }

  lemma {:induction false} OneIsOrdered(stmts: seq<Stmt>, k: nat, scope: Scope, settings: Settings)
    requires k < |stmts|
    ensures Ordered(ListingOf(stmts[k], k, scope, settings))
    decreases stmts[k], |NestedBlocks(stmts[k])| + 1
  {
    var n := |NestedBlocks(stmts[k])|;
    var below := ListingBelow(stmts[k], k, Entered(scope, stmts[k]), settings, n);
    BelowIsOrdered(stmts, k, scope, settings, n);
    forall e | e in below ensures e.at.Inside? && e.at.index == k {
      BelowDescribes(stmts, k, scope, settings, n, e);
    }
    OrderedAppend(OwnEntry(stmts[k], k, scope, settings), below);
  }

  lemma {:induction false} BelowIsOrdered(stmts: seq<Stmt>, k: nat, scope: Scope, settings: Settings, n: nat)
    requires k < |stmts| && n <= |NestedBlocks(stmts[k])|
    ensures Ordered(ListingBelow(stmts[k], k, Entered(scope, stmts[k]), settings, n))
    decreases stmts[k], n
  {
    if n > 0 {
      var inner := Entered(scope, stmts[k]);
      var earlier := ListingBelow(stmts[k], k, inner, settings, n - 1);
      var block := NestedBlocks(stmts[k])[n - 1].stmts;
      BelowIsOrdered(stmts, k, scope, settings, n - 1);
      ListingIsOrdered(block, inner, settings);
      forall e | e in earlier ensures e.at.Inside? && e.at.index == k && e.at.block < n - 1 {
        BelowDescribes(stmts, k, scope, settings, n - 1, e);
      }
      OrderedAppend(earlier, Lifted(k, n - 1, Listing(block, inner, settings)));
    }
  }

  lemma {:induction false} BeforeIsStrict(a: Address)
    ensures !Before(a, a)
  {
    if a.Inside? {
      BeforeIsStrict(a.rest);
    }
  }

  ghost predicate ListedOnce(entries: seq<Entry>, at: Address) {
    exists i :: 0 <= i < |entries| && entries[i].at == at && forall j :: 0 <= j < |entries| && entries[j].at == at ==> j == i
  }

  /** The walk of a module records every over-cap definition exactly once, with the
      counts of a method exactly when the innermost scope around it is a class, and
      records nothing else. */
  lemma EachOverCapOnce(stmts: seq<Stmt>, settings: Settings, at: Address)
    ensures var top := Scope([], false);
            ListedOnce(Listing(stmts, top, settings), at) <==>
            IsDefinition(stmts, at) && IsOver(DefinitionAt(stmts, at), ScopeAt(stmts, at, top).inClass, settings)
  {
    var top := Scope([], false);
    var entries := Listing(stmts, top, settings);
    if ListedOnce(entries, at) {
      var i :| 0 <= i < |entries| && entries[i].at == at;
      ListingDescribes(stmts, top, settings, entries[i]);
    }
    if IsDefinition(stmts, at) && IsOver(DefinitionAt(stmts, at), ScopeAt(stmts, at, top).inClass, settings) {
      ListingIsComplete(stmts, top, settings, at);
      ListingIsOrdered(stmts, top, settings);
      BeforeIsStrict(at);
      var i :| 0 <= i < |entries| && entries[i].at == at;
    }
  }

  // ---------- the walker ----------

  lemma ListingStep(stmts: seq<Stmt>, i: nat, scope: Scope, settings: Settings)
    requires i < |stmts|
    ensures Listing(stmts[..i + 1], scope, settings) == Listing(stmts[..i], scope, settings) + ListingOf(stmts[i], i, scope, settings)
  {
    assert stmts[..i + 1][..i] == stmts[..i];
  }

  lemma BelowOneBlock(s: Stmt, index: nat, inner: Scope, settings: Settings)
    requires !s.Plain?
    ensures ListingBelow(s, index, inner, settings, 1) == Lifted(index, 0, Listing(s.body.stmts, inner, settings))
  {
  }

  lemma OneEntry(entries: seq<Entry>)
    ensures |entries| == 1 ==> Candidates(entries) == [entries[0].candidate]
    ensures |entries| == 1 ==> ExemptLines(entries) == if entries[0].exempt then {entries[0].candidate.lineno} else {}
  {
  }

  lemma EntriesAppend(a: seq<Entry>, b: seq<Entry>)
    ensures Candidates(a + b) == Candidates(a) + Candidates(b)
    ensures ExemptLines(a + b) == ExemptLines(a) + ExemptLines(b)
  {
    forall l | l in ExemptLines(a) ensures l in ExemptLines(a + b) {
      var i :| 0 <= i < |a| && a[i].exempt && a[i].candidate.lineno == l;
      assert (a + b)[i] == a[i];
    }
    forall l | l in ExemptLines(b) ensures l in ExemptLines(a + b) {
      var i :| 0 <= i < |b| && b[i].exempt && b[i].candidate.lineno == l;
      assert (a + b)[|a| + i] == b[i];
    }
  }

  lemma LiftedRecordsTheSame(index: nat, block: nat, entries: seq<Entry>)
    ensures Candidates(Lifted(index, block, entries)) == Candidates(entries)
    ensures ExemptLines(Lifted(index, block, entries)) == ExemptLines(entries)
  {
    var lifted := Lifted(index, block, entries);
    forall l | l in ExemptLines(entries) ensures l in ExemptLines(lifted) {
      var i :| 0 <= i < |entries| && entries[i].exempt && entries[i].candidate.lineno == l;
      assert lifted[i].exempt && lifted[i].candidate.lineno == l;
    }
  }

  /** What the walker has: its two stacks and its two accumulators. */
  datatype Log = Log(stack: seq<string>, inClass: seq<bool>, candidates: seq<Candidate>, exemptLines: set<nat>)

  /** The log after recording entries: the stacks are as they were. */
  function Recorded(log: Log, entries: seq<Entry>): Log {
    log.(candidates := log.candidates + Candidates(entries), exemptLines := log.exemptLines + ExemptLines(entries))
  }

  lemma RecordedAppend(log: Log, a: seq<Entry>, b: seq<Entry>)
    ensures Recorded(Recorded(log, a), b) == Recorded(log, a + b)
  {
    EntriesAppend(a, b);
    assert log.candidates + Candidates(a) + Candidates(b) == log.candidates + (Candidates(a) + Candidates(b));
  }

  lemma RecordedNothing(log: Log)
    ensures Recorded(log, []) == log
  {
  }

  lemma RecordedLifted(log: Log, index: nat, block: nat, entries: seq<Entry>)
    ensures Recorded(log, Lifted(index, block, entries)) == Recorded(log, entries)
  {
    LiftedRecordsTheSame(index, block, entries);
  }

  function ScopeOf(log: Log): Scope
    requires log.inClass != []
  {
    Scope(log.stack, log.inClass[|log.inClass| - 1])
  }

  lemma RecordedKeepsScope(log: Log, entries: seq<Entry>)
    requires log.inClass != []
    ensures Recorded(log, entries).inClass == log.inClass && ScopeOf(Recorded(log, entries)) == ScopeOf(log)
  {
  }

  lemma RecordedStep(log: Log, stmts: seq<Stmt>, i: nat, scope: Scope, settings: Settings)
    requires i < |stmts|
    ensures Recorded(Recorded(log, Listing(stmts[..i], scope, settings)), ListingOf(stmts[i], i, scope, settings))
         == Recorded(log, Listing(stmts[..i + 1], scope, settings))
  {
    ListingStep(stmts, i, scope, settings);
    RecordedAppend(log, Listing(stmts[..i], scope, settings), ListingOf(stmts[i], i, scope, settings));
  }

  lemma RecordedBlock(log: Log, stmt: Stmt, index: nat, k: nat, scope: Scope, settings: Settings)
    requires stmt.Plain? && k < |NestedBlocks(stmt)|
    ensures Recorded(Recorded(log, ListingBelow(stmt, index, scope, settings, k)), Listing(NestedBlocks(stmt)[k].stmts, scope, settings))
         == Recorded(log, ListingBelow(stmt, index, scope, settings, k + 1))
  {
    var before := ListingBelow(stmt, index, scope, settings, k);
    var found := Listing(NestedBlocks(stmt)[k].stmts, scope, settings);
    RecordedAppend(log, before, Lifted(index, k, found));
    RecordedLifted(Recorded(log, before), index, k, found);
  }

  class CandidateWalker {
    const settings: Settings
    var stack: seq<string>
    var inClass: seq<bool>
    var candidates: seq<Candidate>
    var exemptLines: set<nat>

    constructor (settings: Settings)
      ensures this.settings == settings && Contents() == Log([], [false], [], {})
    {
      this.settings := settings;
      stack, inClass, candidates, exemptLines := [], [false], [], {};
    }

    ghost function Contents(): Log
      reads this
    {
      Log(stack, inClass, candidates, exemptLines)
    }

    ghost function Current(): Scope
      requires inClass != []
      reads this
    {
      ScopeOf(Contents())
    }

    /** Records the definitions below a suite and restores both stacks. */
    method Walk(body: Suite)
      requires inClass != []
      modifies this
      ensures Contents() == Recorded(old(Contents()), Listing(body.stmts, old(Current()), settings))
      decreases body.stmts, 1
    {
      ghost var start, scope := Contents(), Current();
      RecordedNothing(start);
      for i := 0 to |body.stmts|
        invariant Contents() == Recorded(start, Listing(body.stmts[..i], scope, settings))
      {
        WalkOne(body, i, start);
      }
      assert body.stmts[..|body.stmts|] == body.stmts;
    }

    /** One round of the walk. */
    method WalkOne(body: Suite, i: nat, ghost start: Log)
      requires i < |body.stmts| && start.inClass != []
      requires Contents() == Recorded(start, Listing(body.stmts[..i], ScopeOf(start), settings))
      modifies this
      ensures Contents() == Recorded(start, Listing(body.stmts[..i + 1], ScopeOf(start), settings))
      decreases body.stmts, 0
    {
      RecordedStep(start, body.stmts, i, ScopeOf(start), settings);
      RecordedKeepsScope(start, Listing(body.stmts[..i], ScopeOf(start), settings));
      VisitStatement(body.stmts[i], i);
    }

    method VisitStatement(stmt: Stmt, ghost index: nat)
      requires inClass != []
      modifies this
      ensures Contents() == Recorded(old(Contents()), ListingOf(stmt, index, old(Current()), settings))
      decreases stmt, 2
    {
      ghost var log, scope := Contents(), Current();
      ghost var below := ListingBelow(stmt, index, Entered(scope, stmt), settings, |NestedBlocks(stmt)|);
      assert !stmt.FunctionDef? ==> [] + below == below;
      if stmt.ClassDef? {
        stack, inClass := stack + [stmt.name], inClass + [true];
        WalkBody(stmt, index, log);
      } else if stmt.FunctionDef? {
        ghost var own := OwnEntry(stmt, index, scope, settings);
        RecordedAppend(log, own, below);
        VisitFunction(stmt, index);
        WalkBody(stmt, index, Recorded(log, own));
      } else {
        WalkBlocks(stmt, index);
      }
    }

    method WalkBlocks(stmt: Stmt, ghost index: nat)
      requires inClass != [] && stmt.Plain?
      modifies this
      ensures Contents() == Recorded(old(Contents()), ListingBelow(stmt, index, old(Current()), settings, |NestedBlocks(stmt)|))
      decreases stmt, 0
    {
      ghost var start, scope := Contents(), Current();
      var blocks := StatementBlocks(stmt);
      RecordedNothing(start);
      for k := 0 to |blocks|
        invariant Contents() == Recorded(start, ListingBelow(stmt, index, scope, settings, k))
      {
        RecordedBlock(start, stmt, index, k, scope, settings);
        RecordedKeepsScope(start, ListingBelow(stmt, index, scope, settings, k));
        Walk(blocks[k]);
      }
    }

    /** Walks the body of a class or function whose scope was just pushed, and pops it. */
    method WalkBody(stmt: Stmt, ghost index: nat, ghost log: Log)
      requires !stmt.Plain? && log.inClass != []
      requires Contents() == log.(stack := log.stack + [NameOf(stmt)], inClass := log.inClass + [stmt.ClassDef?])
      modifies this
      ensures Contents() == Recorded(log, ListingBelow(stmt, index, Entered(ScopeOf(log), stmt), settings, 1))
      decreases stmt, 1
    {
      ghost var scope := ScopeOf(log);
      ghost var found := Listing(stmt.body.stmts, Entered(scope, stmt), settings);
      BelowOneBlock(stmt, index, Entered(scope, stmt), settings);
      RecordedLifted(log, index, 0, found);
      Walk(stmt.body);
      stack, inClass := stack[..|stack| - 1], inClass[..|inClass| - 1];
    }

    /** A definition is measured as a method of the scope around it, under its own
        name, and leaves its scope open. */
    method VisitFunction(stmt: Stmt, ghost index: nat)
      requires inClass != [] && stmt.FunctionDef?
      modifies this
      ensures var log := Recorded(old(Contents()), OwnEntry(stmt, index, old(Current()), settings));
              Contents() == log.(stack := log.stack + [stmt.signature.name], inClass := log.inClass + [false])
    {
      var f := stmt.signature;
      var isMethod := inClass[|inClass| - 1];
      stack, inClass := stack + [f.name], inClass + [false];
      var (total, positional) := CountParameters(f, isMethod);
      var overArgs, overPositional := total > settings.argCap, positional > settings.positionalCap;
      if overArgs || overPositional {
        candidates := candidates + [Candidate(settings.rel, f.lineno, DottedName(stack), total, positional, overArgs, overPositional)];
        if "override" in f.decorators {
          exemptLines := exemptLines + {f.lineno};
        }
      }
      OneEntry(OwnEntry(stmt, index, old(Current()), settings));
      RecordedNothing(old(Contents()));
    }
  }

  // ---------- counting by the fields of the tree ----------

  /** Wider than a cap allows, where the receiver of a bound method is one parameter on top. */
  ghost predicate TooWide(f: Signature, inClass: bool, settings: Settings) {
    var receivers := if inClass && "staticmethod" !in f.decorators && (f.posOnly > 0 || f.ordinary > 0) then 1 else 0;
    || f.posOnly + f.ordinary + f.kwOnly > settings.argCap + receivers
    || f.posOnly + f.ordinary > settings.positionalCap + receivers
  }

  /** How many definitions are too wide anywhere below: field by field, with a class
      making methods of what its statements hold, and a function undoing that. */
  ghost function WideIn(stmts: seq<Stmt>, inClass: bool, settings: Settings): nat {
    if stmts == [] then 0
    else
      var k := |stmts| - 1;
      WideIn(stmts[..k], inClass, settings) + WideAt(stmts[k], inClass, settings)
  }

  ghost function WideAt(s: Stmt, inClass: bool, settings: Settings): nat {
    match s
    case ClassDef(_, body) => WideIn(body.stmts, true, settings)
    case FunctionDef(f, body) => (if TooWide(f, inClass, settings) then 1 else 0) + WideIn(body.stmts, false, settings)
    case Plain(body, orelse, finalbody, handlers, cases) =>
      WideIn(body.stmts, inClass, settings) + WideIn(orelse.stmts, inClass, settings) + WideIn(finalbody.stmts, inClass, settings)
      + WideInAll(handlers, inClass, settings) + WideInAll(cases, inClass, settings)
  }

  ghost function WideInAll(suites: seq<Suite>, inClass: bool, settings: Settings): nat {
    if suites == [] then 0
    else
      var k := |suites| - 1;
      WideInAll(suites[..k], inClass, settings) + WideIn(suites[k].stmts, inClass, settings)
  }

  lemma {:induction false} WideInAllAppend(a: seq<Suite>, b: seq<Suite>, inClass: bool, settings: Settings)
    ensures WideInAll(a + b, inClass, settings) == WideInAll(a, inClass, settings) + WideInAll(b, inClass, settings)
  {
    if b == [] {
      assert a + b == a;
    } else {
      var k := |b| - 1;
      assert (a + b)[..|a + b| - 1] == a + b[..k];
      WideInAllAppend(a, b[..k], inClass, settings);
    }
  }

  lemma WideInOne(suite: Suite, inClass: bool, settings: Settings)
    ensures WideInAll([suite], inClass, settings) == WideIn(suite.stmts, inClass, settings)
  {
    assert [suite][..0] == [];
  }

  /** Every suite a statement hangs is counted, whichever field it hangs off. */
  lemma BlocksHoldAll(s: Stmt, inClass: bool, settings: Settings)
    requires s.Plain?
    ensures WideInAll(NestedBlocks(s), inClass, settings) == WideAt(s, inClass, settings)
  {
    var three := [s.body] + [s.orelse] + [s.finalbody];
    assert NestedBlocks(s) == three + s.handlers + s.cases;
    WideInAllAppend(three + s.handlers, s.cases, inClass, settings);
    WideInAllAppend(three, s.handlers, inClass, settings);
    WideInAllAppend([s.body] + [s.orelse], [s.finalbody], inClass, settings);
    WideInAllAppend([s.body], [s.orelse], inClass, settings);
    WideInOne(s.body, inClass, settings);
    WideInOne(s.orelse, inClass, settings);
    WideInOne(s.finalbody, inClass, settings);
  }

  /** The walk lists as many definitions as the tree holds too wide ones, whatever
      statements they are nested in. */
  lemma {:induction false} ListingCountsTheTree(stmts: seq<Stmt>, scope: Scope, settings: Settings)
    ensures |Listing(stmts, scope, settings)| == WideIn(stmts, scope.inClass, settings)
    decreases stmts, 0
  {
    if stmts != [] {
      var k := |stmts| - 1;
      ListingCountsTheTree(stmts[..k], scope, settings);
      ListingOfCounts(stmts[k], k, scope, settings);
    }
  }

  lemma {:induction false} ListingOfCounts(s: Stmt, index: nat, scope: Scope, settings: Settings)
    ensures |ListingOf(s, index, scope, settings)| == WideAt(s, scope.inClass, settings)
    decreases s, |NestedBlocks(s)| + 1
  {
    var blocks := NestedBlocks(s);
    ListingBelowCounts(s, index, Entered(scope, s), settings, |blocks|);
    assert blocks[..|blocks|] == blocks;
    if s.Plain? {
      BlocksHoldAll(s, scope.inClass, settings);
    } else {
      WideInOne(s.body, Entered(scope, s).inClass, settings);
    }
  }

  lemma {:induction false} ListingBelowCounts(s: Stmt, index: nat, inner: Scope, settings: Settings, n: nat)
    requires n <= |NestedBlocks(s)|
    ensures |ListingBelow(s, index, inner, settings, n)| == WideInAll(NestedBlocks(s)[..n], inner.inClass, settings)
    decreases s, n
  {
    if n > 0 {
      ListingBelowCounts(s, index, inner, settings, n - 1);
      ListingCountsTheTree(NestedBlocks(s)[n - 1].stmts, inner, settings);
      assert NestedBlocks(s)[..n][..n - 1] == NestedBlocks(s)[..n - 1];
    }
  }

  // ---------- the key of a candidate ----------

  function Key(rel: string, qualname: string, arity: nat): string {
    rel + "::" + qualname + "::" + Decimal(arity)
  }

  ghost predicate IsIdentifier(name: string) {
    name != "" && '.' !in name && ':' !in name
  }

  ghost predicate AreIdentifiers(names: seq<string>) {
    forall i :: 0 <= i < |names| ==> IsIdentifier(names[i])
  }

  lemma {:induction false} DottedNameHasNoColon(names: seq<string>)
    requires AreIdentifiers(names)
    ensures ':' !in DottedName(names)
  {
    if |names| > 1 {
      DottedNameHasNoColon(names[..|names| - 1]);
      assert IsIdentifier(names[|names| - 1]);
    } else if |names| == 1 {
      assert IsIdentifier(names[0]);
    }
  }

  lemma DottedNameEnds(names: seq<string>)
    requires |names| > 1
    ensures '.' in DottedName(names)
    ensures DottedName(names) == DottedName(names[..|names| - 1]) + ['.'] + names[|names| - 1]
  {
  }

  /** A dotted name spells one chain of identifiers only. */
  lemma {:induction false} DottedNameIsInjective(a: seq<string>, b: seq<string>)
    requires AreIdentifiers(a) && AreIdentifiers(b) && a != [] && b != []
    requires DottedName(a) == DottedName(b)
    ensures a == b
  {
    assert IsIdentifier(a[|a| - 1]) && IsIdentifier(b[|b| - 1]);
    if |a| > 1 {
      DottedNameEnds(a);
    }
    if |b| > 1 {
      DottedNameEnds(b);
    }
    if |a| > 1 && |b| > 1 {
      var m, n := |a| - 1, |b| - 1;
      SplitAtLast(DottedName(a[..m]), a[m], DottedName(b[..n]), b[n], '.');
      DottedNameIsInjective(a[..m], b[..n]);
      assert a == a[..m] + [a[m]] && b == b[..n] + [b[n]];
    }
  }

  lemma SplitTwoColons(before: string, after: string, before': string, after': string)
    requires ':' !in after && ':' !in after'
    requires before + "::" + after == before' + "::" + after'
    ensures before == before' && after == after'
  {
    assert before + "::" + after == (before + [':']) + [':'] + after;
    assert before' + "::" + after' == (before' + [':']) + [':'] + after';
    SplitAtLast(before + [':'], after, before' + [':'], after', ':');
    assert (before + [':'])[..|before|] == before && (before' + [':'])[..|before'|] == before';
  }

  /** Two candidates share a key only when file, chain of names and arity all agree,
      whatever characters the path holds. */
  lemma KeyIsInjective(rel: string, chain: seq<string>, arity: nat, rel': string, chain': seq<string>, arity': nat)
    requires AreIdentifiers(chain) && AreIdentifiers(chain') && chain != [] && chain' != []
    requires Key(rel, DottedName(chain), arity) == Key(rel', DottedName(chain'), arity')
    ensures rel == rel' && chain == chain' && arity == arity'
  {
    DecimalRoundTrip(arity);
    DecimalRoundTrip(arity');
    SplitTwoColons(rel + "::" + DottedName(chain), Decimal(arity), rel' + "::" + DottedName(chain'), Decimal(arity'));
    DecimalIsInjective(arity, arity');
    DottedNameHasNoColon(chain);
    DottedNameHasNoColon(chain');
    SplitTwoColons(rel, DottedName(chain), rel', DottedName(chain'));
    DottedNameIsInjective(chain, chain');
  }
}
