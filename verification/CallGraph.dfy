/** Which local actions call which, and the closures the CI gate computes over
    that graph (`scripts/check_ci_workflow_resilience.py`), plus the import
    closure of the settings gate. Graphs may be cyclic and have dangling edges. */
module CallGraph {
  import opened Prelude

  type Graph = map<string, set<string>>

  predicate Edge(g: Graph, a: string, b: string) {
    a in g && b in g[a]
  }

  ghost predicate IsWalk(g: Graph, p: seq<string>) {
    p != [] && (|p| == 1 || (Edge(g, p[0], p[1]) && IsWalk(g, p[1..])))
  }

  ghost predicate Reaches(g: Graph, a: string, b: string) {
    exists p :: IsWalk(g, p) && p[0] == a && p[|p| - 1] == b
  }

  ghost predicate ReachesSome(g: Graph, a: string, goals: set<string>) {
    exists b :: b in goals && Reaches(g, a, b)
  }

  lemma ReachesItself(g: Graph, a: string)
    ensures Reaches(g, a, a)
  {
    assert IsWalk(g, [a]);
  }

  lemma ReachesThrough(g: Graph, a: string, b: string, c: string)
    requires Edge(g, a, b) && Reaches(g, b, c)
    ensures Reaches(g, a, c)
  {
    var p :| IsWalk(g, p) && p[0] == b && p[|p| - 1] == c;
    assert ([a] + p)[1..] == p;
    assert IsWalk(g, [a] + p);
  }

  lemma {:induction false} WalkOnward(g: Graph, p: seq<string>, c: string)
    requires IsWalk(g, p) && Edge(g, p[|p| - 1], c)
    ensures IsWalk(g, p + [c])
  {
    if |p| == 1 {
      assert (p + [c])[1..] == [c];
    } else {
      WalkOnward(g, p[1..], c);
      assert (p + [c])[1..] == p[1..] + [c];
    }
  }

  lemma ReachesOnward(g: Graph, a: string, b: string, c: string)
    requires Reaches(g, a, b) && Edge(g, b, c)
    ensures Reaches(g, a, c)
  {
    var p :| IsWalk(g, p) && p[0] == a && p[|p| - 1] == b;
    WalkOnward(g, p, c);
    assert (p + [c])[0] == a;
  }

  ghost predicate BackwardClosed(g: Graph, found: set<string>) {
    forall a, b :: Edge(g, a, b) && b in found ==> a in found
  }

  /** A set closed backwards under edges holds everything that reaches it. */
  lemma {:induction false} ClosedHoldsWalk(g: Graph, p: seq<string>, found: set<string>)
    requires IsWalk(g, p) && p[|p| - 1] in found
    requires BackwardClosed(g, found)
    ensures p[0] in found
  {
    if |p| > 1 {
      ClosedHoldsWalk(g, p[1..], found);
    }
  }

  // ---------- closure under "calls a consumer" ----------

  ghost predicate FoundReach(g: Graph, seeds: set<string>, found: set<string>) {
    forall d {:trigger ReachesSome(g, d, seeds)} :: d in found ==> ReachesSome(g, d, seeds)
  }

  lemma ClosedIsExact(g: Graph, seeds: set<string>, found: set<string>)
    requires seeds <= found && FoundReach(g, seeds, found) && BackwardClosed(g, found)
    ensures forall d :: d in found <==> ReachesSome(g, d, seeds)
  {
    forall d | ReachesSome(g, d, seeds) ensures d in found {
      var b :| b in seeds && Reaches(g, d, b);
      var p :| IsWalk(g, p) && p[0] == d && p[|p| - 1] == b;
      ClosedHoldsWalk(g, p, found);
    }
  }

  lemma SeedsReach(g: Graph, seeds: set<string>)
    ensures FoundReach(g, seeds, seeds)
  {
    forall d | d in seeds ensures ReachesSome(g, d, seeds) { ReachesItself(g, d); }
  }

  /** Repeated passes over the dictionary, in its own order, until one adds nothing. */
  method CloseUnderCalls(g: Graph, order: seq<string>, seeds: set<string>) returns (found: set<string>)
    requires forall d :: d in g <==> d in order
    ensures forall d :: d in found <==> ReachesSome(g, d, seeds)
  {
    SeedsReach(g, seeds);
    found := seeds;
    var settled := false;
    ghost var left := |g.Keys - found|;
    while !settled
      invariant left == |g.Keys - found|
      invariant seeds <= found && FoundReach(g, seeds, found)
      invariant settled ==> BackwardClosed(g, found)
      decreases left, !settled
    {
      found, settled := OnePass(g, order, seeds, found);
      left := |g.Keys - found|;
    }
    ClosedIsExact(g, seeds, found);
  }

  method OnePass(g: Graph, order: seq<string>, ghost seeds: set<string>, before: set<string>)
    returns (found: set<string>, settled: bool)
    requires forall d :: d in g <==> d in order
    requires FoundReach(g, seeds, before)
    ensures before <= found && FoundReach(g, seeds, found)
    ensures settled ==> BackwardClosed(g, found)
    ensures !settled ==> |g.Keys - found| < |g.Keys - before|
    ensures |g.Keys - found| <= |g.Keys - before|
  {
    found, settled := before, true;
    for i := 0 to |order|
      invariant before <= found && FoundReach(g, seeds, found)
      invariant settled ==> found == before
      invariant settled ==> forall j :: 0 <= j < i ==> order[j] in found || g[order[j]] * found == {}
      invariant !settled ==> exists d :: d in g && d in found && d !in before
    {
      var directory := order[i];
      if directory !in found && g[directory] * found != {} {
        AddingReaches(g, seeds, found, directory);
        found := found + {directory};
        settled := false;
      }
    }
    if settled {
      forall a, b | Edge(g, a, b) && b in found ensures a in found {
        var j :| 0 <= j < |order| && order[j] == a;
        assert b in g[a] * found || a in found;
      }
    } else {
      var d :| d in g && d in found && d !in before;
      ProperSubsetSize(g.Keys - found, g.Keys - before, d);
    }
  }

  lemma AddingReaches(g: Graph, seeds: set<string>, found: set<string>, d: string)
    requires FoundReach(g, seeds, found) && d in g && g[d] * found != {}
    ensures ReachesSome(g, d, seeds)
  {
    var t :| t in g[d] * found;
    assert ReachesSome(g, t, seeds);
    var b :| b in seeds && Reaches(g, t, b);
    ReachesThrough(g, d, t, b);
  }

  lemma ProperSubsetSize(a: set<string>, b: set<string>, d: string)
    requires a <= b && d in b && d !in a
    ensures |a| < |b|
  {
    assert b == a + (b - a) && d in b - a;
  }

  // ---------- the two closures of the gate ----------

  /** A parsed composite action: its directory and what its steps use. */
  datatype Use = Use(isDownload: bool, local: Option<string>)
  datatype Composite = Composite(directory: string, uses: seq<Use>)

  const DOWNLOAD_WRAPPER_DIR := ".github/actions/download-artifact"
  const TRACKING_ISSUE_DIR := ".github/actions/post-tracking-issue"

  function LocalTargets(uses: seq<Use>): set<string> {
    set i | 0 <= i < |uses| && uses[i].local.Some? :: uses[i].local.value
  }

  predicate Downloads(uses: seq<Use>) {
    exists i :: 0 <= i < |uses| && uses[i].isDownload
  }

  ghost predicate HasDownload(c: Composite) {
    exists u :: u in c.uses && u.isDownload
  }

  /** Directory to called directories; a later file of one directory replaces an earlier. */
  function CallsOf(files: seq<Composite>): Graph {
    if files == [] then map[]
    else
      var last := files[|files| - 1];
      CallsOf(files[..|files| - 1])[last.directory := LocalTargets(last.uses)]
  }

  /** The file that decides what a directory calls: no later one is in the same place. */
  ghost predicate Decides(files: seq<Composite>, i: int, a: string) {
    0 <= i < |files| && files[i].directory == a && forall j :: i < j < |files| ==> files[j].directory != a
  }

  ghost predicate UsesLocal(c: Composite, target: string) {
    exists u :: u in c.uses && u.local == Some(target)
  }

  lemma DecidesOneMore(files: seq<Composite>, last: Composite, i: int, a: string)
    ensures Decides(files + [last], i, a) <==> if last.directory == a then i == |files| else Decides(files, i, a)
  {
    var all := files + [last];
    assert all[|files|] == last && forall j :: 0 <= j < |files| ==> all[j] == files[j];
  }

  lemma {:induction false} DecidedCalls(files: seq<Composite>, i: int, a: string)
    requires Decides(files, i, a)
    ensures a in CallsOf(files) && CallsOf(files)[a] == LocalTargets(files[i].uses)
  {
    var k := |files| - 1;
    assert files == files[..k] + [files[k]];
    DecidesOneMore(files[..k], files[k], i, a);
    if i < k {
      DecidedCalls(files[..k], i, a);
    }
  }

  lemma {:induction false} CallerIsDecided(files: seq<Composite>, a: string) returns (i: int)
    requires a in CallsOf(files)
    ensures Decides(files, i, a)
  {
    var k := |files| - 1;
    i := k;
    assert files == files[..k] + [files[k]];
    if files[k].directory != a {
      i := CallerIsDecided(files[..k], a);
    }
    DecidesOneMore(files[..k], files[k], i, a);
  }

  /** One directory calls another exactly when the file that decides it has a step using it. */
  lemma CallsIffUsed(files: seq<Composite>, a: string, b: string)
    ensures Edge(CallsOf(files), a, b) <==> exists i :: Decides(files, i, a) && UsesLocal(files[i], b)
  {
    forall i | Decides(files, i, a)
      ensures a in CallsOf(files) && CallsOf(files)[a] == LocalTargets(files[i].uses)
    {
      DecidedCalls(files, i, a);
    }
    if a in CallsOf(files) {
      var i := CallerIsDecided(files, a);
      assert b in LocalTargets(files[i].uses) <==> UsesLocal(files[i], b);
    }
  }

  method BuildCalls(files: seq<Composite>) returns (calls: Graph, order: seq<string>, downloading: set<string>)
    ensures calls == CallsOf(files)
    ensures forall d :: d in calls <==> d in order
    ensures forall d :: d in downloading <==>
              exists i :: 0 <= i < |files| && files[i].directory == d && HasDownload(files[i])
  {
    calls, order, downloading := map[], [], {};
    for i := 0 to |files|
      invariant calls == CallsOf(files[..i])
      invariant forall d :: d in calls <==> d in order
      invariant forall d :: d in downloading <==>
                  exists j :: 0 <= j < i && files[j].directory == d && HasDownload(files[j])
    {
      assert files[..i + 1][..i] == files[..i];
      var file := files[i];
      if Downloads(file.uses) {
        downloading := downloading + {file.directory};
      }
      calls := calls[file.directory := LocalTargets(file.uses)];
      order := order + [file.directory];
    }
    assert files[..|files|] == files;
  }

  /** Exactly the directories from which some chain of calls ends at the tracking-issue sink. */
  method TrackingIssueDirs(files: seq<Composite>) returns (filers: set<string>)
    ensures forall d :: d in filers <==> Reaches(CallsOf(files), d, TRACKING_ISSUE_DIR)
  {
    var calls, order, _ := BuildCalls(files);
    filers := CloseUnderCalls(calls, order, {TRACKING_ISSUE_DIR});
    forall d ensures d in filers <==> Reaches(CallsOf(files), d, TRACKING_ISSUE_DIR) {
      assert TRACKING_ISSUE_DIR in {TRACKING_ISSUE_DIR};
    }
  }

  /** Exactly the directories from which some chain of calls ends at a composite
      that downloads artifacts, or at the wrapper. */
  method ArtifactConsumerDirs(files: seq<Composite>) returns (consumers: set<string>)
    ensures forall d :: d in consumers <==>
              || Reaches(CallsOf(files), d, DOWNLOAD_WRAPPER_DIR)
              || exists i :: 0 <= i < |files| && HasDownload(files[i]) && Reaches(CallsOf(files), d, files[i].directory)
  {
    var calls, order, downloading := BuildCalls(files);
    var seeds := downloading + {DOWNLOAD_WRAPPER_DIR};
    consumers := CloseUnderCalls(calls, order, seeds);
    forall d ensures d in consumers <==>
              || Reaches(CallsOf(files), d, DOWNLOAD_WRAPPER_DIR)
              || exists i :: 0 <= i < |files| && HasDownload(files[i]) && Reaches(CallsOf(files), d, files[i].directory)
    {
      if d in consumers {
        var b :| b in seeds && Reaches(calls, d, b);
      }
      assert DOWNLOAD_WRAPPER_DIR in seeds;
      forall i | 0 <= i < |files| && HasDownload(files[i]) ensures files[i].directory in seeds { }
    }
  }

  // ---------- the import closure ----------

  /** What importing each module pulls in; a module that is absent here cannot be
      read or parsed, which fails the scan. */
  type Imports = map<string, seq<string>>

  function AsGraph(imports: Imports): Graph {
    map m | m in imports :: set t | t in imports[m]
  }

  /** What the worklist keeps: everything found is reachable, and everything a
      visited module imports was found. */
  ghost predicate Exploring(imports: Imports, root: string, seen: set<string>, pending: seq<string>) {
    && seen <= imports.Keys && (root in seen || root in pending)
    && (forall m {:trigger Reaches(AsGraph(imports), root, m)} :: m in seen || m in pending ==> Reaches(AsGraph(imports), root, m))
    && forall a, b :: a in seen && b in imports[a] ==> b in seen || b in pending
  }

  lemma StartExploring(imports: Imports, root: string)
    ensures Exploring(imports, root, {}, [root])
  {
  }

  lemma SeenAgain(imports: Imports, root: string, seen: set<string>, rest: seq<string>, rel: string)
    requires Exploring(imports, root, seen, rest + [rel]) && rel in seen
    ensures Exploring(imports, root, seen, rest)
  {
  }

  lemma ImportsAreReached(imports: Imports, root: string, rel: string)
    requires rel in imports && Reaches(AsGraph(imports), root, rel)
    ensures forall b :: b in imports[rel] ==> Reaches(AsGraph(imports), root, b)
  {
    forall b | b in imports[rel] ensures Reaches(AsGraph(imports), root, b) {
      ReachesOnward(AsGraph(imports), root, rel, b);
    }
  }

  lemma SeenFirst(imports: Imports, root: string, seen: set<string>, rest: seq<string>, rel: string)
    requires Exploring(imports, root, seen, rest + [rel]) && rel in imports
    ensures Exploring(imports, root, seen + {rel}, rest + imports[rel])
  {
    assert rel in rest + [rel] && forall m :: m in rest ==> m in rest + [rel];
    assert Reaches(AsGraph(imports), root, rel);
    ImportsAreReached(imports, root, rel);
  }

  /** The duplicate-tolerant worklist: it visits exactly the modules reachable from
      the seed, and fails exactly when one of them cannot be read. */
  method ConstructionModules(imports: Imports, root: string) returns (closure: Result<set<string>, string>)
    ensures closure.Success? ==> forall m :: m in closure.value <==> Reaches(AsGraph(imports), root, m)
    ensures closure.Success? ==> closure.value <= imports.Keys
    ensures closure.Failure? ==> Reaches(AsGraph(imports), root, closure.error) && closure.error !in imports
  {
    var seen: set<string> := {};
    var pending := [root];
    StartExploring(imports, root);
    while pending != []
      invariant Exploring(imports, root, seen, pending)
      decreases |imports.Keys - seen|, |pending|
    {
      var rel, rest := pending[|pending| - 1], pending[..|pending| - 1];
      assert pending == rest + [rel];
      if rel in seen {
        SeenAgain(imports, root, seen, rest, rel);
        pending := rest;
      } else if rel !in imports {
        return Failure(rel);
      } else {
        ProperSubsetSize(imports.Keys - (seen + {rel}), imports.Keys - seen, rel);
        SeenFirst(imports, root, seen, rest, rel);
        seen := seen + {rel};
        pending := rest + imports[rel];
      }
    }
    ForwardClosedHoldsReached(AsGraph(imports), root, seen);
    closure := Success(seen);
  }

  lemma ForwardClosedHoldsReached(g: Graph, root: string, seen: set<string>)
    requires root in seen && forall a, b :: a in seen && Edge(g, a, b) ==> b in seen
    ensures forall m :: Reaches(g, root, m) ==> m in seen
  {
    forall m | Reaches(g, root, m) ensures m in seen {
      var p :| IsWalk(g, p) && p[0] == root && p[|p| - 1] == m;
      ForwardClosedHoldsWalk(g, p, seen);
    }
  }

  lemma {:induction false} ForwardClosedHoldsWalk(g: Graph, p: seq<string>, seen: set<string>)
    requires IsWalk(g, p) && p[0] in seen
    requires forall a, b :: a in seen && Edge(g, a, b) ==> b in seen
    ensures p[|p| - 1] in seen
  {
    if |p| > 1 {
      ForwardClosedHoldsWalk(g, p[1..], seen);
    }
  }
}
