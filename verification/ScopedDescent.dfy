/** Walking a syntax tree with an explicit stack while carrying the functions around
    each node (`scripts/_setting_reachability_literals.py`, `walk_with_scopes`). */
module ScopedDescent {
  import opened Prelude

  datatype Node = Node(text: string, isFunction: bool, children: seq<Node>)

  /** The enclosing functions of a node, outermost first; a function is in its own. */
  type Chain = seq<Node>

  /** A place in the tree: which child to take at each level. */
  type Place = seq<nat>

  ghost predicate IsPlace(root: Node, at: Place)
    decreases |at|, 0
  {
    at == [] || (IsPlace(root, Parent(at)) && at[|at| - 1] < |NodeAt(root, Parent(at)).children|)
  }

  ghost function Parent(at: Place): Place
    requires at != []
  {
    at[..|at| - 1]
  }

  ghost function NodeAt(root: Node, at: Place): Node
    requires IsPlace(root, at)
    decreases |at|, 1
  {
    if at == [] then root else NodeAt(root, Parent(at)).children[at[|at| - 1]]
  }

  ghost function ChainAt(root: Node, at: Place): Chain
    requires IsPlace(root, at)
    decreases |at|
  {
    if at == [] then []
    else ChainAt(root, Parent(at)) + if NodeAt(root, at).isFunction then [NodeAt(root, at)] else []
  }

  // ---------- the order of the walk ----------

  ghost function ChildPlaces(at: Place, n: nat): seq<Place> {
    seq(n, k requires 0 <= k < n => at + [k])
  }

  /** Below a place: its children left to right, then below each child, the last
      child first, since the stack gives back the last one pushed. */
  ghost function Order(root: Node, at: Place): seq<Place>
    requires IsPlace(root, at)
    decreases NodeAt(root, at), |NodeAt(root, at).children| + 1
  {
    var n := |NodeAt(root, at).children|;
    ChildPlaces(at, n) + OrderBelow(root, at, n)
  }

  ghost function OrderBelow(root: Node, at: Place, n: nat): seq<Place>
    requires IsPlace(root, at) && n <= |NodeAt(root, at).children|
    decreases NodeAt(root, at), n
  {
    if n == 0 then []
    else
      Order(root, at + [n - 1]) + OrderBelow(root, at, n - 1)
  }

  ghost predicate Under(at: Place, place: Place) {
    |at| < |place| && place[..|at|] == at
  }

  lemma {:induction false} OrderIsSound(root: Node, at: Place, place: Place)
    requires IsPlace(root, at)
    ensures place in Order(root, at) ==> IsPlace(root, place) && Under(at, place)
    decreases NodeAt(root, at), |NodeAt(root, at).children| + 1
  {
    var n := |NodeAt(root, at).children|;
    if place in ChildPlaces(at, n) {
      var k :| 0 <= k < n && place == at + [k];
    } else {
      BelowIsSound(root, at, n, place);
    }
  }

  lemma {:induction false} BelowIsSound(root: Node, at: Place, n: nat, place: Place)
    requires IsPlace(root, at) && n <= |NodeAt(root, at).children|
    ensures place in OrderBelow(root, at, n) ==> IsPlace(root, place) && Under(at, place) && |place| > |at| + 1 && place[|at|] < n
    decreases NodeAt(root, at), n
  {
    if n > 0 {
      OrderIsSound(root, at + [n - 1], place);
      BelowIsSound(root, at, n - 1, place);
    }
  }

  lemma {:induction false} PrefixIsPlace(root: Node, place: Place, n: nat)
    requires IsPlace(root, place) && n <= |place|
    ensures IsPlace(root, place[..n])
    decreases |place|
  {
    if n < |place| {
      PrefixIsPlace(root, Parent(place), n);
      assert Parent(place)[..n] == place[..n];
    } else {
      assert place[..n] == place;
    }
  }

  lemma PlaceIsUnderItsBranch(root: Node, at: Place, place: Place)
    requires IsPlace(root, at) && IsPlace(root, place) && Under(at, place)
    ensures place[|at|] < |NodeAt(root, at).children|
  {
  }

  lemma {:induction false} OrderIsComplete(root: Node, at: Place, place: Place)
    requires IsPlace(root, at) && IsPlace(root, place) && Under(at, place)
    ensures place in Order(root, at)
    decreases NodeAt(root, at), |NodeAt(root, at).children| + 1
  {
    var n := |NodeAt(root, at).children|;
    PlaceIsUnderItsBranch(root, at, place);
    if |place| == |at| + 1 {
      assert place == at + [place[|at|]] == ChildPlaces(at, n)[place[|at|]];
    } else {
      BelowIsComplete(root, at, n, place);
    }
  }

  lemma {:induction false} BelowIsComplete(root: Node, at: Place, n: nat, place: Place)
    requires IsPlace(root, at) && n <= |NodeAt(root, at).children|
    requires IsPlace(root, place) && Under(at, place) && |place| > |at| + 1 && place[|at|] < n
    ensures place in OrderBelow(root, at, n)
    decreases NodeAt(root, at), n
  {
    if place[|at|] == n - 1 {
      OrderIsComplete(root, at + [n - 1], place);
    } else {
      BelowIsComplete(root, at, n - 1, place);
    }
  }

  ghost predicate Distinct(places: seq<Place>) {
    forall i, j :: 0 <= i < j < |places| ==> places[i] != places[j]
  }

  lemma DistinctAppend(a: seq<Place>, b: seq<Place>)
    requires Distinct(a) && Distinct(b) && forall p :: p in a ==> p !in b
    ensures Distinct(a + b)
  {
    var both := a + b;
    forall i, j | 0 <= i < j < |both| ensures both[i] != both[j] {
      if i < |a| <= j {
        assert both[i] in a && both[j] == b[j - |a|];
      }
    }
  }

  lemma {:induction false} OrderIsDistinct(root: Node, at: Place)
    requires IsPlace(root, at)
    ensures Distinct(Order(root, at))
    decreases NodeAt(root, at), |NodeAt(root, at).children| + 1
  {
    var n := |NodeAt(root, at).children|;
    var kids := ChildPlaces(at, n);
    forall i, j | 0 <= i < j < n ensures kids[i] != kids[j] {
      assert kids[i][|at|] == i && kids[j][|at|] == j;
    }
    BelowIsDistinct(root, at, n);
    forall p | p in kids ensures p !in OrderBelow(root, at, n) {
      BelowIsSound(root, at, n, p);
    }
    DistinctAppend(kids, OrderBelow(root, at, n));
  }

  lemma {:induction false} BelowIsDistinct(root: Node, at: Place, n: nat)
    requires IsPlace(root, at) && n <= |NodeAt(root, at).children|
    ensures Distinct(OrderBelow(root, at, n))
    decreases NodeAt(root, at), n
  {
    if n > 0 {
      var last, rest := Order(root, at + [n - 1]), OrderBelow(root, at, n - 1);
      OrderIsDistinct(root, at + [n - 1]);
      BelowIsDistinct(root, at, n - 1);
      forall p | p in last ensures p !in rest {
        LaterBranchIsApart(root, at, n, p);
      }
      DistinctAppend(last, rest);
    }
  }

  lemma LaterBranchIsApart(root: Node, at: Place, n: nat, p: Place)
    requires IsPlace(root, at) && 0 < n <= |NodeAt(root, at).children| && p in Order(root, at + [n - 1])
    ensures p !in OrderBelow(root, at, n - 1)
  {
    OrderIsSound(root, at + [n - 1], p);
    assert p[|at|] == (at + [n - 1])[|at|];
    BelowIsSound(root, at, n - 1, p);
  }

  /** Every proper descendant is walked exactly once, and nothing else is. */
  lemma EachDescendantOnce(root: Node, place: Place)
    ensures place in Order(root, []) <==> IsPlace(root, place) && place != []
    ensures Distinct(Order(root, []))
  {
    OrderIsSound(root, [], place);
    OrderIsDistinct(root, []);
    if IsPlace(root, place) && place != [] {
      OrderIsComplete(root, [], place);
    }
  }

  /** The nodes passed on the way down to a place, the place itself last. */
  ghost function PathTo(root: Node, place: Place): (path: seq<Node>)
    requires IsPlace(root, place)
    ensures |path| == |place|
    decreases |place|
  {
    if place == [] then [] else PathTo(root, Parent(place)) + [NodeAt(root, place)]
  }

  function Own(node: Node): Chain {
    if node.isFunction then [node] else []
  }

  function FunctionsOf(nodes: seq<Node>): Chain {
    if nodes == [] then [] else Own(nodes[0]) + FunctionsOf(nodes[1..])
  }

  lemma {:induction false} FunctionsOfLonger(nodes: seq<Node>, last: Node)
    ensures FunctionsOf(nodes + [last]) == FunctionsOf(nodes) + Own(last)
  {
    if nodes == [] {
      assert nodes + [last] == [last] && [last][1..] == [];
    } else {
      FunctionsOfLonger(nodes[1..], last);
      Uncons(nodes, [last]);
      Assoc(Own(nodes[0]), FunctionsOf(nodes[1..]), Own(last));
    }
  }

  /** The chain of a place is the functions on the way down to it, outermost first,
      the place itself included. */
  lemma {:induction false} ChainIsEnclosingFunctions(root: Node, place: Place)
    requires IsPlace(root, place)
    ensures ChainAt(root, place) == FunctionsOf(PathTo(root, place))
    decreases |place|
  {
    if place != [] {
      ChainIsEnclosingFunctions(root, Parent(place));
      FunctionsOfLonger(PathTo(root, Parent(place)), NodeAt(root, place));
    }
  }

  // ---------- the walk ----------

  ghost function Annotated(root: Node, at: Place): (Node, Chain)
    requires IsPlace(root, at)
  {
    (NodeAt(root, at), ChainAt(root, at))
  }

  /** `found` lists the nodes at the places, each with its chain. */
  ghost predicate Matches(found: seq<(Node, Chain)>, root: Node, places: seq<Place>) {
    |found| == |places| && forall i {:trigger IsFound(found[i], root, places[i])} :: 0 <= i < |found| ==> IsFound(found[i], root, places[i])
  }

  ghost predicate IsFound(visit: (Node, Chain), root: Node, at: Place) {
    IsPlace(root, at) && visit == Annotated(root, at)
  }

  lemma MatchesTop(stack: seq<(Node, Chain)>, root: Node, places: seq<Place>)
    requires Matches(stack, root, places) && stack != []
    ensures IsFound(stack[|stack| - 1], root, places[|places| - 1])
    ensures Matches(stack[..|stack| - 1], root, places[..|places| - 1])
  {
  }

  ghost predicate AllPlaces(root: Node, places: seq<Place>) {
    forall i {:trigger IsPlace(root, places[i])} :: 0 <= i < |places| ==> IsPlace(root, places[i])
  }

  /** What is still to come when the stack holds these places. */
  ghost function Pending(root: Node, places: seq<Place>): seq<Place>
    requires AllPlaces(root, places)
  {
    if places == [] then []
    else Order(root, places[|places| - 1]) + Pending(root, places[..|places| - 1])
  }

  lemma ChildPlacesStep(rest: seq<Place>, at: Place, n: nat)
    ensures rest + ChildPlaces(at, n + 1) == rest + ChildPlaces(at, n) + [at + [n]]
  {
  }

  lemma PendingTop(root: Node, places: seq<Place>, top: Place)
    requires AllPlaces(root, places) && IsPlace(root, top)
    ensures AllPlaces(root, places + [top]) && Pending(root, places + [top]) == Order(root, top) + Pending(root, places)
  {
    assert (places + [top])[..|places|] == places;
  }

  lemma LastBranch(root: Node, at: Place, n: nat)
    requires IsPlace(root, at) && n < |NodeAt(root, at).children|
    ensures IsPlace(root, at + [n])
    ensures OrderBelow(root, at, n + 1) == Order(root, at + [n]) + OrderBelow(root, at, n)
  {
    assert Parent(at + [n]) == at;
  }

  /** With the first `n` children pushed, what is below them comes next. */
  ghost predicate ChildrenPending(root: Node, rest: seq<Place>, at: Place, n: nat) {
    && AllPlaces(root, rest) && IsPlace(root, at) && n <= |NodeAt(root, at).children|
    && AllPlaces(root, rest + ChildPlaces(at, n))
    && Pending(root, rest + ChildPlaces(at, n)) == OrderBelow(root, at, n) + Pending(root, rest)
  }

  lemma NoChildPending(root: Node, rest: seq<Place>, at: Place)
    requires AllPlaces(root, rest) && IsPlace(root, at)
    ensures ChildrenPending(root, rest, at, 0)
  {
    assert rest + ChildPlaces(at, 0) == rest;
  }

  lemma OneMorePending(root: Node, rest: seq<Place>, at: Place, n: nat)
    requires ChildrenPending(root, rest, at, n) && n < |NodeAt(root, at).children|
    ensures ChildrenPending(root, rest, at, n + 1)
  {
    LastBranch(root, at, n);
    ChildPlacesStep(rest, at, n);
    PendingTop(root, rest + ChildPlaces(at, n), at + [n]);
    Assoc(Order(root, at + [n]), OrderBelow(root, at, n), Pending(root, rest));
  }

  lemma {:induction false} PendingChildren(root: Node, rest: seq<Place>, at: Place, n: nat)
    requires AllPlaces(root, rest) && IsPlace(root, at) && n <= |NodeAt(root, at).children|
    ensures ChildrenPending(root, rest, at, n)
    decreases n
  {
    if n == 0 {
      NoChildPending(root, rest, at);
    } else {
      PendingChildren(root, rest, at, n - 1);
      OneMorePending(root, rest, at, n - 1);
    }
  }

  /** Pushes the children of a node, each with its chain. */
  method Expand(parent: Node, scope: Chain, ghost root: Node, ghost at: Place) returns (kids: seq<(Node, Chain)>)
    requires IsPlace(root, at) && (parent, scope) == Annotated(root, at)
    ensures Matches(kids, root, ChildPlaces(at, |parent.children|))
  {
    kids := [];
    for k := 0 to |parent.children|
      invariant Matches(kids, root, ChildPlaces(at, k))
    {
      var child := parent.children[k];
      var visit := (child, if child.isFunction then scope + [child] else scope);
      assert visit.1 == ChainAt(root, at + [k]) && IsFound(visit, root, at + [k]);
      assert ChildPlaces(at, k + 1) == ChildPlaces(at, k) + [at + [k]];
      kids := kids + [visit];
    }
  }

  lemma PendingRoot(root: Node)
    ensures Pending(root, [[]]) == Order(root, [])
  {
  }

  /** Every descendant of a node with its enclosing functions, in the walk's order. */
  method WalkWithScopes(root: Node) returns (found: seq<(Node, Chain)>)
    ensures Matches(found, root, Order(root, []))
  {
    var stack: seq<(Node, Chain)> := [(root, [])];
    ghost var places: seq<Place>, seen: seq<Place> := [[]], [];
    found := [];
    ghost var whole := Order(root, []);
    PendingRoot(root);
    assert IsFound(stack[0], root, places[0]);
    while stack != []
      invariant Matches(stack, root, places) && AllPlaces(root, places)
      invariant Matches(found, root, seen)
      invariant seen + Pending(root, places) == whole
      decreases |Pending(root, places)| + |places|
    {
      MatchesTop(stack, root, places);
      var (parent, scope) := stack[|stack| - 1];
      ghost var at, rest := places[|places| - 1], places[..|places| - 1];
      ghost var kidPlaces := ChildPlaces(at, |parent.children|);
      var kids := Expand(parent, scope, root, at);
      StackStep(root, places, seen);
      stack := stack[..|stack| - 1] + kids;
      found := found + kids;
      places, seen := rest + kidPlaces, seen + kidPlaces;
    }
  }

  /** Moving the children of the top of the stack to what was seen, and pushing them,
      keeps the whole order. */
  lemma StackStep(root: Node, places: seq<Place>, seen: seq<Place>)
    requires AllPlaces(root, places) && places != []
    ensures var at, rest := places[|places| - 1], places[..|places| - 1];
            var kids := ChildPlaces(at, |NodeAt(root, at).children|);
            && AllPlaces(root, rest + kids)
            && seen + kids + Pending(root, rest + kids) == seen + Pending(root, places)
            && |Pending(root, rest + kids)| + |kids| == |Pending(root, places)|
  {
    var at, rest := places[|places| - 1], places[..|places| - 1];
    var n := |NodeAt(root, at).children|;
    PendingChildren(root, rest, at, n);
    var kids, below, later := ChildPlaces(at, n), OrderBelow(root, at, n), Pending(root, rest);
    assert Pending(root, places) == kids + below + later;
  }
}
