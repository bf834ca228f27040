/** LCOM4, lack of cohesion of a class (`scripts/_architecture_lib.py`): a parent
    map with path halving counts the connected components of the method graph. */
module Cohesion {
  import opened Prelude

  /** A method with the `self.X` names it references. */
  datatype Method = Method(name: string, touches: set<string>)

  predicate IsDunder(name: string) {
    |name| >= 2 && name[..2] == "__" && name[|name| - 2..] == "__"
  }

  function Kept(body: seq<Method>): seq<Method> {
    if body == [] then []
    else (if IsDunder(body[0].name) then [] else [body[0]]) + Kept(body[1..])
  }

  function NameSet(methods: seq<Method>): set<string> {
    set i | 0 <= i < |methods| :: methods[i].name
  }

  /** Name to references; of two methods with one name the later definition counts. */
  function Touches(methods: seq<Method>): (m: map<string, set<string>>)
    ensures m.Keys == NameSet(methods)
  {
    if methods == [] then map[]
    else
      var k := |methods| - 1;
      assert NameSet(methods) == NameSet(methods[..k]) + {methods[k].name};
      Touches(methods[..k])[methods[k].name := methods[k].touches]
  }

  /** Two methods share an attribute that is not a method, or one calls the other. */
  predicate Related(touches: map<string, set<string>>, a: string, b: string)
    requires a in touches && b in touches
  {
    || (touches[a] * touches[b]) - touches.Keys != {}
    || b in touches[a] || a in touches[b]
  }

  // ---------- the reference definition ----------

  ghost predicate IsPath(touches: map<string, set<string>>, p: seq<string>) {
    && p != [] && p[0] in touches
    && (|p| == 1 || (p[1] in touches && Related(touches, p[0], p[1]) && IsPath(touches, p[1..])))
  }

  ghost predicate Linked(touches: map<string, set<string>>, a: string, b: string) {
    exists p :: IsPath(touches, p) && p[0] == a && p[|p| - 1] == b
  }

  ghost function ComponentOf(touches: map<string, set<string>>, a: string): set<string> {
    set b | b in touches && Linked(touches, a, b)
  }

  ghost function Components(touches: map<string, set<string>>): set<set<string>> {
    set a | a in touches :: ComponentOf(touches, a)
  }

  /** What the score means; a class of at most one method counts as cohesive. */
  ghost function ComponentCount(body: seq<Method>): nat {
    if |Kept(body)| <= 1 then 1 else |Components(Touches(Kept(body)))|
  }

  lemma LinkedReflexive(touches: map<string, set<string>>, a: string)
    requires a in touches
    ensures Linked(touches, a, a)
  {
    assert IsPath(touches, [a]);
  }

  lemma {:induction false} PathJoin(touches: map<string, set<string>>, p: seq<string>, q: seq<string>)
    requires IsPath(touches, p) && IsPath(touches, q) && p[|p| - 1] == q[0]
    ensures IsPath(touches, p + q[1..])
  {
    if |p| == 1 {
      assert p + q[1..] == q;
    } else {
      PathJoin(touches, p[1..], q);
      assert (p + q[1..])[1..] == p[1..] + q[1..];
    }
  }

  lemma LinkedTransitive(touches: map<string, set<string>>, a: string, b: string, c: string)
    requires Linked(touches, a, b) && Linked(touches, b, c)
    ensures Linked(touches, a, c)
  {
    var p :| IsPath(touches, p) && p[0] == a && p[|p| - 1] == b;
    var q :| IsPath(touches, q) && q[0] == b && q[|q| - 1] == c;
    PathJoin(touches, p, q);
    var r := p + q[1..];
    assert r[0] == a && r[|r| - 1] == c;
  }

  lemma RelatedIsLinked(touches: map<string, set<string>>, a: string, b: string)
    requires a in touches && b in touches && Related(touches, a, b)
    ensures Linked(touches, a, b) && Linked(touches, b, a)
  {
    assert touches[a] * touches[b] == touches[b] * touches[a];
    assert [a, b][1..] == [b] && [b, a][1..] == [a];
    assert IsPath(touches, [a, b]) && IsPath(touches, [b, a]);
  }

  lemma {:induction false} PathBack(touches: map<string, set<string>>, p: seq<string>)
    requires IsPath(touches, p)
    ensures Linked(touches, p[|p| - 1], p[0])
  {
    if |p| == 1 {
      LinkedReflexive(touches, p[0]);
    } else {
      PathBack(touches, p[1..]);
      RelatedIsLinked(touches, p[0], p[1]);
      LinkedTransitive(touches, p[|p| - 1], p[1], p[0]);
    }
  }

  lemma LinkedSymmetric(touches: map<string, set<string>>, a: string, b: string)
    requires Linked(touches, a, b)
    ensures Linked(touches, b, a)
  {
    var p :| IsPath(touches, p) && p[0] == a && p[|p| - 1] == b;
    PathBack(touches, p);
  }

  // ---------- the disjoint-set forest ----------

  /** `repr[x]` is the root of its own set. */
  ghost predicate RootOk(repr: map<string, string>, x: string) {
    x in repr && repr[x] in repr && repr[repr[x]] == repr[x]
  }

  ghost predicate Idempotent(repr: map<string, string>) {
    forall x {:trigger RootOk(repr, x)} :: x in repr ==> RootOk(repr, x)
  }

  ghost predicate NodeOk(parent: map<string, string>, repr: map<string, string>, depth: map<string, nat>, x: string) {
    && RootOk(repr, x) && x in parent && parent[x] in repr && repr[parent[x]] == repr[x]
    && (parent[x] == x <==> repr[x] == x)
    && (parent[x] != x ==> x in depth && parent[x] in depth && depth[parent[x]] < depth[x])
  }

  /** `parent` is a forest of the partition `repr`, which maps each name to the
      root of its set; `depth` witnesses that following parents ends. */
  ghost predicate IsForest(parent: map<string, string>, repr: map<string, string>, depth: map<string, nat>) {
    && parent.Keys == repr.Keys == depth.Keys
    && forall x {:trigger NodeOk(parent, repr, depth, x)} :: x in parent ==> NodeOk(parent, repr, depth, x)
  }

  lemma HalvingKeepsForest(parent: map<string, string>, repr: map<string, string>, depth: map<string, nat>, x: string)
    requires IsForest(parent, repr, depth) && x in parent && parent[x] != x
    ensures parent[x] in parent && parent[parent[x]] in parent
    ensures IsForest(parent[x := parent[parent[x]]], repr, depth)
    ensures repr[parent[parent[x]]] == repr[x] && depth[parent[parent[x]]] < depth[x]
  {
    assert NodeOk(parent, repr, depth, x) && NodeOk(parent, repr, depth, parent[x]);
    var halved := parent[x := parent[parent[x]]];
    forall y | y in halved ensures NodeOk(halved, repr, depth, y) {
      assert NodeOk(parent, repr, depth, y);
    }
  }

  function Merged(repr: map<string, string>, a: string, b: string): map<string, string>
    requires a in repr && b in repr
  {
    map x | x in repr :: if repr[x] == repr[a] then repr[b] else repr[x]
  }

  lemma LinkingMerges(parent: map<string, string>, repr: map<string, string>, depth: map<string, nat>, a: string, b: string)
    returns (deeper: map<string, nat>)
    requires IsForest(parent, repr, depth) && a in parent && b in parent
    requires repr[a] == a && repr[b] == b
    ensures IsForest(parent[a := b], Merged(repr, a, b), deeper)
  {
    deeper := map x | x in depth :: if a != b && repr[x] == a then depth[x] + depth[b] + 1 else depth[x];
    var linked, merged := parent[a := b], Merged(repr, a, b);
    forall x | x in linked ensures NodeOk(linked, merged, deeper, x) {
      assert NodeOk(parent, repr, depth, x);
    }
  }

  /** The parent map, kept a forest of the abstract partition `repr`. */
  class Forest {
    var parent: map<string, string>
    ghost var repr: map<string, string>
    ghost var depth: map<string, nat>

    ghost predicate Valid()
      reads this
    {
      IsForest(parent, repr, depth)
    }

    constructor (names: set<string>)
      ensures Valid() && repr == map x | x in names :: x
    {
      parent := map x | x in names :: x;
      repr := map x | x in names :: x;
      depth := map x | x in names :: 0;
    }

    /** Follows parents to the root, halving the path. The partition stays. */
    method Find(start: string) returns (root: string)
      requires Valid() && start in parent
      modifies this
      ensures Valid() && repr == old(repr)
      ensures root == repr[start]
    {
      root := start;
      while parent[root] != root
        invariant Valid() && repr == old(repr)
        invariant root in parent && repr[root] == repr[start]
        decreases depth[root]
      {
        HalvingKeepsForest(parent, repr, depth, root);
        parent := parent[root := parent[parent[root]]];
        root := parent[root];
      }
      assert NodeOk(parent, repr, depth, root);
    }

    /** Joins the sets of `a` and `b`, and no others, under the root of `b`. */
    method Union(a: string, b: string)
      requires Valid() && a in parent && b in parent
      modifies this
      ensures Valid() && repr == Merged(old(repr), a, b)
    {
      assert NodeOk(parent, repr, depth, a) && NodeOk(parent, repr, depth, b);
      var rootB := Find(b);
      var rootA := Find(a);
      ghost var deeper := LinkingMerges(parent, repr, depth, rootA, rootB);
      parent := parent[rootA := rootB];
      repr, depth := Merged(repr, a, b), deeper;
    }
  }

  // ---------- partition and components agree ----------

  ghost predicate SoundAt(repr: map<string, string>, touches: map<string, set<string>>, x: string, y: string) {
    x in repr && y in repr && repr[x] == repr[y] ==> Linked(touches, x, y)
  }

  ghost predicate JoinsOnlyLinked(repr: map<string, string>, touches: map<string, set<string>>) {
    && repr.Keys == touches.Keys
    && forall x, y {:trigger SoundAt(repr, touches, x, y)} :: SoundAt(repr, touches, x, y)
  }

  ghost predicate JoinedAt(repr: map<string, string>, touches: map<string, set<string>>, x: string, y: string) {
    x in repr && y in repr && x in touches && y in touches && Related(touches, x, y) ==> repr[x] == repr[y]
  }

  /** The partition joins only linked methods and joins all related ones. */
  ghost predicate Agrees(repr: map<string, string>, touches: map<string, set<string>>) {
    && JoinsOnlyLinked(repr, touches) && Idempotent(repr)
    && forall x, y {:trigger JoinedAt(repr, touches, x, y)} :: JoinedAt(repr, touches, x, y)
  }

  lemma {:induction false} PathStaysInSet(repr: map<string, string>, touches: map<string, set<string>>, p: seq<string>)
    requires Agrees(repr, touches) && IsPath(touches, p)
    ensures p[|p| - 1] in repr && repr[p[0]] == repr[p[|p| - 1]]
  {
    if |p| > 1 {
      assert JoinedAt(repr, touches, p[0], p[1]);
      PathStaysInSet(repr, touches, p[1..]);
    }
  }

  lemma SameSetIffLinked(repr: map<string, string>, touches: map<string, set<string>>, a: string, b: string)
    requires Agrees(repr, touches) && a in repr && b in repr
    ensures repr[a] == repr[b] <==> Linked(touches, a, b)
  {
    assert SoundAt(repr, touches, a, b);
    if Linked(touches, a, b) {
      var p :| IsPath(touches, p) && p[0] == a && p[|p| - 1] == b;
      PathStaysInSet(repr, touches, p);
    }
  }

  ghost function ComponentsFrom(touches: map<string, set<string>>, roots: set<string>): set<set<string>> {
    set r | r in roots :: ComponentOf(touches, r)
  }

  lemma {:induction false} DistinctComponents(touches: map<string, set<string>>, roots: set<string>)
    requires forall x, y :: x in roots && y in roots && ComponentOf(touches, x) == ComponentOf(touches, y) ==> x == y
    ensures |ComponentsFrom(touches, roots)| == |roots|
    decreases |roots|
  {
    if roots != {} {
      var x :| x in roots;
      var rest := roots - {x};
      DistinctComponents(touches, rest);
      assert ComponentsFrom(touches, roots) == ComponentsFrom(touches, rest) + {ComponentOf(touches, x)};
    }
  }

  lemma ComponentOfRoot(repr: map<string, string>, touches: map<string, set<string>>, a: string)
    requires Agrees(repr, touches) && a in repr
    ensures repr[a] in repr && ComponentOf(touches, a) == ComponentOf(touches, repr[a])
  {
    assert RootOk(repr, a);
    forall b | b in touches ensures Linked(touches, a, b) <==> Linked(touches, repr[a], b) {
      SameSetIffLinked(repr, touches, a, b);
      SameSetIffLinked(repr, touches, repr[a], b);
    }
  }

  ghost function Roots(repr: map<string, string>): set<string> {
    set x | x in repr :: repr[x]
  }

  lemma RootIsItsOwn(repr: map<string, string>, r: string)
    requires Idempotent(repr) && r in Roots(repr)
    ensures r in repr && repr[r] == r
  {
    var x :| x in repr && repr[x] == r;
    assert RootOk(repr, x);
  }

  lemma RootsAreDistinguished(repr: map<string, string>, touches: map<string, set<string>>, x: string, y: string)
    requires Agrees(repr, touches) && x in Roots(repr) && y in Roots(repr)
    requires ComponentOf(touches, x) == ComponentOf(touches, y)
    ensures x == y
  {
    RootIsItsOwn(repr, x);
    RootIsItsOwn(repr, y);
    LinkedReflexive(touches, x);
    assert x in ComponentOf(touches, y);
    SameSetIffLinked(repr, touches, y, x);
  }

  lemma RootsCountComponents(repr: map<string, string>, touches: map<string, set<string>>)
    requires Agrees(repr, touches)
    ensures |Roots(repr)| == |Components(touches)|
  {
    var roots := Roots(repr);
    forall x, y | x in roots && y in roots && ComponentOf(touches, x) == ComponentOf(touches, y) ensures x == y {
      RootsAreDistinguished(repr, touches, x, y);
    }
    DistinctComponents(touches, roots);
    forall c | c in Components(touches) ensures c in ComponentsFrom(touches, roots) {
      var a :| a in touches && c == ComponentOf(touches, a);
      ComponentOfRoot(repr, touches, a);
      assert repr[a] in roots;
    }
    forall c | c in ComponentsFrom(touches, roots) ensures c in Components(touches) {
      var r :| r in roots && c == ComponentOf(touches, r);
      RootIsItsOwn(repr, r);
    }
    assert ComponentsFrom(touches, roots) == Components(touches);
  }

  // ---------- the algorithm ----------

  lemma UnionJoinsLinked(before: map<string, string>, after: map<string, string>,
                         touches: map<string, set<string>>, a: string, b: string)
    requires JoinsOnlyLinked(before, touches) && a in before && b in before && Related(touches, a, b)
    requires after == Merged(before, a, b)
    ensures JoinsOnlyLinked(after, touches)
  {
    RelatedIsLinked(touches, a, b);
    forall x, y ensures SoundAt(after, touches, x, y) {
      assert SoundAt(before, touches, x, y) && SoundAt(before, touches, x, a) && SoundAt(before, touches, b, y);
      assert SoundAt(before, touches, y, a) && SoundAt(before, touches, b, x);
      if x in after && y in after && after[x] == after[y] && before[x] != before[y] {
        if before[x] == before[a] {
          LinkedTransitive(touches, x, a, b);
          LinkedTransitive(touches, x, b, y);
        } else {
          LinkedTransitive(touches, y, a, b);
          LinkedTransitive(touches, y, b, x);
          LinkedSymmetric(touches, y, x);
        }
      }
    }
  }

  ghost predicate PairOk(methods: seq<Method>, touches: map<string, set<string>>, repr: map<string, string>,
                         p: nat, q: nat)
    requires repr.Keys == touches.Keys == NameSet(methods) && p < |methods| && q < |methods|
  {
    Related(touches, methods[p].name, methods[q].name) ==> repr[methods[p].name] == repr[methods[q].name]
  }

  /** The pairs the nested loops have looked at before position `(i, j)`. */
  ghost predicate PairsJoined(methods: seq<Method>, touches: map<string, set<string>>, repr: map<string, string>,
                              i: nat, j: nat)
    requires repr.Keys == touches.Keys == NameSet(methods)
  {
    forall p: nat, q: nat {:trigger PairOk(methods, touches, repr, p, q)} ::
      p < q < |methods| && (p < i || (p == i && q < j)) ==> PairOk(methods, touches, repr, p, q)
  }

  lemma UnionJoinsPair(methods: seq<Method>, touches: map<string, set<string>>, repr: map<string, string>, i: nat, j: nat)
    requires touches.Keys == NameSet(methods) && i < j < |methods|
    requires methods[i].name in touches && methods[j].name in touches
    requires JoinsOnlyLinked(repr, touches) && PairsJoined(methods, touches, repr, i, j)
    requires Related(touches, methods[i].name, methods[j].name)
    ensures JoinsOnlyLinked(Merged(repr, methods[i].name, methods[j].name), touches)
    ensures PairsJoined(methods, touches, Merged(repr, methods[i].name, methods[j].name), i, j + 1)
  {
    var merged := Merged(repr, methods[i].name, methods[j].name);
    UnionJoinsLinked(repr, merged, touches, methods[i].name, methods[j].name);
    forall p: nat, q: nat | p < q < |methods| && (p < i || (p == i && q < j + 1))
      ensures PairOk(methods, touches, merged, p, q)
    {
      assert p < i || q < j ==> PairOk(methods, touches, repr, p, q);
    }
  }

  lemma AllPairsJoinedAgrees(methods: seq<Method>, touches: map<string, set<string>>, repr: map<string, string>)
    requires JoinsOnlyLinked(repr, touches) && touches.Keys == NameSet(methods)
    requires Idempotent(repr)
    requires PairsJoined(methods, touches, repr, |methods|, 0)
    ensures Agrees(repr, touches)
  {
    forall x, y ensures JoinedAt(repr, touches, x, y) {
      if x in repr && y in repr && Related(touches, x, y) {
        var p :| 0 <= p < |methods| && methods[p].name == x;
        var q :| 0 <= q < |methods| && methods[q].name == y;
        assert touches[x] * touches[y] == touches[y] * touches[x];
        assert p < q ==> PairOk(methods, touches, repr, p, q);
        assert q < p ==> PairOk(methods, touches, repr, q, p);
      }
    }
  }

  /** One step of the nested loops, on the pair `(i, j)`. */
  method JoinPair(forest: Forest, methods: seq<Method>, touches: map<string, set<string>>, i: nat, j: nat)
    requires forest.Valid() && touches.Keys == NameSet(methods) && i < j < |methods|
    requires JoinsOnlyLinked(forest.repr, touches) && PairsJoined(methods, touches, forest.repr, i, j)
    modifies forest
    ensures forest.Valid() && JoinsOnlyLinked(forest.repr, touches)
    ensures PairsJoined(methods, touches, forest.repr, i, j + 1)
  {
    var a, b := methods[i].name, methods[j].name;
    assert a in touches && b in touches;
    if Related(touches, a, b) {
      UnionJoinsPair(methods, touches, forest.repr, i, j);
      forest.Union(a, b);
    }
  }

  lemma StartsSeparate(names: set<string>, touches: map<string, set<string>>, repr: map<string, string>)
    requires names == touches.Keys && repr == map x | x in names :: x
    ensures JoinsOnlyLinked(repr, touches)
  {
    forall x, y ensures SoundAt(repr, touches, x, y) {
      if x in repr {
        LinkedReflexive(touches, x);
      }
    }
  }

  /** The nested loops: the forest ends up agreeing with the method graph. */
  method JoinRelated(methods: seq<Method>, touches: map<string, set<string>>) returns (forest: Forest)
    requires touches.Keys == NameSet(methods)
    ensures fresh(forest) && forest.Valid() && Agrees(forest.repr, touches)
  {
    forest := new Forest(touches.Keys);
    StartsSeparate(touches.Keys, touches, forest.repr);
    for i := 0 to |methods|
      invariant fresh(forest) && forest.Valid() && JoinsOnlyLinked(forest.repr, touches)
      invariant PairsJoined(methods, touches, forest.repr, i, 0)
    {
      for j := i + 1 to |methods|
        invariant fresh(forest) && forest.Valid() && JoinsOnlyLinked(forest.repr, touches)
        invariant PairsJoined(methods, touches, forest.repr, i, j)
      {
        JoinPair(forest, methods, touches, i, j);
      }
    }
    forall x | x in forest.repr ensures RootOk(forest.repr, x) {
      assert NodeOk(forest.parent, forest.repr, forest.depth, x);
    }
    AllPairsJoinedAgrees(methods, touches, forest.repr);
  }

  /** The set of the names' roots, as the final comprehension collects it. */
  method CollectRoots(forest: Forest, methods: seq<Method>) returns (roots: set<string>)
    requires forest.Valid() && forest.repr.Keys == NameSet(methods)
    modifies forest
    ensures roots == Roots(old(forest.repr))
  {
    roots := {};
    ghost var repr := forest.repr;
    for i := 0 to |methods|
      invariant forest.Valid() && forest.repr == repr
      invariant forall r :: r in roots <==> exists k :: 0 <= k < i && repr[methods[k].name] == r
    {
      assert methods[i].name in repr;
      var root := forest.Find(methods[i].name);
      roots := roots + {root};
    }
    forall x | x in repr ensures repr[x] in roots {
      var k :| 0 <= k < |methods| && methods[k].name == x;
    }
  }

  /** LCOM4: the result is the number of connected components of the method graph. */
  method Lcom4(body: seq<Method>) returns (score: nat)
    ensures score == ComponentCount(body)
  {
    var methods := Kept(body);
    if |methods| <= 1 {
      return 1;
    }
    var touches := Touches(methods);
    var forest := JoinRelated(methods, touches);
    RootsCountComponents(forest.repr, touches);
    var roots := CollectRoots(forest, methods);
    score := |roots|;
  }

  // ---------- what the score says ----------

  ghost predicate AllLinked(touches: map<string, set<string>>) {
    forall a, b :: a in touches && b in touches ==> Linked(touches, a, b)
  }

  lemma OneComponentIffAllLinked(touches: map<string, set<string>>, x: string)
    requires x in touches
    ensures |Components(touches)| == 1 <==> AllLinked(touches)
  {
    var all, first := Components(touches), ComponentOf(touches, x);
    assert first in all;
    if |all| == 1 {
      forall a, b | a in touches && b in touches ensures Linked(touches, a, b) {
        var ca, cb := ComponentOf(touches, a), ComponentOf(touches, b);
        assert ca in all && cb in all;
        SubsetSize({ca, cb}, all);
        LinkedReflexive(touches, b);
        assert b in cb;
      }
    }
    if AllLinked(touches) {
      forall c | c in all ensures c == first {
        var a :| a in touches && c == ComponentOf(touches, a);
      }
      assert all == {first};
    }
  }

  /** A score of one means every two methods are linked, and conversely. */
  lemma CohesiveIffAllLinked(body: seq<Method>)
    requires |Kept(body)| > 1
    ensures var touches := Touches(Kept(body));
            ComponentCount(body) == 1 <==> AllLinked(touches)
  {
    assert Kept(body)[0].name in NameSet(Kept(body));
    OneComponentIffAllLinked(Touches(Kept(body)), Kept(body)[0].name);
  }

  // ---------- the score without paths ----------

  lemma {:induction false} KeptAppend(a: seq<Method>, b: seq<Method>)
    ensures Kept(a + b) == Kept(a) + Kept(b)
  {
    if a == [] {
      assert a + b == b;
    } else {
      Uncons(a, b);
      KeptAppend(a[1..], b);
    }
  }

  /** Only methods whose name both starts and ends with two underscores are left out. */
  lemma {:induction false} KeptIff(body: seq<Method>, m: Method)
    ensures var n := |m.name|;
            multiset(Kept(body))[m] ==
              if n >= 2 && m.name[0] == m.name[1] == m.name[n - 2] == m.name[n - 1] == '_' then 0 else multiset(body)[m]
  {
    if body != [] {
      KeptIff(body[1..], m);
      assert body == [body[0]] + body[1..];
      DunderIff(body[0].name);
    }
  }

  lemma DunderIff(name: string)
    ensures var n := |name|;
            IsDunder(name) <==> n >= 2 && name[0] == name[1] == name[n - 2] == name[n - 1] == '_'
  {
    if |name| >= 2 {
      assert name[..2] == [name[0], name[1]];
      assert name[|name| - 2..] == [name[|name| - 2], name[|name| - 1]];
    }
  }

  /** Neither method names the other, and what both name is a method. */
  predicate Apart(touches: map<string, set<string>>, a: string, b: string)
    requires a in touches && b in touches
  {
    b !in touches[a] && a !in touches[b] && forall x :: x in touches[a] && x in touches[b] ==> x in touches
  }

  /** The methods fall into two groups, one inside `part`, with nothing between them. */
  ghost predicate Splits(touches: map<string, set<string>>, part: set<string>) {
    && part != {} && part < touches.Keys
    && forall a, b :: a in part && b in touches && b !in part ==> Apart(touches, a, b)
  }

  lemma RelatedIffNotApart(touches: map<string, set<string>>, a: string, b: string)
    requires a in touches && b in touches
    ensures Related(touches, a, b) <==> !Apart(touches, a, b)
  {
    if Related(touches, a, b) && b !in touches[a] && a !in touches[b] {
      var x :| x in (touches[a] * touches[b]) - touches.Keys;
    }
    if x :| x in touches[a] && x in touches[b] && x !in touches {
      assert x in (touches[a] * touches[b]) - touches.Keys;
    }
  }

  lemma {:induction false} PathStaysInPart(touches: map<string, set<string>>, p: seq<string>, part: set<string>)
    requires IsPath(touches, p) && Splits(touches, part) && p[0] in part
    ensures p[|p| - 1] in part
  {
    if |p| > 1 {
      RelatedIffNotApart(touches, p[0], p[1]);
      PathStaysInPart(touches, p[1..], part);
    }
  }

  lemma ComponentSplits(touches: map<string, set<string>>, a: string, b: string)
    requires a in touches && b in touches && !Linked(touches, a, b)
    ensures Splits(touches, ComponentOf(touches, a))
  {
    var part := ComponentOf(touches, a);
    LinkedReflexive(touches, a);
    assert a in part && b !in part;
    forall x, y | x in part && y in touches && y !in part ensures Apart(touches, x, y) {
      RelatedIffNotApart(touches, x, y);
      if Related(touches, x, y) {
        RelatedIsLinked(touches, x, y);
        LinkedTransitive(touches, a, x, y);
      }
    }
  }

  lemma AllLinkedIffUnsplit(touches: map<string, set<string>>)
    ensures AllLinked(touches) <==> forall part :: !Splits(touches, part)
  {
    if part :| Splits(touches, part) {
      var a :| a in part;
      var b :| b in touches && b !in part;
      if Linked(touches, a, b) {
        var p :| IsPath(touches, p) && p[0] == a && p[|p| - 1] == b;
        PathStaysInPart(touches, p, part);
      }
    }
    if !AllLinked(touches) {
      var a, b :| a in touches && b in touches && !Linked(touches, a, b);
      ComponentSplits(touches, a, b);
    }
  }

  /** The score is one if and only if the kept methods do not fall into two groups with
      no call and no shared attribute between them. */
  lemma CohesiveIffUnsplit(body: seq<Method>)
    requires |Kept(body)| > 1
    ensures ComponentCount(body) == 1 <==> forall part :: !Splits(Touches(Kept(body)), part)
  {
    CohesiveIffAllLinked(body);
    AllLinkedIffUnsplit(Touches(Kept(body)));
  }

  /** Two methods are counted in one component when one names the other, or both name
      something that is no method; two groups with nothing between them are never. */
  lemma ComponentsByReferences(touches: map<string, set<string>>, a: string, b: string, part: set<string>)
    requires a in touches && b in touches
    ensures b in touches[a] || a in touches[b] || (exists x :: x in touches[a] && x in touches[b] && x !in touches) ==>
              ComponentOf(touches, a) == ComponentOf(touches, b)
    ensures Splits(touches, part) && a in part && b !in part ==> ComponentOf(touches, a) != ComponentOf(touches, b)
  {
    RelatedIffNotApart(touches, a, b);
    LinkedReflexive(touches, b);
    if Related(touches, a, b) {
      RelatedIsLinked(touches, a, b);
      forall c | c in touches ensures Linked(touches, a, c) <==> Linked(touches, b, c) {
        if Linked(touches, a, c) {
          LinkedTransitive(touches, b, a, c);
        }
        if Linked(touches, b, c) {
          LinkedTransitive(touches, a, b, c);
        }
      }
    }
    if Splits(touches, part) && a in part && b !in part {
      if Linked(touches, a, b) {
        var p :| IsPath(touches, p) && p[0] == a && p[|p| - 1] == b;
        PathStaysInPart(touches, p, part);
      }
      assert b in ComponentOf(touches, b);
    }
  }

  // ---------- the order of the methods ----------

  /** Definitions of one name, such as the getter and setter of a property, reference
      the same names. */
  ghost predicate Consistent(methods: seq<Method>) {
    forall m, n :: m in methods && n in methods && m.name == n.name ==> m.touches == n.touches
  }

  lemma {:induction false} LastDefinitionStands(methods: seq<Method>, m: Method)
    requires m in methods
    ensures m.name in Touches(methods)
    ensures exists n :: n in methods && n.name == m.name && Touches(methods)[m.name] == n.touches
  {
    var k := |methods| - 1;
    if methods[k].name != m.name {
      assert m in methods[..k];
      LastDefinitionStands(methods[..k], m);
    }
  }

  lemma ReorderedKeepsTouches(p: seq<Method>, q: seq<Method>)
    requires multiset(p) == multiset(q) && Consistent(p)
    ensures Touches(p) == Touches(q)
  {
    forall m ensures m in p <==> m in q {
      assert m in p <==> m in multiset(p);
      assert m in q <==> m in multiset(q);
    }
    forall x | x in NameSet(p) || x in NameSet(q)
      ensures x in NameSet(p) && x in NameSet(q) && Touches(p)[x] == Touches(q)[x]
    {
      var m :| m in p && m.name == x;
      LastDefinitionStands(p, m);
      LastDefinitionStands(q, m);
    }
  }

  function MovedLast(methods: seq<Method>, m: Method): (moved: seq<Method>)
    requires m in methods
    ensures multiset(moved) == multiset(methods) && moved != [] && moved[|moved| - 1] == m
  {
    if methods[0] == m then
      assert methods == [m] + methods[1..];
      methods[1..] + [m]
    else
      assert methods == [methods[0]] + methods[1..];
      [methods[0]] + MovedLast(methods[1..], m)
  }

  /** Every reordering gives the same table exactly when no two definitions of one
      name differ. */
  lemma TableIgnoresOrderIff(methods: seq<Method>)
    ensures (forall other :: multiset(other) == multiset(methods) ==> Touches(other) == Touches(methods)) <==>
            Consistent(methods)
  {
    if Consistent(methods) {
      forall other | multiset(other) == multiset(methods) ensures Touches(other) == Touches(methods) {
        ReorderedKeepsTouches(methods, other);
      }
    } else {
      var m, n :| m in methods && n in methods && m.name == n.name && m.touches != n.touches;
      assert Touches(MovedLast(methods, m))[m.name] == m.touches;
      assert Touches(MovedLast(methods, n))[n.name] == n.touches;
    }
  }

  /** Then the score does not depend on the order of the methods either. */
  lemma OrderDoesNotMatter(a: seq<Method>, b: seq<Method>)
    requires multiset(Kept(a)) == multiset(Kept(b)) && Consistent(Kept(a))
    ensures ComponentCount(a) == ComponentCount(b)
  {
    ReorderedKeepsTouches(Kept(a), Kept(b));
    assert |Kept(a)| == |multiset(Kept(a))| && |Kept(b)| == |multiset(Kept(b))|;
  }

  lemma {:induction false} UnrelatedPathStays(touches: map<string, set<string>>, p: seq<string>)
    requires IsPath(touches, p)
    requires forall b :: b in touches && Related(touches, p[0], b) ==> b == p[0]
    ensures p[|p| - 1] == p[0]
  {
    if |p| > 1 {
      UnrelatedPathStays(touches, p[1..]);
    }
  }

  lemma SharingIsCohesive(touches: map<string, set<string>>)
    requires touches == map["f" := {"a"}, "g" := {"a"}]
    ensures |Components(touches)| == 1
  {
    assert "a"[0] != "f"[0] && "a"[0] != "g"[0];
    assert "a" in (touches["f"] * touches["g"]) - touches.Keys;
    assert "a" in (touches["g"] * touches["f"]) - touches.Keys;
    assert Related(touches, "f", "g") && Related(touches, "g", "f");
    forall a, b | a in touches && b in touches ensures Linked(touches, a, b) {
      if a == b {
        LinkedReflexive(touches, a);
      } else {
        RelatedIsLinked(touches, a, b);
      }
    }
    OneComponentIffAllLinked(touches, "f");
  }

  lemma NotSharingIsSplit(touches: map<string, set<string>>)
    requires touches == map["f" := {"b"}, "g" := {"a"}]
    ensures |Components(touches)| != 1
  {
    assert touches["f"] * touches["g"] == {};
    if Linked(touches, "f", "g") {
      var p :| IsPath(touches, p) && p[0] == "f" && p[|p| - 1] == "g";
      UnrelatedPathStays(touches, p);
    }
    OneComponentIffAllLinked(touches, "f");
  }

  lemma LaterSharingIsCohesive()
    ensures ComponentCount([Method("f", {"b"}), Method("f", {"a"}), Method("g", {"a"})]) == 1
  {
    var fa, fb, g := Method("f", {"a"}), Method("f", {"b"}), Method("g", {"a"});
    KeptThree(fb, fa, g);
    SharingIsCohesive(Touches([fb, fa, g]));
  }

  lemma LaterNotSharingIsSplit()
    ensures ComponentCount([Method("f", {"a"}), Method("f", {"b"}), Method("g", {"a"})]) != 1
  {
    var fa, fb, g := Method("f", {"a"}), Method("f", {"b"}), Method("g", {"a"});
    KeptThree(fa, fb, g);
    NotSharingIsSplit(Touches([fa, fb, g]));
  }

  /** Where two definitions differ, the score can too: the later definition wins. */
  lemma RedefinitionOrderMatters()
    ensures var fa, fb, g := Method("f", {"a"}), Method("f", {"b"}), Method("g", {"a"});
            ComponentCount([fb, fa, g]) == 1 && ComponentCount([fa, fb, g]) != 1
  {
    LaterSharingIsCohesive();
    LaterNotSharingIsSplit();
  }

  lemma KeptThree(x: Method, y: Method, z: Method)
    requires !IsDunder(x.name) && !IsDunder(y.name) && !IsDunder(z.name)
    ensures Kept([x, y, z]) == [x, y, z]
    ensures Touches([x, y, z]) == map[x.name := x.touches][y.name := y.touches][z.name := z.touches]
  {
    assert [x, y, z][1..] == [y, z] && [y, z][1..] == [z] && [z][1..] == [];
    assert Kept([z]) == [z] && Kept([y, z]) == [y, z];
    assert [x, y, z][..2] == [x, y] && [x, y][..1] == [x] && [x][..0] == [];
    assert Touches([x]) == map[x.name := x.touches];
    assert Touches([x, y]) == Touches([x])[y.name := y.touches];
  }
}
