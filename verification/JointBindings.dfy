/** What two names can denote together (`scripts/_setting_reachability_literals.py`):
    the rows a tuple-unpacking loop runs through, and, for reads in any nest of loops,
    which pairs of values the reads perform, which of them the gate loses, and which
    pairs it credits that no read performs. */
module JointBindings {
  import opened Prelude

  /** A loop target: a name, an unpacking (`None` for a part that is no name), or
      anything else. */
  datatype Target = Single(name: string) | Unpack(names: seq<Option<string>>) | OtherTarget

  /** An element of the iterated literal: a string, a tuple or list (`None` for a part
      that is no string), or anything else. */
  datatype Element = Text(value: string) | Parts(parts: seq<Option<string>>) | OtherElement

  /** A loop, with the loop it stands in. */
  datatype Loop = Loop(target: Target, elements: seq<Element>, outer: Option<nat>)

  type Row = map<string, string>

  function ElementAt(e: Element, position: nat): Option<string> {
    if e.Parts? && position < |e.parts| then e.parts[position] else None
  }

  // ---------- what an iteration binds ----------

  /** The position whose value a name ends up with. */
  function PositionOf(names: seq<Option<string>>, name: string): (p: Option<nat>)
    ensures p.Some? ==> p.value < |names| && names[p.value] == Some(name)
    ensures p.None? <==> Some(name) !in names
  {
    if names == [] then None
    else
      var k := |names| - 1;
      if names[k] == Some(name) then Some(k) else PositionOf(names[..k], name)
  }

  predicate Binds(target: Target, name: string) {
    match target
    case Single(n) => n == name
    case Unpack(names) => Some(name) in names
    case OtherTarget => false
  }

  /** The literal that iterating over `e` binds the name to, if it is one. */
  function Given(target: Target, e: Element, name: string): Option<string> {
    match target
    case Single(n) => if n == name && e.Text? then Some(e.value) else None
    case Unpack(names) =>
      var p := PositionOf(names, name);
      if p.Some? then ElementAt(e, p.value) else None
    case OtherTarget => None
  }

  predicate Gives(target: Target, e: Element, name: string, v: string) {
    Given(target, e, name) == Some(v)
  }

  /** Some iteration binds the name to this value. */
  ghost predicate Takes(loops: seq<Loop>, name: string, v: string) {
    exists i, j :: 0 <= i < |loops| && 0 <= j < |loops[i].elements| && Gives(loops[i].target, loops[i].elements[j], name, v)
  }

  /** One iteration binds the two names to these values. */
  ghost predicate Together(loops: seq<Loop>, a: string, b: string, x: string, y: string) {
    exists i, j :: 0 <= i < |loops| && 0 <= j < |loops[i].elements| && GivesBoth(loops[i].target, loops[i].elements[j], a, b, x, y)
  }

  predicate GivesBoth(target: Target, e: Element, a: string, b: string, x: string, y: string) {
    Gives(target, e, a, x) && Gives(target, e, b, y)
  }

  // ---------- collecting the bindings ----------

  /** The row of one element: its literal parts under the names that take them. */
  function RowOf(names: seq<Option<string>>, e: Element): Row {
    if names == [] then map[]
    else
      var k := |names| - 1;
      var before, v := RowOf(names[..k], e), ElementAt(e, k);
      if names[k].Some? && v.Some? then before[names[k].value := v.value] else before
  }

  ghost predicate DistinctNames(target: Target) {
    target.Unpack? ==> forall i, j :: 0 <= i < j < |target.names| && target.names[i].Some? ==> target.names[i] != target.names[j]
  }

  /** With distinct names, a row says exactly what the iteration binds. */
  lemma {:induction false} RowIsBinding(names: seq<Option<string>>, e: Element, name: string)
    requires DistinctNames(Unpack(names))
    ensures name in RowOf(names, e) <==> PositionOf(names, name).Some? && ElementAt(e, PositionOf(names, name).value).Some?
    ensures name in RowOf(names, e) ==> RowOf(names, e)[name] == ElementAt(e, PositionOf(names, name).value).value
  {
    if names != [] {
      var k := |names| - 1;
      RowIsBinding(names[..k], e, name);
      assert Some(name) in names[..k] ==> names[k] != Some(name);
    }
  }

  function RowsOf(target: Target, elements: seq<Element>): seq<Row> {
    if !target.Unpack? || elements == [] then []
    else
      var k := |elements| - 1;
      var row := RowOf(target.names, elements[k]);
      RowsOf(target, elements[..k]) + if |row| > 1 then [row] else []
  }

  function AllRows(loops: seq<Loop>): seq<Row> {
    if loops == [] then []
    else
      var k := |loops| - 1;
      AllRows(loops[..k]) + RowsOf(loops[k].target, loops[k].elements)
  }

  function Values(iterated: map<string, set<string>>, name: string): set<string> {
    if name in iterated then iterated[name] else {}
  }

  function TextsOf(elements: seq<Element>): (texts: set<string>)
    ensures forall v :: v in texts <==> exists j :: 0 <= j < |elements| && elements[j] == Text(v)
  {
    set j | 0 <= j < |elements| && elements[j].Text? :: elements[j].value
  }

  function PartsAt(elements: seq<Element>, position: nat): (texts: set<string>)
    ensures forall v :: v in texts <==> exists j :: 0 <= j < |elements| && ElementAt(elements[j], position) == Some(v)
  {
    set j | 0 <= j < |elements| && ElementAt(elements[j], position).Some? :: ElementAt(elements[j], position).value
  }

  ghost predicate GivenBySome(target: Target, elements: seq<Element>, name: string, v: string) {
    exists j :: 0 <= j < |elements| && Gives(target, elements[j], name, v)
  }

  /** The literals each name of a target takes over the elements. */
  method BindTarget(target: Target, elements: seq<Element>) returns (bound: map<string, set<string>>)
    ensures forall name, v :: v in Values(bound, name) <==> GivenBySome(target, elements, name, v)
  {
    bound := map[];
    if target.Single? {
      return map[target.name := TextsOf(elements)];
    }
    if !target.Unpack? {
      return;
    }
    for p := 0 to |target.names|
      invariant forall name :: Values(bound, name) ==
                  var q := PositionOf(target.names[..p], name);
                  if q.Some? then PartsAt(elements, q.value) else {}
    {
      assert target.names[..p + 1][..p] == target.names[..p];
      if target.names[p].Some? {
        bound := bound[target.names[p].value := PartsAt(elements, p)];
      }
    }
    assert target.names[..|target.names|] == target.names;
  }

  /** `bound.setdefault(name, set()).update(values)` for every name. */
  function Updated(bound: map<string, set<string>>, more: map<string, set<string>>): map<string, set<string>> {
    map name | name in bound.Keys + more.Keys :: Values(bound, name) + Values(more, name)
  }

  lemma TakesOneMore(loops: seq<Loop>, loop: Loop, name: string, v: string)
    ensures Takes(loops + [loop], name, v) <==> Takes(loops, name, v) || GivenBySome(loop.target, loop.elements, name, v)
  {
    var more := loops + [loop];
    if i, j :| 0 <= i < |loops| && 0 <= j < |loops[i].elements| && Gives(loops[i].target, loops[i].elements[j], name, v) {
      assert more[i] == loops[i] && Gives(more[i].target, more[i].elements[j], name, v);
    }
    if j :| 0 <= j < |loop.elements| && Gives(loop.target, loop.elements[j], name, v) {
      assert more[|loops|] == loop && Gives(more[|loops|].target, more[|loops|].elements[j], name, v);
    }
    if i, j :| 0 <= i < |more| && 0 <= j < |more[i].elements| && Gives(more[i].target, more[i].elements[j], name, v) {
      if i < |loops| {
        assert Gives(loops[i].target, loops[i].elements[j], name, v);
      }
    }
  }

  datatype Bindings = Bindings(aliases: map<string, string>, iterated: map<string, set<string>>, rows: seq<Row>)

  /** One pass over the loops collects exactly the values each name takes, and the rows. */
  method BindingsFrom(aliases: map<string, string>, loops: seq<Loop>) returns (b: Bindings)
    ensures b.aliases == aliases && b.rows == AllRows(loops)
    ensures forall name, v :: v in Values(b.iterated, name) <==> Takes(loops, name, v)
  {
    var bound: map<string, set<string>> := map[];
    var rows: seq<Row> := [];
    for i := 0 to |loops|
      invariant rows == AllRows(loops[..i])
      invariant forall name, v :: v in Values(bound, name) <==> Takes(loops[..i], name, v)
    {
      assert loops[..i + 1] == loops[..i] + [loops[i]] && loops[..i + 1][..i] == loops[..i];
      var more := BindTarget(loops[i].target, loops[i].elements);
      forall name, v
        ensures v in Values(Updated(bound, more), name) <==> Takes(loops[..i + 1], name, v)
      {
        TakesOneMore(loops[..i], loops[i], name, v);
      }
      bound := Updated(bound, more);
      rows := rows + RowsOf(loops[i].target, loops[i].elements);
    }
    assert loops[..|loops|] == loops;
    b := Bindings(aliases, map name | name in bound && bound[name] != {} :: bound[name], rows);
  }

  // ---------- resolving ----------

  /** An expression: a name, or anything else with the string it spells, if any. */
  datatype Expr = NameRef(id: string) | Spelled(value: Option<string>)

  function Resolve(b: Bindings, e: Expr): set<string> {
    match e
    case Spelled(v) => if v.Some? then {v.value} else {}
    case NameRef(id) => if id in b.aliases then {b.aliases[id]} else Values(b.iterated, id)
  }

  function Correlated(b: Bindings, first: string, second: string): set<(string, string)> {
    set k | 0 <= k < |b.rows| && first in b.rows[k] && second in b.rows[k] :: (b.rows[k][first], b.rows[k][second])
  }

  function ResolveJointly(b: Bindings, first: Expr, second: Expr): set<(string, string)> {
    if first.NameRef? && second.NameRef? && Correlated(b, first.id, second.id) != {}
    then Correlated(b, first.id, second.id)
    else set x, y | x in Resolve(b, first) && y in Resolve(b, second) :: (x, y)
  }

  // ---------- what the rows are worth ----------

  ghost predicate HasRow(rows: seq<Row>, a: string, b: string, x: string, y: string) {
    exists k :: 0 <= k < |rows| && RowHolds(rows[k], a, b, x, y)
  }

  predicate RowHolds(row: Row, a: string, b: string, x: string, y: string) {
    a in row && b in row && row[a] == x && row[b] == y
  }

  lemma HasRowAppend(p: seq<Row>, q: seq<Row>, a: string, b: string, x: string, y: string)
    ensures HasRow(p + q, a, b, x, y) <==> HasRow(p, a, b, x, y) || HasRow(q, a, b, x, y)
  {
    if k :| 0 <= k < |p| && RowHolds(p[k], a, b, x, y) {
      assert RowHolds((p + q)[k], a, b, x, y);
    }
    if k :| 0 <= k < |q| && RowHolds(q[k], a, b, x, y) {
      assert RowHolds((p + q)[|p| + k], a, b, x, y);
    }
  }

  lemma TwoKeys(row: Row, a: string, b: string)
    requires a in row && b in row && a != b
    ensures |row| > 1
  {
    assert {a, b} <= row.Keys;
    var rest := row.Keys - {a, b};
    assert row.Keys == {a, b} + rest;
  }

  lemma RowHoldsIffGivesBoth(target: Target, e: Element, a: string, b: string, x: string, y: string)
    requires target.Unpack? && DistinctNames(target)
    ensures RowHolds(RowOf(target.names, e), a, b, x, y) <==> GivesBoth(target, e, a, b, x, y)
  {
    RowIsBinding(target.names, e, a);
    RowIsBinding(target.names, e, b);
  }

  ghost predicate BothGivenBySome(target: Target, elements: seq<Element>, a: string, b: string, x: string, y: string) {
    exists j :: 0 <= j < |elements| && GivesBoth(target, elements[j], a, b, x, y)
  }

  lemma BothGivenOneMore(target: Target, elements: seq<Element>, e: Element, a: string, b: string, x: string, y: string)
    ensures BothGivenBySome(target, elements + [e], a, b, x, y) <==>
            BothGivenBySome(target, elements, a, b, x, y) || GivesBoth(target, e, a, b, x, y)
  {
    var more := elements + [e];
    if j :| 0 <= j < |elements| && GivesBoth(target, elements[j], a, b, x, y) {
      assert GivesBoth(target, more[j], a, b, x, y);
    }
    if GivesBoth(target, e, a, b, x, y) {
      assert GivesBoth(target, more[|elements|], a, b, x, y);
    }
  }

  lemma RowIsKept(row: Row, a: string, b: string, x: string, y: string)
    requires a != b
    ensures HasRow(if |row| > 1 then [row] else [], a, b, x, y) <==> RowHolds(row, a, b, x, y)
  {
    if a in row && b in row {
      TwoKeys(row, a, b);
    }
    if RowHolds(row, a, b, x, y) {
      assert RowHolds([row][0], a, b, x, y);
    }
  }

  lemma {:induction false} RowsOfIffBothGiven(target: Target, elements: seq<Element>, a: string, b: string, x: string, y: string)
    requires DistinctNames(target) && a != b
    ensures HasRow(RowsOf(target, elements), a, b, x, y) <==> target.Unpack? && BothGivenBySome(target, elements, a, b, x, y)
  {
    if target.Unpack? && elements != [] {
      var k := |elements| - 1;
      var row := RowOf(target.names, elements[k]);
      RowsOfIffBothGiven(target, elements[..k], a, b, x, y);
      RowHoldsIffGivesBoth(target, elements[k], a, b, x, y);
      RowIsKept(row, a, b, x, y);
      HasRowAppend(RowsOf(target, elements[..k]), if |row| > 1 then [row] else [], a, b, x, y);
      BothGivenOneMore(target, elements[..k], elements[k], a, b, x, y);
      assert elements == elements[..k] + [elements[k]];
    }
  }

  lemma OnlyUnpackingGivesBoth(target: Target, elements: seq<Element>, a: string, b: string, x: string, y: string)
    requires a != b
    ensures BothGivenBySome(target, elements, a, b, x, y) ==> target.Unpack?
  {
  }

  lemma TogetherOneMore(loops: seq<Loop>, loop: Loop, a: string, b: string, x: string, y: string)
    ensures Together(loops + [loop], a, b, x, y) <==>
            Together(loops, a, b, x, y) || BothGivenBySome(loop.target, loop.elements, a, b, x, y)
  {
    var more := loops + [loop];
    if i, j :| 0 <= i < |loops| && 0 <= j < |loops[i].elements| && GivesBoth(loops[i].target, loops[i].elements[j], a, b, x, y) {
      assert more[i] == loops[i] && GivesBoth(more[i].target, more[i].elements[j], a, b, x, y);
    }
    if j :| 0 <= j < |loop.elements| && GivesBoth(loop.target, loop.elements[j], a, b, x, y) {
      assert more[|loops|] == loop && GivesBoth(more[|loops|].target, more[|loops|].elements[j], a, b, x, y);
    }
    if i, j :| 0 <= i < |more| && 0 <= j < |more[i].elements| && GivesBoth(more[i].target, more[i].elements[j], a, b, x, y) {
      if i < |loops| {
        assert GivesBoth(loops[i].target, loops[i].elements[j], a, b, x, y);
      }
    }
  }

  ghost predicate AllDistinct(loops: seq<Loop>) {
    forall i :: 0 <= i < |loops| ==> DistinctNames(loops[i].target)
  }

  /** The rows hold exactly the pairs of values some iteration gives two names. */
  lemma {:induction false} RowsAreIterations(loops: seq<Loop>, a: string, b: string, x: string, y: string)
    requires AllDistinct(loops) && a != b
    ensures HasRow(AllRows(loops), a, b, x, y) <==> Together(loops, a, b, x, y)
  {
    if loops != [] {
      var k := |loops| - 1;
      RowsAreIterations(loops[..k], a, b, x, y);
      RowsOfIffBothGiven(loops[k].target, loops[k].elements, a, b, x, y);
      OnlyUnpackingGivesBoth(loops[k].target, loops[k].elements, a, b, x, y);
      HasRowAppend(AllRows(loops[..k]), RowsOf(loops[k].target, loops[k].elements), a, b, x, y);
      TogetherOneMore(loops[..k], loops[k], a, b, x, y);
      assert loops == loops[..k] + [loops[k]];
    }
  }

  ghost predicate Describes(b: Bindings, loops: seq<Loop>) {
    b.rows == AllRows(loops) && forall name, v :: v in Values(b.iterated, name) <==> Takes(loops, name, v)
  }

  lemma CorrelatedIsTogether(bs: Bindings, loops: seq<Loop>, a: string, b: string, x: string, y: string)
    requires Describes(bs, loops) && AllDistinct(loops) && a != b
    ensures (x, y) in Correlated(bs, a, b) <==> Together(loops, a, b, x, y)
  {
    RowsAreIterations(loops, a, b, x, y);
    if (x, y) in Correlated(bs, a, b) {
      var k :| 0 <= k < |bs.rows| && a in bs.rows[k] && b in bs.rows[k] && (bs.rows[k][a], bs.rows[k][b]) == (x, y);
      assert RowHolds(bs.rows[k], a, b, x, y);
    }
    if k :| 0 <= k < |bs.rows| && RowHolds(bs.rows[k], a, b, x, y) {
      assert (bs.rows[k][a], bs.rows[k][b]) == (x, y);
    }
  }

  // ---------- what a read performs ----------

  /** Every loop stands in an earlier one or in none. */
  ghost predicate WellNested(loops: seq<Loop>) {
    forall i :: 0 <= i < |loops| && loops[i].outer.Some? ==> loops[i].outer.value < i
  }

  /** The loops around a read in the body of loop `site`, outermost first. */
  ghost function Nest(loops: seq<Loop>, site: nat): (nest: seq<Loop>)
    requires WellNested(loops) && site < |loops|
    ensures InModule(loops, nest)
    decreases site
  {
    (if loops[site].outer.Some? then Nest(loops, loops[site].outer.value) else []) + [loops[site]]
  }

  ghost predicate InModule(loops: seq<Loop>, nest: seq<Loop>) {
    forall k :: 0 <= k < |nest| ==> nest[k] in loops
  }

  /** One iteration of each loop: `pick[k]` is the element loop `k` is at. */
  ghost predicate IsIteration(nest: seq<Loop>, pick: seq<nat>) {
    |pick| == |nest| && forall k :: 0 <= k < |nest| ==> pick[k] < |nest[k].elements|
  }

  /** The literal a name holds: the innermost loop that binds it decides. */
  ghost function Held(nest: seq<Loop>, pick: seq<nat>, name: string): Option<string>
    requires IsIteration(nest, pick)
  {
    if nest == [] then None
    else
      var k := |nest| - 1;
      if Binds(nest[k].target, name) then Given(nest[k].target, nest[k].elements[pick[k]], name)
      else Held(nest[..k], pick[..k], name)
  }

  ghost predicate HoldsBoth(nest: seq<Loop>, pick: seq<nat>, a: string, b: string, x: string, y: string) {
    IsIteration(nest, pick) && Held(nest, pick, a) == Some(x) && Held(nest, pick, b) == Some(y)
  }

  /** A read of the two names at the site runs with these values. */
  ghost predicate Performed(nest: seq<Loop>, a: string, b: string, x: string, y: string) {
    exists pick :: HoldsBoth(nest, pick, a, b, x, y)
  }

  /** The position of the innermost loop binding the name. */
  ghost function Binder(nest: seq<Loop>, name: string): (p: Option<nat>)
    ensures p.Some? ==> p.value < |nest| && Binds(nest[p.value].target, name)
  {
    if nest == [] then None
    else
      var k := |nest| - 1;
      if Binds(nest[k].target, name) then Some(k) else Binder(nest[..k], name)
  }

  ghost predicate Runs(nest: seq<Loop>) {
    forall k :: 0 <= k < |nest| ==> nest[k].elements != []
  }

  lemma {:induction false} HeldByBinder(nest: seq<Loop>, pick: seq<nat>, name: string)
    requires IsIteration(nest, pick)
    ensures var p := Binder(nest, name);
            Held(nest, pick, name) ==
              if p.None? then None else Given(nest[p.value].target, nest[p.value].elements[pick[p.value]], name)
  {
    if nest != [] {
      HeldByBinder(nest[..|nest| - 1], pick[..|nest| - 1], name);
    }
  }

  ghost predicate GivesOne(l: Loop, name: string, v: string) {
    GivenBySome(l.target, l.elements, name, v)
  }

  ghost predicate GivesPair(l: Loop, a: string, b: string, x: string, y: string) {
    BothGivenBySome(l.target, l.elements, a, b, x, y)
  }

  /** What the two binding loops supply: one element of one loop, or one of each. */
  ghost predicate Supplied(nest: seq<Loop>, a: string, b: string, x: string, y: string) {
    var p, q := Binder(nest, a), Binder(nest, b);
    && p.Some? && q.Some?
    && if p == q then GivesPair(nest[p.value], a, b, x, y)
       else GivesOne(nest[p.value], a, x) && GivesOne(nest[q.value], b, y)
  }

  /** The pairs a read performs can be read off its nest of loops. */
  lemma PerformedIffSupplied(nest: seq<Loop>, a: string, b: string, x: string, y: string)
    ensures Performed(nest, a, b, x, y) <==> Runs(nest) && Supplied(nest, a, b, x, y)
  {
    var p, q := Binder(nest, a), Binder(nest, b);
    if pick :| HoldsBoth(nest, pick, a, b, x, y) {
      HeldByBinder(nest, pick, a);
      HeldByBinder(nest, pick, b);
      assert p == q ==> GivesBoth(nest[p.value].target, nest[p.value].elements[pick[p.value]], a, b, x, y);
    }
    if Runs(nest) && Supplied(nest, a, b, x, y) {
      var i, j := SuppliedAt(nest, a, b, x, y);
      var pick := seq(|nest|, k => if k == p.value then i else if k == q.value then j else 0);
      HeldByBinder(nest, pick, a);
      HeldByBinder(nest, pick, b);
      assert HoldsBoth(nest, pick, a, b, x, y);
    }
  }

  lemma SuppliedAt(nest: seq<Loop>, a: string, b: string, x: string, y: string) returns (i: nat, j: nat)
    requires Supplied(nest, a, b, x, y)
    ensures var p, q := nest[Binder(nest, a).value], nest[Binder(nest, b).value];
            && i < |p.elements| && Gives(p.target, p.elements[i], a, x)
            && j < |q.elements| && Gives(q.target, q.elements[j], b, y)
            && (Binder(nest, a) == Binder(nest, b) ==> i == j)
  {
    var p, q := nest[Binder(nest, a).value], nest[Binder(nest, b).value];
    if Binder(nest, a) == Binder(nest, b) {
      i :| 0 <= i < |p.elements| && GivesBoth(p.target, p.elements[i], a, b, x, y);
      j := i;
    } else {
      i :| 0 <= i < |p.elements| && Gives(p.target, p.elements[i], a, x);
      j :| 0 <= j < |q.elements| && Gives(q.target, q.elements[j], b, y);
    }
  }

  lemma SuppliedIsTaken(loops: seq<Loop>, nest: seq<Loop>, a: string, b: string, x: string, y: string)
    requires InModule(loops, nest) && Supplied(nest, a, b, x, y)
    ensures Takes(loops, a, x) && Takes(loops, b, y)
    ensures Binder(nest, a) == Binder(nest, b) ==> Together(loops, a, b, x, y)
  {
    var i, j := SuppliedAt(nest, a, b, x, y);
    assert nest[Binder(nest, a).value] in loops && nest[Binder(nest, b).value] in loops;
    var m :| 0 <= m < |loops| && loops[m] == nest[Binder(nest, a).value];
    var n :| 0 <= n < |loops| && loops[n] == nest[Binder(nest, b).value];
    assert Gives(loops[m].target, loops[m].elements[i], a, x);
    assert Gives(loops[n].target, loops[n].elements[j], b, y);
    if Binder(nest, a) == Binder(nest, b) {
      assert GivesBoth(loops[m].target, loops[m].elements[i], a, b, x, y);
    }
  }

  // ---------- which performed pairs are lost ----------

  lemma PairsInSet(pairs: set<(string, string)>)
    ensures pairs != {} ==> exists x, y :: (x, y) in pairs
  {
    if pairs != {} {
      var p :| p in pairs;
      assert (p.0, p.1) in pairs;
    }
  }

  ghost predicate SomeTogether(loops: seq<Loop>, a: string, b: string) {
    exists x, y :: Together(loops, a, b, x, y)
  }

  /** A module-wide alias of another value stands in for the loop's. */
  predicate AliasHides(bs: Bindings, name: string, v: string) {
    name in bs.aliases && bs.aliases[name] != v
  }

  predicate IsCredited(bs: Bindings, a: string, b: string, x: string, y: string) {
    (x, y) in ResolveJointly(bs, NameRef(a), NameRef(b))
  }

  ghost predicate Denotes(bs: Bindings, loops: seq<Loop>, name: string, v: string) {
    if name in bs.aliases then v == bs.aliases[name] else Takes(loops, name, v)
  }

  /** What the gate credits, in terms of the loops: the rows of the whole module when
      any row has both names, else every value of the one with every value of the other. */
  lemma CreditedIff(bs: Bindings, loops: seq<Loop>, a: string, b: string, x: string, y: string)
    requires Describes(bs, loops) && AllDistinct(loops) && a != b
    ensures IsCredited(bs, a, b, x, y) <==>
            if SomeTogether(loops, a, b) then Together(loops, a, b, x, y)
            else Denotes(bs, loops, a, x) && Denotes(bs, loops, b, y)
  {
    forall u, v ensures (u, v) in Correlated(bs, a, b) <==> Together(loops, a, b, u, v) {
      CorrelatedIsTogether(bs, loops, a, b, u, v);
    }
    PairsInSet(Correlated(bs, a, b));
    if u, v :| Together(loops, a, b, u, v) {
      assert (u, v) in Correlated(bs, a, b);
    }
  }

  /** What an expression can stand for: the string it spells, or what its name denotes. */
  ghost predicate StandsFor(bs: Bindings, loops: seq<Loop>, e: Expr, v: string) {
    e == Spelled(Some(v)) || (e.NameRef? && Denotes(bs, loops, e.id, v))
  }

  /** Unless both are names, every string of the one is credited with every string of
      the other: a spelled namespace with each key a loop variable takes. */
  lemma SpelledPairsFreely(bs: Bindings, loops: seq<Loop>, first: Expr, second: Expr, x: string, y: string)
    requires Describes(bs, loops) && !(first.NameRef? && second.NameRef?)
    ensures (x, y) in ResolveJointly(bs, first, second) <==>
            StandsFor(bs, loops, first, x) && StandsFor(bs, loops, second, y)
  {
    ResolvesIff(bs, loops, first, x);
    ResolvesIff(bs, loops, second, y);
  }

  lemma ResolvesIff(bs: Bindings, loops: seq<Loop>, e: Expr, v: string)
    requires Describes(bs, loops)
    ensures v in Resolve(bs, e) <==> StandsFor(bs, loops, e, v)
  {
  }

  /** A performed pair is lost exactly when some row of the module has both names but
      none has this pair, or, without such a row, when an alias hides one of the values. */
  lemma PerformedIsLostIff(bs: Bindings, loops: seq<Loop>, site: nat, a: string, b: string, x: string, y: string)
    requires Describes(bs, loops) && AllDistinct(loops) && WellNested(loops) && a != b && site < |loops|
    requires Performed(Nest(loops, site), a, b, x, y)
    ensures !IsCredited(bs, a, b, x, y) <==>
            if SomeTogether(loops, a, b) then !Together(loops, a, b, x, y)
            else AliasHides(bs, a, x) || AliasHides(bs, b, y)
  {
    var nest := Nest(loops, site);
    PerformedIffSupplied(nest, a, b, x, y);
    SuppliedIsTaken(loops, nest, a, b, x, y);
    CreditedIff(bs, loops, a, b, x, y);
  }

  /** A pair one unpacking binds side by side is never lost. */
  lemma SideBySideIsCredited(bs: Bindings, loops: seq<Loop>, site: nat, a: string, b: string, x: string, y: string)
    requires Describes(bs, loops) && AllDistinct(loops) && WellNested(loops) && a != b && site < |loops|
    requires Binder(Nest(loops, site), a) == Binder(Nest(loops, site), b) && Performed(Nest(loops, site), a, b, x, y)
    ensures IsCredited(bs, a, b, x, y)
  {
    var nest := Nest(loops, site);
    PerformedIffSupplied(nest, a, b, x, y);
    SuppliedIsTaken(loops, nest, a, b, x, y);
    CreditedIff(bs, loops, a, b, x, y);
  }

  ghost predicate NothingLost(bs: Bindings, nest: seq<Loop>, a: string, b: string) {
    forall x, y :: Performed(nest, a, b, x, y) ==> IsCredited(bs, a, b, x, y)
  }

  /** A read whose names two nested loops bind loses nothing exactly when no row of
      the module has both names, or the rows have every pair the two loops supply. */
  lemma NestedReadLosesNothingIff(bs: Bindings, loops: seq<Loop>, site: nat, a: string, b: string)
    requires Describes(bs, loops) && AllDistinct(loops) && WellNested(loops) && a != b && site < |loops|
    requires a !in bs.aliases && b !in bs.aliases && Runs(Nest(loops, site))
    ensures var nest := Nest(loops, site);
            NothingLost(bs, nest, a, b) <==>
            !SomeTogether(loops, a, b) || forall x, y :: Supplied(nest, a, b, x, y) ==> Together(loops, a, b, x, y)
  {
    var nest := Nest(loops, site);
    forall x, y
      ensures Performed(nest, a, b, x, y) <==> Supplied(nest, a, b, x, y)
      ensures Supplied(nest, a, b, x, y) ==>
                (IsCredited(bs, a, b, x, y) <==> !SomeTogether(loops, a, b) || Together(loops, a, b, x, y))
    {
      PerformedIffSupplied(nest, a, b, x, y);
      if Supplied(nest, a, b, x, y) {
        PerformedIsLostIff(bs, loops, site, a, b, x, y);
      }
    }
  }

  // ---------- which credited pairs no read performs ----------

  ghost predicate OnlyPerformed(bs: Bindings, nest: seq<Loop>, a: string, b: string) {
    forall x, y :: IsCredited(bs, a, b, x, y) ==> Performed(nest, a, b, x, y)
  }

  /** All values a name takes in the module come from the loop at this position. */
  ghost predicate OnlyFrom(loops: seq<Loop>, l: Loop, name: string) {
    forall v :: Takes(loops, name, v) ==> GivesOne(l, name, v)
  }

  ghost predicate NoValue(loops: seq<Loop>, name: string) {
    forall v :: !Takes(loops, name, v)
  }

  ghost predicate RowsSupplied(loops: seq<Loop>, nest: seq<Loop>, a: string, b: string) {
    forall x, y {:trigger Together(loops, a, b, x, y)} {:trigger Supplied(nest, a, b, x, y)} ::
      Together(loops, a, b, x, y) ==> Supplied(nest, a, b, x, y)
  }

  ghost predicate AllTakenSupplied(loops: seq<Loop>, nest: seq<Loop>, a: string, b: string) {
    forall x, y {:trigger Supplied(nest, a, b, x, y)} {:trigger Takes(loops, a, x), Takes(loops, b, y)} ::
      Takes(loops, a, x) && Takes(loops, b, y) ==> Supplied(nest, a, b, x, y)
  }

  lemma CreditedArePerformed(bs: Bindings, loops: seq<Loop>, site: nat, a: string, b: string)
    requires Describes(bs, loops) && AllDistinct(loops) && WellNested(loops) && a != b && site < |loops|
    requires a !in bs.aliases && b !in bs.aliases && Runs(Nest(loops, site))
    ensures var nest := Nest(loops, site);
            OnlyPerformed(bs, nest, a, b) <==>
            if SomeTogether(loops, a, b) then RowsSupplied(loops, nest, a, b) else AllTakenSupplied(loops, nest, a, b)
  {
    var nest := Nest(loops, site);
    forall x, y
      ensures IsCredited(bs, a, b, x, y) <==>
              if SomeTogether(loops, a, b) then Together(loops, a, b, x, y) else Takes(loops, a, x) && Takes(loops, b, y)
      ensures Performed(nest, a, b, x, y) <==> Supplied(nest, a, b, x, y)
    {
      CreditedIff(bs, loops, a, b, x, y);
      PerformedIffSupplied(nest, a, b, x, y);
    }
  }

  ghost predicate RowsFromOne(loops: seq<Loop>, l: Loop, a: string, b: string) {
    forall x, y :: Together(loops, a, b, x, y) ==> GivesPair(l, a, b, x, y)
  }

  ghost predicate RowsFromBoth(loops: seq<Loop>, l: Loop, m: Loop, a: string, b: string) {
    forall x, y :: Together(loops, a, b, x, y) ==> GivesOne(l, a, x) && GivesOne(m, b, y)
  }

  /** For names one unpacking binds side by side, only performed pairs are credited
      exactly when all rows with both names come from it, or, without such a row, when
      one of the names takes no literal. */
  lemma SideBySideOnlyPerformedIff(bs: Bindings, loops: seq<Loop>, site: nat, a: string, b: string)
    requires Describes(bs, loops) && AllDistinct(loops) && WellNested(loops) && a != b && site < |loops|
    requires a !in bs.aliases && b !in bs.aliases && Runs(Nest(loops, site))
    requires Binder(Nest(loops, site), a).Some? && Binder(Nest(loops, site), a) == Binder(Nest(loops, site), b)
    ensures var nest := Nest(loops, site);
            var l := nest[Binder(nest, a).value];
            OnlyPerformed(bs, nest, a, b) <==>
            if SomeTogether(loops, a, b) then RowsFromOne(loops, l, a, b) else NoValue(loops, a) || NoValue(loops, b)
  {
    var nest := Nest(loops, site);
    CreditedArePerformed(bs, loops, site, a, b);
    if !SomeTogether(loops, a, b) {
      forall x, y ensures !Supplied(nest, a, b, x, y) {
        if Supplied(nest, a, b, x, y) {
          SuppliedIsTaken(loops, nest, a, b, x, y);
        }
      }
    }
  }

  /** For names two nested loops bind, exactly when the rows with both names hold only
      values the two loops supply, or, without such a row, when the two names take
      values nowhere else. */
  lemma NestedOnlyPerformedIff(bs: Bindings, loops: seq<Loop>, site: nat, a: string, b: string)
    requires Describes(bs, loops) && AllDistinct(loops) && WellNested(loops) && a != b && site < |loops|
    requires a !in bs.aliases && b !in bs.aliases && Runs(Nest(loops, site))
    requires Binder(Nest(loops, site), a).Some? && Binder(Nest(loops, site), b).Some?
    requires Binder(Nest(loops, site), a) != Binder(Nest(loops, site), b)
    ensures var nest := Nest(loops, site);
            var l, m := nest[Binder(nest, a).value], nest[Binder(nest, b).value];
            OnlyPerformed(bs, nest, a, b) <==>
            if SomeTogether(loops, a, b) then RowsFromBoth(loops, l, m, a, b)
            else NoValue(loops, a) || NoValue(loops, b) || (OnlyFrom(loops, l, a) && OnlyFrom(loops, m, b))
  {
    var nest := Nest(loops, site);
    CreditedArePerformed(bs, loops, site, a, b);
    NestSupplies(loops, nest, a, b);
    ProductWithin(loops, nest, a, b);
  }

  lemma NestSupplies(loops: seq<Loop>, nest: seq<Loop>, a: string, b: string)
    requires Binder(nest, a).Some? && Binder(nest, b).Some? && Binder(nest, a) != Binder(nest, b)
    ensures var l, m := nest[Binder(nest, a).value], nest[Binder(nest, b).value];
            RowsSupplied(loops, nest, a, b) <==> RowsFromBoth(loops, l, m, a, b)
  {
    var l, m := nest[Binder(nest, a).value], nest[Binder(nest, b).value];
    forall x, y ensures Supplied(nest, a, b, x, y) <==> GivesOne(l, a, x) && GivesOne(m, b, y) {
    }
  }

  lemma ProductWithin(loops: seq<Loop>, nest: seq<Loop>, a: string, b: string)
    requires Binder(nest, a).Some? && Binder(nest, b).Some? && Binder(nest, a) != Binder(nest, b)
    ensures var l, m := nest[Binder(nest, a).value], nest[Binder(nest, b).value];
            AllTakenSupplied(loops, nest, a, b) <==>
            NoValue(loops, a) || NoValue(loops, b) || (OnlyFrom(loops, l, a) && OnlyFrom(loops, m, b))
  {
    var l, m := nest[Binder(nest, a).value], nest[Binder(nest, b).value];
    if AllTakenSupplied(loops, nest, a, b) && !NoValue(loops, a) && !NoValue(loops, b) {
      var x :| Takes(loops, a, x);
      var y :| Takes(loops, b, y);
      forall v | Takes(loops, a, v) ensures GivesOne(l, a, v) {
        assert Supplied(nest, a, b, v, y);
      }
      forall v | Takes(loops, b, v) ensures GivesOne(m, b, v) {
        assert Supplied(nest, a, b, x, v);
      }
    }
  }

  // ---------- the two failures ----------

  lemma RowOfTwo(a: string, b: string, e: Element)
    requires a != b && e.Parts? && |e.parts| == 2
    ensures var t := Unpack([Some(a), Some(b)]);
            DistinctNames(t) && Given(t, e, a) == e.parts[0] && Given(t, e, b) == e.parts[1]
  {
    var names := [Some(a), Some(b)];
    assert names[..1] == [Some(a)] && PositionOf([Some(a)], a) == Some(0);
    assert PositionOf(names, b) == Some(1) && PositionOf(names, a) == Some(0);
  }

  lemma NestedPairIsPerformed(outer: Loop, inner: Loop, a: string, b: string, x: string, y: string)
    requires a != b && outer == Loop(Single(a), [Text(x)], None) && inner == Loop(Single(b), [Text(y)], Some(0))
    ensures Performed([outer, inner], a, b, x, y)
  {
    var nest := [outer, inner];
    assert nest[..1] == [outer] && Binder([outer], a) == Some(0);
    assert Binder(nest, b) == Some(1) && Binder(nest, a) == Some(0);
    assert Gives(outer.target, outer.elements[0], a, x) && Gives(inner.target, inner.elements[0], b, y);
    PerformedIffSupplied(nest, a, b, x, y);
  }

  lemma OnlyTheRowIsTogether(loops: seq<Loop>, a: string, b: string, x: string, y: string)
    requires a != b && |loops| == 3 && loops[0].target == Single(a) && loops[1].target == Single(b)
    ensures Together(loops, a, b, x, y) <==> GivesPair(loops[2], a, b, x, y)
  {
    if j :| 0 <= j < |loops[2].elements| && GivesBoth(loops[2].target, loops[2].elements[j], a, b, x, y) {
      assert Together(loops, a, b, x, y);
    }
  }

  lemma NestOfTwo(loops: seq<Loop>)
    requires |loops| == 3 && loops[0].outer.None? && loops[1].outer == Some(0) && loops[2].outer.None?
    ensures WellNested(loops) && Nest(loops, 1) == [loops[0], loops[1]]
  {
    assert Nest(loops, 0) == [loops[0]];
  }

  lemma OneRow(row: Loop, a: string, b: string, x: string, y: string, u: string, v: string)
    requires a != b && x != u
    requires row == Loop(Unpack([Some(a), Some(b)]), [Parts([Some(u), Some(v)])], None)
    ensures DistinctNames(row.target) && GivesPair(row, a, b, u, v) && !GivesPair(row, a, b, x, y)
  {
    RowOfTwo(a, b, row.elements[0]);
    assert GivesBoth(row.target, row.elements[0], a, b, u, v);
  }

  /** A row elsewhere in the module takes away a pair that two nested loops read. */
  lemma NestedPairIsLost(bs: Bindings, loops: seq<Loop>, a: string, b: string, x: string, y: string, u: string, v: string)
    requires a != b && x != u && Describes(bs, loops) && |loops| == 3
    requires loops[0] == Loop(Single(a), [Text(x)], None) && loops[1] == Loop(Single(b), [Text(y)], Some(0))
    requires loops[2] == Loop(Unpack([Some(a), Some(b)]), [Parts([Some(u), Some(v)])], None)
    ensures WellNested(loops) && Performed(Nest(loops, 1), a, b, x, y) && !IsCredited(bs, a, b, x, y)
  {
    NestOfTwo(loops);
    NestedPairIsPerformed(loops[0], loops[1], a, b, x, y);
    RowTakesAway(bs, loops, a, b, x, y, u, v);
  }

  lemma RowTakesAway(bs: Bindings, loops: seq<Loop>, a: string, b: string, x: string, y: string, u: string, v: string)
    requires a != b && x != u && Describes(bs, loops) && |loops| == 3
    requires loops[0].target == Single(a) && loops[1].target == Single(b)
    requires loops[2] == Loop(Unpack([Some(a), Some(b)]), [Parts([Some(u), Some(v)])], None)
    ensures !IsCredited(bs, a, b, x, y)
  {
    OneRow(loops[2], a, b, x, y, u, v);
    OnlyTheRowIsTogether(loops, a, b, u, v);
    OnlyTheRowIsTogether(loops, a, b, x, y);
    CreditedIff(bs, loops, a, b, x, y);
  }

  /** Two names bound side by side can still be paired across rows: when no row has a
      string for both, they are taken for independent. */
  lemma RowsWithoutBothPairAcross(bs: Bindings, loops: seq<Loop>, a: string, b: string, x: string, y: string)
    requires a != b && Describes(bs, loops) && a !in bs.aliases && b !in bs.aliases
    requires loops == [Loop(Unpack([Some(a), Some(b)]), [Parts([Some(x), None]), Parts([None, Some(y)])], None)]
    ensures IsCredited(bs, a, b, x, y) && !Performed(loops, a, b, x, y)
  {
    var l := loops[0];
    RowOfTwo(a, b, l.elements[0]);
    RowOfTwo(a, b, l.elements[1]);
    assert Gives(l.target, l.elements[0], a, x) && Gives(l.target, l.elements[1], b, y);
    assert loops[0] == l && Takes(loops, a, x) && Takes(loops, b, y);
    assert Binder(loops, a) == Some(0) && Binder(loops, b) == Some(0);
    PerformedIffSupplied(loops, a, b, x, y);
    CreditedIff(bs, loops, a, b, x, y);
  }
}
