/** Which names a gate may trust to hold a matching value: the scope walk
    `direct_body_nodes` and the reaching-definition check `reaching_alias_names`.
    Exception handlers and match cases are folded into the statement owning them. */
module Aliases {
  import opened Prelude
  import opened ControlFlow
  import opened Executions
  import opened Reachability

  datatype Node = StmtNode(s: Stmt) | ExprNode(e: Expr)

  // ---------- the nodes of a scope ----------

  function HandlerParts(handlers: seq<Handler>): seq<Expr> {
    if handlers == [] then [] else handlers[0].parts + HandlerParts(handlers[1..])
  }

  function CaseParts(cases: seq<Case>): seq<Expr> {
    if cases == [] then [] else cases[0].parts + CaseParts(cases[1..])
  }

  /** The expressions a statement evaluates itself. */
  function OwnExprs(s: Stmt): seq<Expr> {
    match s
    case Simple(_, parts, _) => parts
    case Assign(_, targets, rhs) => targets + [rhs]
    case AnnAssign(_, target, annotation, value) =>
      [target, annotation] + (if value.Some? then [value.value] else [])
    case Return(_, parts) => parts
    case Raise(_, parts) => parts
    case Definition(_, _, parts, _) => parts
    case If(_, test, _, _) => if test.Dynamic? then [test.expr] else []
    case While(_, test, _, _) => if test.Dynamic? then [test.expr] else []
    case For(_, target, iterable, _, _) => [target, iterable]
    case Try(_, _, _, handlers, _, _) => HandlerParts(handlers)
    case With(_, items, _) => items
    case Match(_, subject, cases) => [subject] + CaseParts(cases)
    case _ => []
  }

  function Blocks(s: Stmt): (blocks: seq<seq<Stmt>>)
    ensures forall i :: 0 <= i < |blocks| ==> (s decreases to blocks[i])
  {
    match s
    case If(_, _, body, orelse) => [body, orelse]
    case While(_, _, body, orelse) => [body, orelse]
    case For(_, _, _, body, orelse) => [body, orelse]
    case Try(_, _, body, handlers, orelse, finalbody) =>
      [body, orelse, finalbody] + seq(|handlers|, i requires 0 <= i < |handlers| => handlers[i].body)
    case With(_, _, body) => [body]
    case Match(_, _, cases) => seq(|cases|, i requires 0 <= i < |cases| => cases[i].body)
    case _ => []
  }

  /** The nodes of an expression, nested lambdas not entered. */
  function ExprNodes(e: Expr): seq<Node>
    decreases e, 1
  {
    [ExprNode(e)] + if e.Compound? then ExprListNodes(e.parts) else []
  }

  function ExprListNodes(es: seq<Expr>): seq<Node>
    decreases es, 0
  {
    if es == [] then [] else ExprNodes(es[0]) + ExprListNodes(es[1..])
  }

  /** The nodes of a statement's own scope, nested definitions not entered. */
  function StmtNodes(s: Stmt): seq<Node>
    decreases s, 2
  {
    [StmtNode(s)] + if s.Definition? then [] else ExprListNodes(OwnExprs(s)) + BlocksNodes(s, Blocks(s))
  }

  function BlockNodes(body: seq<Stmt>): seq<Node>
    decreases body, 0
  {
    if body == [] then [] else StmtNodes(body[0]) + BlockNodes(body[1..])
  }

  function BlocksNodes(ghost owner: Stmt, blocks: seq<seq<Stmt>>): seq<Node>
    requires forall i :: 0 <= i < |blocks| ==> (owner decreases to blocks[i])
    decreases owner, 1, |blocks|
  {
    if blocks == [] then [] else BlockNodes(blocks[0]) + BlocksNodes(owner, blocks[1..])
  }

  // ---------- the stack walk ----------

  predicate OwnsScope(n: Node) {
    (n.StmtNode? && n.s.Definition?) || (n.ExprNode? && n.e.Lambda?)
  }

  function AsExprs(es: seq<Expr>): seq<Node> {
    seq(|es|, i requires 0 <= i < |es| => ExprNode(es[i]))
  }

  function AsStmts(body: seq<Stmt>): seq<Node> {
    seq(|body|, i requires 0 <= i < |body| => StmtNode(body[i]))
  }

  function Flat(blocks: seq<seq<Stmt>>): seq<Stmt> {
    if blocks == [] then [] else blocks[0] + Flat(blocks[1..])
  }

  function Children(n: Node): seq<Node> {
    match n
    case ExprNode(e) => if e.Compound? then AsExprs(e.parts) else if e.Lambda? then AsExprs(e.defaults + e.body) else []
    case StmtNode(s) =>
      AsExprs(OwnExprs(s)) + AsStmts(if s.Definition? then s.body else Flat(Blocks(s)))
  }

  function Direct(n: Node): seq<Node> {
    match n
    case StmtNode(s) => StmtNodes(s)
    case ExprNode(e) => ExprNodes(e)
  }

  function DirectAll(ns: seq<Node>): seq<Node> {
    if ns == [] then [] else Direct(ns[0]) + DirectAll(ns[1..])
  }

  lemma {:induction false} DirectAllAppend(a: seq<Node>, b: seq<Node>)
    ensures DirectAll(a + b) == DirectAll(a) + DirectAll(b)
  {
    if a == [] {
      assert a + b == b;
    } else {
      assert (a + b)[0] == a[0] && (a + b)[1..] == a[1..] + b;
      DirectAllAppend(a[1..], b);
    }
  }

  lemma {:induction false} DirectAllExprs(es: seq<Expr>)
    ensures DirectAll(AsExprs(es)) == ExprListNodes(es)
  {
    if es != [] {
      assert AsExprs(es)[1..] == AsExprs(es[1..]);
      DirectAllExprs(es[1..]);
    }
  }

  lemma {:induction false} DirectAllStmts(body: seq<Stmt>)
    ensures DirectAll(AsStmts(body)) == BlockNodes(body)
  {
    if body != [] {
      assert AsStmts(body)[1..] == AsStmts(body[1..]);
      DirectAllStmts(body[1..]);
    }
  }

  lemma {:induction false} BlockNodesAppend(a: seq<Stmt>, b: seq<Stmt>)
    ensures BlockNodes(a + b) == BlockNodes(a) + BlockNodes(b)
  {
    if a == [] {
      assert a + b == b;
    } else {
      assert (a + b)[1..] == a[1..] + b;
      BlockNodesAppend(a[1..], b);
    }
  }

  lemma {:induction false} FlatNodes(owner: Stmt, blocks: seq<seq<Stmt>>)
    requires forall i :: 0 <= i < |blocks| ==> (owner decreases to blocks[i])
    ensures BlockNodes(Flat(blocks)) == BlocksNodes(owner, blocks)
    decreases |blocks|
  {
    if blocks != [] {
      BlockNodesAppend(blocks[0], Flat(blocks[1..]));
      FlatNodes(owner, blocks[1..]);
    }
  }

  function Pushed(n: Node): seq<Node> {
    if OwnsScope(n) then [] else Children(n)
  }

  /** A node is followed by exactly the nodes of its children, unless it owns a scope. */
  lemma DirectUnfolds(n: Node)
    ensures Direct(n) == [n] + DirectAll(Pushed(n))
  {
    match n
    case ExprNode(e) =>
      if e.Compound? {
        DirectAllExprs(e.parts);
      }
    case StmtNode(s) =>
      if !s.Definition? {
        DirectAllAppend(AsExprs(OwnExprs(s)), AsStmts(Flat(Blocks(s))));
        DirectAllExprs(OwnExprs(s));
        DirectAllStmts(Flat(Blocks(s)));
        FlatNodes(s, Blocks(s));
      }
  }

  /** The stack after its top node has been visited. */
  function Popped(stack: seq<Node>): seq<Node>
    requires stack != []
  {
    var node, below := stack[|stack| - 1], stack[..|stack| - 1];
    if OwnsScope(node) then below else below + Children(node)
  }

  lemma TopSplits(below: seq<Node>, node: Node)
    ensures DirectAll(below + [node]) == DirectAll(below) + Direct(node)
  {
    DirectAllAppend(below, [node]);
    assert [node][1..] == [];
  }

  lemma HeadOut<T>(a: seq<T>, n: T, rest: seq<T>)
    ensures multiset(a + ([n] + rest)) == multiset{n} + multiset(a + rest)
    ensures |a + ([n] + rest)| == 1 + |a + rest|
  {
  }

  lemma PoppedNodes(stack: seq<Node>)
    requires stack != []
    ensures multiset(DirectAll(stack)) == multiset{stack[|stack| - 1]} + multiset(DirectAll(Popped(stack)))
    ensures |DirectAll(stack)| == 1 + |DirectAll(Popped(stack))|
  {
    var node, below := stack[|stack| - 1], stack[..|stack| - 1];
    assert stack == below + [node];
    TopSplits(below, node);
    DirectUnfolds(node);
    PoppedSplits(stack);
    HeadOut(DirectAll(below), node, DirectAll(Pushed(node)));
  }

  lemma PoppedSplits(stack: seq<Node>)
    requires stack != []
    ensures DirectAll(Popped(stack)) == DirectAll(stack[..|stack| - 1]) + DirectAll(Pushed(stack[|stack| - 1]))
  {
    var node, below := stack[|stack| - 1], stack[..|stack| - 1];
    DirectAllAppend(below, Pushed(node));
    assert Popped(stack) == below + Pushed(node);
  }

  /** The explicit-stack walk visits every node of the scope exactly once. */
  method DirectBodyNodes(body: seq<Stmt>) returns (visited: seq<Node>)
    ensures multiset(visited) == multiset(BlockNodes(body))
  {
    visited := [];
    var stack := AsStmts(body);
    DirectAllStmts(body);
    ghost var total, pending := multiset(BlockNodes(body)), DirectAll(stack);
    while stack != []
      invariant pending == DirectAll(stack)
      invariant multiset(visited) + multiset(pending) == total
      decreases |pending|
    {
      PoppedNodes(stack);
      var node := stack[|stack| - 1];
      stack := stack[..|stack| - 1];
      visited := visited + [node];
      if !OwnsScope(node) {
        stack := stack + Children(node);
      }
      pending := DirectAll(stack);
    }
  }

  // ---------- trusted aliases ----------

  /** How many times the scope stores `x`, loop, `with` and walrus targets included. */
  function StoreCount(x: Ident, nodes: seq<Node>): nat {
    if nodes == [] then 0
    else (if nodes[0] == ExprNode(Name(x, true)) then 1 else 0) + StoreCount(x, nodes[1..])
  }

  lemma {:induction false} StoreCountIsMultiplicity(x: Ident, nodes: seq<Node>)
    ensures StoreCount(x, nodes) == multiset(nodes)[ExprNode(Name(x, true))]
  {
    if nodes != [] {
      StoreCountIsMultiplicity(x, nodes[1..]);
      assert nodes == [nodes[0]] + nodes[1..];
    }
  }

  /** A top-level statement binding `x` to a value the predicate matches. */
  predicate BindsMatching(s: Stmt, x: Ident, matches: Expr -> bool) {
    match s
    case Assign(_, targets, rhs) => matches(rhs) && ExprTargets(targets, x)
    case AnnAssign(_, target, _, value) =>
      target.Name? && target.ident == x && value.Some? && matches(value.value)
    case _ => false
  }

  predicate ExprTargets(targets: seq<Expr>, x: Ident) {
    exists i :: 0 <= i < |targets| && targets[i].Name? && targets[i].ident == x
  }

  /** Assignment targets are stores, as the grammar makes them. */
  predicate WellFormedTargets(s: Stmt) {
    match s
    case Assign(_, targets, _) => forall i :: 0 <= i < |targets| && targets[i].Name? ==> targets[i].store
    case AnnAssign(_, target, _, _) => target.Name? ==> target.store
    case _ => true
  }

  ghost predicate IsAlias(body: seq<Stmt>, matches: Expr -> bool, x: Ident) {
    && (exists i :: 0 <= i < |body| && BindsMatching(body[i], x, matches))
    && StoreCount(x, BlockNodes(body)) == 1
  }

  function TargetNames(targets: seq<Expr>): (names: set<Ident>)
    ensures forall x :: x in names <==> ExprTargets(targets, x)
  {
    set i | 0 <= i < |targets| && targets[i].Name? :: targets[i].ident
  }

  function CountOf(counts: map<Ident, nat>, x: Ident): nat {
    if x in counts then counts[x] else 0
  }

  method CountStores(nodes: seq<Node>) returns (counts: map<Ident, nat>)
    ensures forall x :: CountOf(counts, x) == multiset(nodes)[ExprNode(Name(x, true))]
  {
    counts := map[];
    for i := 0 to |nodes|
      invariant forall x :: CountOf(counts, x) == multiset(nodes[..i])[ExprNode(Name(x, true))]
    {
      assert nodes[..i + 1] == nodes[..i] + [nodes[i]];
      var node := nodes[i];
      if node.ExprNode? && node.e.Name? && node.e.store {
        counts := counts[node.e.ident := CountOf(counts, node.e.ident) + 1];
      }
    }
    assert nodes[..|nodes|] == nodes;
  }

  method TopLevelMatches(body: seq<Stmt>, matches: Expr -> bool) returns (trusted: set<Ident>)
    ensures forall x :: x in trusted <==> exists i :: 0 <= i < |body| && BindsMatching(body[i], x, matches)
  {
    trusted := {};
    for i := 0 to |body|
      invariant forall x :: x in trusted <==> exists j :: 0 <= j < i && BindsMatching(body[j], x, matches)
    {
      var stmt := body[i];
      if stmt.Assign? {
        if matches(stmt.rhs) {
          trusted := trusted + TargetNames(stmt.targets);
        }
      } else if stmt.AnnAssign? && stmt.target.Name? && stmt.value.Some? && matches(stmt.value.value) {
        trusted := trusted + {stmt.target.ident};
      }
    }
  }

  /** The two passes: count every store, then keep the singly stored names a
      top-level assignment binds to a matching value. */
  method ReachingAliasNames(body: seq<Stmt>, matches: Expr -> bool) returns (names: set<Ident>)
    ensures forall x :: x in names <==> IsAlias(body, matches, x)
  {
    var nodes := DirectBodyNodes(body);
    var counts := CountStores(nodes);
    var trusted := TopLevelMatches(body, matches);
    names := set x | x in trusted && CountOf(counts, x) == 1;
    forall x ensures x in names <==> IsAlias(body, matches, x) {
      StoreCountIsMultiplicity(x, BlockNodes(body));
    }
  }

  // ---------- the stores of a scope, field by field ----------

  /** The stores of `x` in an expression, nested lambdas not entered. */
  function Stores(e: Expr, x: Ident): nat
    decreases e, 1
  {
    match e
    case Name(ident, store) => if store && ident == x then 1 else 0
    case Lambda(_, _) => 0
    case Compound(parts) => StoresAll(parts, x)
  }

  function StoresAll(es: seq<Expr>, x: Ident): nat
    decreases es, 0
  {
    if es == [] then 0 else Stores(es[0], x) + StoresAll(es[1..], x)
  }

  function HandlerStores(handlers: seq<Handler>, x: Ident): nat {
    if handlers == [] then 0 else StoresAll(handlers[0].parts, x) + HandlerStores(handlers[1..], x)
  }

  function CaseStores(cases: seq<Case>, x: Ident): nat {
    if cases == [] then 0 else StoresAll(cases[0].parts, x) + CaseStores(cases[1..], x)
  }

  /** The stores of `x` a statement makes itself: in targets and values, tests and
      iterables, `with` items, handler types, subjects and patterns. */
  function OwnStores(s: Stmt, x: Ident): nat {
    match s
    case Simple(_, parts, _) => StoresAll(parts, x)
    case Assign(_, targets, rhs) => StoresAll(targets, x) + Stores(rhs, x)
    case AnnAssign(_, target, annotation, value) =>
      Stores(target, x) + Stores(annotation, x) + (if value.Some? then Stores(value.value, x) else 0)
    case Return(_, parts) => StoresAll(parts, x)
    case Raise(_, parts) => StoresAll(parts, x)
    case If(_, test, _, _) => if test.Dynamic? then Stores(test.expr, x) else 0
    case While(_, test, _, _) => if test.Dynamic? then Stores(test.expr, x) else 0
    case For(_, target, iterable, _, _) => Stores(target, x) + Stores(iterable, x)
    case Try(_, _, _, handlers, _, _) => HandlerStores(handlers, x)
    case With(_, items, _) => StoresAll(items, x)
    case Match(_, subject, cases) => Stores(subject, x) + CaseStores(cases, x)
    case _ => 0
  }

  /** ... and with the blocks below it; a nested definition is a scope of its own. */
  function AllStores(s: Stmt, x: Ident): nat
    decreases s, 1
  {
    OwnStores(s, x) + match s
    case If(_, _, body, orelse) => BlockStores(body, x) + BlockStores(orelse, x)
    case While(_, _, body, orelse) => BlockStores(body, x) + BlockStores(orelse, x)
    case For(_, _, _, body, orelse) => BlockStores(body, x) + BlockStores(orelse, x)
    case Try(_, _, body, handlers, orelse, finalbody) =>
      BlockStores(body, x) + BlockStores(orelse, x) + BlockStores(finalbody, x) + HandlerBlockStores(handlers, x)
    case With(_, _, body) => BlockStores(body, x)
    case Match(_, _, cases) => CaseBlockStores(cases, x)
    case _ => 0
  }

  function BlockStores(body: seq<Stmt>, x: Ident): nat
    decreases body, 0
  {
    if body == [] then 0 else AllStores(body[0], x) + BlockStores(body[1..], x)
  }

  function HandlerBlockStores(handlers: seq<Handler>, x: Ident): nat
    decreases handlers, 0
  {
    if handlers == [] then 0 else BlockStores(handlers[0].body, x) + HandlerBlockStores(handlers[1..], x)
  }

  function CaseBlockStores(cases: seq<Case>, x: Ident): nat
    decreases cases, 0
  {
    if cases == [] then 0 else BlockStores(cases[0].body, x) + CaseBlockStores(cases[1..], x)
  }

  lemma {:induction false} ExprCount(e: Expr, x: Ident)
    ensures StoreCount(x, ExprNodes(e)) == Stores(e, x)
    decreases e, 1
  {
    if e.Compound? {
      ExprListCount(e.parts, x);
      assert ExprNodes(e)[0] == ExprNode(e) && ExprNodes(e)[1..] == ExprListNodes(e.parts);
    } else {
      assert ExprNodes(e) == [ExprNode(e)] && [ExprNode(e)][1..] == [];
    }
  }

  lemma {:induction false} ExprListCount(es: seq<Expr>, x: Ident)
    ensures StoreCount(x, ExprListNodes(es)) == StoresAll(es, x)
    decreases es, 0
  {
    if es != [] {
      ExprCount(es[0], x);
      ExprListCount(es[1..], x);
      StoreCountAppend(x, ExprNodes(es[0]), ExprListNodes(es[1..]));
    }
  }

  lemma {:induction false} StoresAppend(a: seq<Expr>, b: seq<Expr>, x: Ident)
    ensures StoresAll(a + b, x) == StoresAll(a, x) + StoresAll(b, x)
  {
    if a == [] {
      assert a + b == b;
    } else {
      StoresAppend(a[1..], b, x);
      Uncons(a, b);
    }
  }

  lemma {:induction false} HandlerPartsCount(handlers: seq<Handler>, x: Ident)
    ensures StoresAll(HandlerParts(handlers), x) == HandlerStores(handlers, x)
  {
    if handlers != [] {
      HandlerPartsCount(handlers[1..], x);
      StoresAppend(handlers[0].parts, HandlerParts(handlers[1..]), x);
    }
  }

  lemma {:induction false} CasePartsCount(cases: seq<Case>, x: Ident)
    ensures StoresAll(CaseParts(cases), x) == CaseStores(cases, x)
  {
    if cases != [] {
      CasePartsCount(cases[1..], x);
      StoresAppend(cases[0].parts, CaseParts(cases[1..]), x);
    }
  }

  lemma OneExpr(e: Expr, x: Ident)
    ensures StoresAll([e], x) == Stores(e, x)
  {
    assert [e][1..] == [];
  }

  /** The expressions the walk takes for a statement's own hold the stores of its fields. */
  lemma OwnExprsCount(s: Stmt, x: Ident)
    requires !s.Definition?
    ensures StoresAll(OwnExprs(s), x) == OwnStores(s, x)
  {
    match s
    case Assign(_, targets, rhs) =>
      StoresAppend(targets, [rhs], x);
      OneExpr(rhs, x);
    case AnnAssign(_, target, annotation, value) =>
      assert [target, annotation] == [target] + [annotation];
      StoresAppend([target], [annotation], x);
      StoresAppend([target, annotation], if value.Some? then [value.value] else [], x);
      OneExpr(target, x);
      OneExpr(annotation, x);
      if value.Some? { OneExpr(value.value, x); }
    case If(_, test, _, _) => if test.Dynamic? { OneExpr(test.expr, x); }
    case While(_, test, _, _) => if test.Dynamic? { OneExpr(test.expr, x); }
    case For(_, target, iterable, _, _) =>
      assert [target, iterable] == [target] + [iterable];
      StoresAppend([target], [iterable], x);
      OneExpr(target, x);
      OneExpr(iterable, x);
    case Try(_, _, _, handlers, _, _) => HandlerPartsCount(handlers, x);
    case Match(_, subject, cases) =>
      StoresAppend([subject], CaseParts(cases), x);
      OneExpr(subject, x);
      CasePartsCount(cases, x);
    case _ =>
  }

  /** The stores of several blocks. */
  function SumStores(blocks: seq<seq<Stmt>>, x: Ident): nat {
    if blocks == [] then 0 else BlockStores(blocks[0], x) + SumStores(blocks[1..], x)
  }

  lemma {:induction false} SumAppend(a: seq<seq<Stmt>>, b: seq<seq<Stmt>>, x: Ident)
    ensures SumStores(a + b, x) == SumStores(a, x) + SumStores(b, x)
  {
    if a == [] {
      assert a + b == b;
    } else {
      SumAppend(a[1..], b, x);
      Uncons(a, b);
    }
  }

  lemma {:induction false} HandlerBlocksSum(handlers: seq<Handler>, x: Ident)
    ensures SumStores(seq(|handlers|, i requires 0 <= i < |handlers| => handlers[i].body), x) == HandlerBlockStores(handlers, x)
  {
    if handlers != [] {
      var rest := handlers[1..];
      HandlerBlocksSum(rest, x);
      assert seq(|handlers|, i requires 0 <= i < |handlers| => handlers[i].body)[1..]
          == seq(|rest|, i requires 0 <= i < |rest| => rest[i].body);
    }
  }

  lemma {:induction false} CaseBlocksSum(cases: seq<Case>, x: Ident)
    ensures SumStores(seq(|cases|, i requires 0 <= i < |cases| => cases[i].body), x) == CaseBlockStores(cases, x)
  {
    if cases != [] {
      var rest := cases[1..];
      CaseBlocksSum(rest, x);
      assert seq(|cases|, i requires 0 <= i < |cases| => cases[i].body)[1..]
          == seq(|rest|, i requires 0 <= i < |rest| => rest[i].body);
    }
  }

  lemma SumOfTwo(a: seq<Stmt>, b: seq<Stmt>, x: Ident)
    ensures SumStores([a, b], x) == BlockStores(a, x) + BlockStores(b, x)
  {
    assert [a, b][1..] == [b] && [b][1..] == [];
    assert SumStores([b], x) == BlockStores(b, x);
  }

  lemma BlocksSum(s: Stmt, x: Ident)
    ensures OwnStores(s, x) + SumStores(Blocks(s), x) == AllStores(s, x)
  {
    match s
    case If(_, _, body, orelse) => SumOfTwo(body, orelse, x);
    case While(_, _, body, orelse) => SumOfTwo(body, orelse, x);
    case For(_, _, _, body, orelse) => SumOfTwo(body, orelse, x);
    case Try(_, _, body, handlers, orelse, finalbody) =>
      var bodies := seq(|handlers|, i requires 0 <= i < |handlers| => handlers[i].body);
      assert [body, orelse, finalbody] == [body] + [orelse, finalbody];
      SumAppend([body], [orelse, finalbody], x);
      SumAppend([body, orelse, finalbody], bodies, x);
      assert SumStores([body], x) == BlockStores(body, x) by { assert [body][1..] == []; }
      SumOfTwo(orelse, finalbody, x);
      HandlerBlocksSum(handlers, x);
    case With(_, _, body) => assert [body][1..] == [];
    case Match(_, _, cases) => CaseBlocksSum(cases, x);
    case _ =>
  }

  lemma {:induction false} StmtCount(s: Stmt, x: Ident)
    ensures StoreCount(x, StmtNodes(s)) == AllStores(s, x)
    decreases s, 2, 0
  {
    if s.Definition? {
      assert StmtNodes(s) == [StmtNode(s)] && [StmtNode(s)][1..] == [];
    } else {
      StoreCountAppend(x, [StmtNode(s)], ExprListNodes(OwnExprs(s)) + BlocksNodes(s, Blocks(s)));
      StoreCountAppend(x, ExprListNodes(OwnExprs(s)), BlocksNodes(s, Blocks(s)));
      assert StoreCount(x, [StmtNode(s)]) == 0 by { assert [StmtNode(s)][1..] == []; }
      ExprListCount(OwnExprs(s), x);
      OwnExprsCount(s, x);
      BlocksCount(s, Blocks(s), x);
      BlocksSum(s, x);
    }
  }

  lemma {:induction false} BlocksCount(owner: Stmt, blocks: seq<seq<Stmt>>, x: Ident)
    requires forall i :: 0 <= i < |blocks| ==> (owner decreases to blocks[i])
    ensures StoreCount(x, BlocksNodes(owner, blocks)) == SumStores(blocks, x)
    decreases owner, 1, |blocks|
  {
    if blocks != [] {
      StoreCountAppend(x, BlockNodes(blocks[0]), BlocksNodes(owner, blocks[1..]));
      BlockCount(blocks[0], x);
      BlocksCount(owner, blocks[1..], x);
    }
  }

  lemma {:induction false} BlockCount(body: seq<Stmt>, x: Ident)
    ensures StoreCount(x, BlockNodes(body)) == BlockStores(body, x)
    decreases body, 0, 0
  {
    if body != [] {
      StoreCountAppend(x, StmtNodes(body[0]), BlockNodes(body[1..]));
      StmtCount(body[0], x);
      BlockCount(body[1..], x);
    }
  }

  /** What is trusted, in the program's own terms: a top-level assignment binds the name
      to a matching value, and that is the one store of the name anywhere in the scope. */
  lemma AliasIffSoleStore(body: seq<Stmt>, matches: Expr -> bool, x: Ident)
    ensures IsAlias(body, matches, x) <==>
            (exists i :: 0 <= i < |body| && BindsMatching(body[i], x, matches)) && BlockStores(body, x) == 1
  {
    BlockCount(body, x);
  }

  // ---------- what executing a statement may bind ----------

  datatype Origin = FromValue(value: Expr) | FromElsewhere

  /** Stores inside an expression that the scope walk does not see: those in the
      defaults of a lambda, which run in the enclosing scope. */
  predicate HiddenIn(e: Expr, x: Ident)
    decreases e, 1
  {
    match e
    case Name(_, _) => false
    case Lambda(defaults, _) => StoredAnywhere(defaults, x)
    case Compound(parts) => HiddenInAny(parts, x)
  }

  predicate HiddenInAny(es: seq<Expr>, x: Ident)
    decreases es, 0
  {
    es != [] && (HiddenIn(es[0], x) || HiddenInAny(es[1..], x))
  }

  predicate StoredAnywhere(es: seq<Expr>, x: Ident)
    decreases es, 0
  {
    es != [] && (StoredIn(es[0], x) || StoredAnywhere(es[1..], x))
  }

  predicate StoredIn(e: Expr, x: Ident)
    decreases e, 1
  {
    match e
    case Name(ident, store) => store && ident == x
    case Lambda(defaults, _) => StoredAnywhere(defaults, x)
    case Compound(parts) => StoredAnywhere(parts, x)
  }

  predicate BinderNamed(s: Stmt, x: Ident) {
    match s
    case Simple(_, _, binders) => x in binders
    case Definition(_, binders, _, _) => x in binders
    case Try(_, _, _, handlers, _, _) => exists i :: 0 <= i < |handlers| && x in handlers[i].binders
    case Match(_, _, cases) => exists i :: 0 <= i < |cases| && x in cases[i].binders
    case _ => false
  }

  /** The expressions a statement evaluates in its own scope, or, for a definition, in
      the scope around it. */
  predicate Evaluates(s: Stmt, e: Expr) {
    match s
    case Simple(_, parts, _) => e in parts
    case Assign(_, targets, rhs) => e in targets || e == rhs
    case AnnAssign(_, target, annotation, value) => e == target || e == annotation || value == Some(e)
    case Return(_, parts) => e in parts
    case Raise(_, parts) => e in parts
    case Definition(_, _, parts, _) => e in parts
    case If(_, test, _, _) => test == Dynamic(e)
    case While(_, test, _, _) => test == Dynamic(e)
    case For(_, target, iterable, _, _) => e == target || e == iterable
    case Try(_, _, _, handlers, _, _) => exists i :: 0 <= i < |handlers| && e in handlers[i].parts
    case With(_, items, _) => e in items
    case Match(_, subject, cases) => e == subject || exists i :: 0 <= i < |cases| && e in cases[i].parts
    case _ => false
  }

  /** Those other than plain assignment targets. */
  predicate EvaluatesBesides(s: Stmt, e: Expr) {
    match s
    case Assign(_, targets, rhs) => (e in targets && !e.Name?) || e == rhs
    case AnnAssign(_, target, annotation, value) => (e == target && !e.Name?) || e == annotation || value == Some(e)
    case _ => Evaluates(s, e)
  }

  /** Bindings of `x` the store count misses: imports, definitions, exception
      names, match captures, lambda defaults, and stores in a definition's header. */
  ghost predicate HiddenBinds(s: Stmt, x: Ident) {
    || BinderNamed(s, x)
    || exists e :: Evaluates(s, e) && if s.Definition? then StoredIn(e, x) else HiddenIn(e, x)
  }

  ghost predicate StoresBesides(s: Stmt, x: Ident) {
    !s.Definition? && exists e :: EvaluatesBesides(s, e) && Stores(e, x) > 0
  }

  /** Executing `s` may bind `x` to a value of the given origin. */
  ghost predicate MayBind(s: Stmt, x: Ident, o: Origin) {
    match o
    case FromValue(v) =>
      || (s.Assign? && ExprTargets(s.targets, x) && v == s.rhs)
      || (s.AnnAssign? && s.target.Name? && s.target.ident == x && s.value == Some(v))
    case FromElsewhere => HiddenBinds(s, x) || StoresBesides(s, x)
  }

  /** Whatever any execution binds `x` to comes from a matching expression. */
  ghost predicate Faithful(body: seq<Stmt>, matches: Expr -> bool, x: Ident, swallowing: set<nat>) {
    forall s, o :: CanStart(body, s, swallowing) && MayBind(s, x, o) ==> o.FromValue? && matches(o.value)
  }

  // ---------- counting ----------

  lemma {:induction false} StoreCountAppend(x: Ident, a: seq<Node>, b: seq<Node>)
    ensures StoreCount(x, a + b) == StoreCount(x, a) + StoreCount(x, b)
  {
    if a == [] {
      assert a + b == b;
    } else {
      assert (a + b)[1..] == a[1..] + b;
      StoreCountAppend(x, a[1..], b);
    }
  }

  lemma {:induction false} BlockCountAt(x: Ident, body: seq<Stmt>, i: nat)
    requires i < |body|
    ensures StoreCount(x, BlockNodes(body)) ==
            StoreCount(x, BlockNodes(body[..i])) + StoreCount(x, StmtNodes(body[i])) + StoreCount(x, BlockNodes(body[i + 1..]))
  {
    assert body == body[..i] + ([body[i]] + body[i + 1..]);
    BlockNodesAppend(body[..i], [body[i]] + body[i + 1..]);
    assert BlockNodes([body[i]] + body[i + 1..]) == StmtNodes(body[i]) + BlockNodes(body[i + 1..]);
    StoreCountAppend(x, BlockNodes(body[..i]), StmtNodes(body[i]) + BlockNodes(body[i + 1..]));
    StoreCountAppend(x, StmtNodes(body[i]), BlockNodes(body[i + 1..]));
  }

  lemma TwoStatementsCount(x: Ident, body: seq<Stmt>, i: nat, j: nat)
    requires i < |body| && j < |body| && i != j
    ensures StoreCount(x, BlockNodes(body)) >= StoreCount(x, StmtNodes(body[i])) + StoreCount(x, StmtNodes(body[j]))
  {
    BlockCountAt(x, body, i);
    if j < i {
      BlockCountAt(x, body[..i], j);
    } else {
      BlockCountAt(x, body[i + 1..], j - i - 1);
    }
  }

  lemma {:induction false} StoresInList(es: seq<Expr>, e: Expr, x: Ident)
    requires e in es
    ensures Stores(e, x) <= StoresAll(es, x)
  {
    if e != es[0] {
      StoresInList(es[1..], e, x);
    }
  }

  /** A plain target of the name and another storing target are two stores. */
  lemma {:induction false} TargetsCount(targets: seq<Expr>, e: Expr, x: Ident)
    requires forall i :: 0 <= i < |targets| && targets[i].Name? ==> targets[i].store
    ensures ExprTargets(targets, x) ==> StoresAll(targets, x) >= 1
    ensures ExprTargets(targets, x) && e in targets && !e.Name? ==> StoresAll(targets, x) >= 1 + Stores(e, x)
  {
    if targets != [] {
      TargetsCount(targets[1..], e, x);
      if ExprTargets(targets, x) && !(targets[0].Name? && targets[0].ident == x) {
        var i :| 0 <= i < |targets| && targets[i].Name? && targets[i].ident == x;
        assert targets[1..][i - 1] == targets[i];
      }
      if e in targets[1..] {
        StoresInList(targets[1..], e, x);
      }
    }
  }

  lemma {:induction false} HandlerPartIsCounted(handlers: seq<Handler>, i: nat, e: Expr, x: Ident)
    requires i < |handlers| && e in handlers[i].parts
    ensures Stores(e, x) <= HandlerStores(handlers, x)
  {
    if i == 0 {
      StoresInList(handlers[0].parts, e, x);
    } else {
      HandlerPartIsCounted(handlers[1..], i - 1, e, x);
    }
  }

  lemma {:induction false} CasePartIsCounted(cases: seq<Case>, i: nat, e: Expr, x: Ident)
    requires i < |cases| && e in cases[i].parts
    ensures Stores(e, x) <= CaseStores(cases, x)
  {
    if i == 0 {
      StoresInList(cases[0].parts, e, x);
    } else {
      CasePartIsCounted(cases[1..], i - 1, e, x);
    }
  }

  /** Whatever a statement evaluates is counted with all its stores. */
  lemma EvaluatedIsCounted(s: Stmt, e: Expr, x: Ident)
    requires !s.Definition? && Evaluates(s, e)
    ensures Stores(e, x) <= OwnStores(s, x)
  {
    match s
    case Simple(_, parts, _) => StoresInList(parts, e, x);
    case Assign(_, targets, _) => if e in targets { StoresInList(targets, e, x); }
    case Return(_, parts) => StoresInList(parts, e, x);
    case Raise(_, parts) => StoresInList(parts, e, x);
    case Try(_, _, _, handlers, _, _) =>
      var i :| 0 <= i < |handlers| && e in handlers[i].parts;
      HandlerPartIsCounted(handlers, i, e, x);
    case With(_, items, _) => StoresInList(items, e, x);
    case Match(_, subject, cases) =>
      if e != subject {
        var i :| 0 <= i < |cases| && e in cases[i].parts;
        CasePartIsCounted(cases, i, e, x);
      }
    case _ =>
  }

  ghost predicate BindsValue(s: Stmt, x: Ident) {
    exists v :: MayBind(s, x, FromValue(v))
  }

  lemma AssignIsCounted(s: Stmt, x: Ident)
    requires s.Assign? && WellFormedTargets(s)
    ensures OwnStores(s, x) >= (if StoresBesides(s, x) then 1 else 0) + if BindsValue(s, x) then 1 else 0
  {
    if StoresBesides(s, x) {
      var e :| EvaluatesBesides(s, e) && Stores(e, x) > 0;
      TargetsCount(s.targets, e, x);
      EvaluatedIsCounted(s, e, x);
    } else {
      TargetsCount(s.targets, s.rhs, x);
    }
  }

  /** Every counted way to bind `x` is a store of the statement. */
  lemma BindingIsCounted(s: Stmt, x: Ident)
    requires WellFormedTargets(s) && !s.Definition?
    ensures StoreCount(x, StmtNodes(s)) >= (if StoresBesides(s, x) then 1 else 0) + if BindsValue(s, x) then 1 else 0
  {
    StmtCount(s, x);
    if s.Assign? {
      AssignIsCounted(s, x);
    } else if StoresBesides(s, x) {
      var e :| EvaluatesBesides(s, e) && Stores(e, x) > 0;
      EvaluatedIsCounted(s, e, x);
    }
  }

  // ---------- where an executed statement sits ----------

  predicate Inside(s: Stmt, t: Stmt)
    decreases s, 1
  {
    t == s || exists k :: 0 <= k < |Blocks(s)| && InBlock(Blocks(s)[k], t)
  }

  predicate InBlock(body: seq<Stmt>, t: Stmt)
    decreases body, 0
  {
    body != [] && (Inside(body[0], t) || InBlock(body[1..], t))
  }

  lemma InSubBlock(s: Stmt, k: nat, t: Stmt)
    requires k < |Blocks(s)| && InBlock(Blocks(s)[k], t)
    ensures Inside(s, t)
  {
  }

  lemma {:induction false} BlockTraceInside(body: seq<Stmt>, rs: seq<Run>, t: Stmt)
    requires t in BlockTrace(body, rs)
    ensures InBlock(body, t)
    decreases rs, 0
  {
    if t in Trace(body[0], rs[0]) {
      TraceInside(body[0], rs[0], t);
    } else {
      BlockTraceInside(body[1..], rs[1..], t);
    }
  }

  lemma {:induction false} TraceInside(s: Stmt, r: Run, t: Stmt)
    requires t in Trace(s, r)
    ensures Inside(s, t)
    decreases r, 1
  {
    if t != s {
      match r
      case Arm(k, inner) =>
        var at := if s.If? && k != 0 then 1 else if s.If? then 0 else k;
        BlockTraceInside(Blocks(s)[at], inner, t);
        InSubBlock(s, at, t);
      case LoopElse(inner) =>
        BlockTraceInside(s.orelse, inner, t);
        InSubBlock(s, 1, t);
      case LoopExit(inner) =>
        BlockTraceInside(s.body, inner, t);
        InSubBlock(s, 0, t);
      case LoopNext(inner, rest) =>
        if t in Trace(s, rest) {
          TraceInside(s, rest, t);
        } else {
          BlockTraceInside(s.body, inner, t);
          InSubBlock(s, 0, t);
        }
      case Managed(inner, _) =>
        BlockTraceInside(s.body, inner, t);
        InSubBlock(s, 0, t);
      case Guarded(inner, rescue, last) =>
        if t in BlockTrace(s.body, inner) {
          BlockTraceInside(s.body, inner, t);
          InSubBlock(s, 0, t);
        } else if t in BlockTrace(s.finalbody, last) {
          BlockTraceInside(s.finalbody, last, t);
          InSubBlock(s, 2, t);
        } else {
          RescueTraceInside(s, rescue, t);
        }
      case _ =>
    }
  }

  lemma {:induction false} RescueTraceInside(s: Stmt, rescue: Rescue, t: Stmt)
    requires s.Try? && t in RescueTrace(s, rescue)
    ensures Inside(s, t)
    decreases rescue, 0
  {
    if rescue.ElseClause? {
      BlockTraceInside(s.orelse, rescue.run, t);
      InSubBlock(s, 1, t);
    } else if rescue.GroupPart? && t in RescueTrace(s, rescue.rest) {
      RescueTraceInside(s, rescue.rest, t);
    } else {
      BlockTraceInside(s.handlers[rescue.index].body, rescue.run, t);
      InSubBlock(s, 3 + rescue.index, t);
    }
  }

  lemma FirstBlockCounts(x: Ident, owner: Stmt, blocks: seq<seq<Stmt>>)
    requires blocks != [] && forall i :: 0 <= i < |blocks| ==> (owner decreases to blocks[i])
    ensures StoreCount(x, BlocksNodes(owner, blocks)) == StoreCount(x, BlockNodes(blocks[0])) + StoreCount(x, BlocksNodes(owner, blocks[1..]))
  {
    StoreCountAppend(x, BlockNodes(blocks[0]), BlocksNodes(owner, blocks[1..]));
  }

  lemma {:induction false} BlocksCountAt(x: Ident, owner: Stmt, blocks: seq<seq<Stmt>>, k: nat)
    requires forall i :: 0 <= i < |blocks| ==> (owner decreases to blocks[i])
    requires k < |blocks|
    ensures StoreCount(x, BlockNodes(blocks[k])) <= StoreCount(x, BlocksNodes(owner, blocks))
    decreases |blocks|
  {
    FirstBlockCounts(x, owner, blocks);
    if k > 0 {
      BlocksCountAt(x, owner, blocks[1..], k - 1);
    }
  }

  lemma {:induction false} InsideCount(x: Ident, s: Stmt, t: Stmt)
    requires Inside(s, t)
    ensures StoreCount(x, StmtNodes(t)) <= StoreCount(x, StmtNodes(s))
    decreases s, 1
  {
    if t != s {
      var k :| 0 <= k < |Blocks(s)| && InBlock(Blocks(s)[k], t);
      InBlockCount(x, Blocks(s)[k], t);
      BlocksCountAt(x, s, Blocks(s), k);
      StoreCountAppend(x, [StmtNode(s)], ExprListNodes(OwnExprs(s)) + BlocksNodes(s, Blocks(s)));
      StoreCountAppend(x, ExprListNodes(OwnExprs(s)), BlocksNodes(s, Blocks(s)));
    }
  }

  lemma {:induction false} InBlockCount(x: Ident, body: seq<Stmt>, t: Stmt)
    requires InBlock(body, t)
    ensures StoreCount(x, StmtNodes(t)) <= StoreCount(x, BlockNodes(body))
    decreases body, 0
  {
    StoreCountAppend(x, StmtNodes(body[0]), BlockNodes(body[1..]));
    if Inside(body[0], t) {
      InsideCount(x, body[0], t);
    } else {
      InBlockCount(x, body[1..], t);
    }
  }

  lemma {:induction false} InBlockAt(body: seq<Stmt>, t: Stmt) returns (i: nat)
    requires InBlock(body, t)
    ensures i < |body| && Inside(body[i], t)
  {
    if Inside(body[0], t) {
      i := 0;
    } else {
      i := InBlockAt(body[1..], t);
      i := i + 1;
    }
  }

  // ---------- soundness of the aliases ----------

  ghost predicate WellFormed(body: seq<Stmt>) {
    forall t :: InBlock(body, t) ==> WellFormedTargets(t)
  }

  lemma {:induction false} AtTopLevel(body: seq<Stmt>, i: nat)
    requires i < |body|
    ensures InBlock(body, body[i])
  {
    if i > 0 {
      AtTopLevel(body[1..], i - 1);
    }
  }

  /** A binding not hidden is a store of the statement itself. */
  lemma SelfStores(s: Stmt, x: Ident, o: Origin)
    requires WellFormedTargets(s) && MayBind(s, x, o) && !HiddenBinds(s, x)
    ensures !s.Definition? && StoreCount(x, StmtNodes(s)) >= 1
  {
    BindingIsCounted(s, x);
    if o.FromValue? {
      assert BindsValue(s, x);
    }
  }

  lemma MatchIsCounted(body: seq<Stmt>, matches: Expr -> bool, x: Ident, i: nat)
    requires WellFormed(body) && i < |body| && BindsMatching(body[i], x, matches)
    ensures StoreCount(x, StmtNodes(body[i])) >= 1
  {
    AtTopLevel(body, i);
    BindingIsCounted(body[i], x);
    assert MayBind(body[i], x, FromValue(if body[i].Assign? then body[i].rhs else body[i].value.value));
    assert BindsValue(body[i], x);
  }

  /** A matching assignment that stores a name once binds it to its value only. */
  lemma SoleMatchBindsValue(s: Stmt, matches: Expr -> bool, x: Ident, o: Origin)
    requires WellFormedTargets(s) && BindsMatching(s, x, matches) && StoreCount(x, StmtNodes(s)) <= 1
    requires MayBind(s, x, o) && !HiddenBinds(s, x)
    ensures o.FromValue? && matches(o.value)
  {
    BindingIsCounted(s, x);
    assert MayBind(s, x, FromValue(if s.Assign? then s.rhs else s.value.value));
    assert BindsValue(s, x);
  }

  lemma EvaluatedStoreIsCounted(t: Stmt, e: Expr, x: Ident)
    requires !t.Definition? && Evaluates(t, e) && Stores(e, x) > 0
    ensures StoreCount(x, StmtNodes(t)) >= 1
  {
    EvaluatedIsCounted(t, e, x);
    StmtCount(t, x);
  }

  /** The single store of a trusted name is the matching top-level assignment, so
      any counted binding of it is that one. */
  lemma CountedBindingMatches(body: seq<Stmt>, matches: Expr -> bool, x: Ident, s: Stmt, o: Origin)
    requires WellFormed(body) && IsAlias(body, matches, x)
    requires InBlock(body, s) && MayBind(s, x, o) && !HiddenBinds(s, x)
    ensures o.FromValue? && matches(o.value)
  {
    var i :| 0 <= i < |body| && BindsMatching(body[i], x, matches);
    MatchIsCounted(body, matches, x, i);
    SelfStores(s, x, o);
    var j := InBlockAt(body, s);
    InsideCount(x, body[j], s);
    BlockCountAt(x, body, i);
    if i != j {
      TwoStatementsCount(x, body, i, j);
      assert false;
    }
    assert s == body[i];
    SoleMatchBindsValue(s, matches, x, o);
  }

  /** Any store of the name beside the matching assignment, in a target, value, test,
      iterable, `with` item, handler or case of any statement of the scope, makes it no
      alias. */
  lemma SecondStoreIsNoAlias(body: seq<Stmt>, matches: Expr -> bool, x: Ident, i: nat, t: Stmt, e: Expr)
    requires WellFormed(body) && i < |body| && BindsMatching(body[i], x, matches)
    requires InBlock(body, t) && t != body[i] && !t.Definition? && Evaluates(t, e) && Stores(e, x) > 0
    ensures !IsAlias(body, matches, x)
  {
    MatchIsCounted(body, matches, x, i);
    EvaluatedStoreIsCounted(t, e, x);
    var j := InBlockAt(body, t);
    InsideCount(x, body[j], t);
    if j != i {
      TwoStatementsCount(x, body, i, j);
    }
  }

  /** Every store in an expression is one the walk sees or one it hides. */
  lemma {:induction false} StoredIsSeenOrHidden(e: Expr, x: Ident)
    ensures StoredIn(e, x) <==> Stores(e, x) > 0 || HiddenIn(e, x)
    decreases e, 1
  {
    if e.Compound? {
      StoredAreSeenOrHidden(e.parts, x);
    }
  }

  lemma {:induction false} StoredAreSeenOrHidden(es: seq<Expr>, x: Ident)
    ensures StoredAnywhere(es, x) <==> StoresAll(es, x) > 0 || HiddenInAny(es, x)
    decreases es, 0
  {
    if es != [] {
      StoredIsSeenOrHidden(es[0], x);
      StoredAreSeenOrHidden(es[1..], x);
    }
  }

  ghost predicate StoresSome(es: seq<Expr>, x: Ident) {
    exists e :: e in es && StoredIn(e, x)
  }

  /** What a statement may bind a name to besides an assigned value, field by field. */
  ghost predicate BindsByField(s: Stmt, x: Ident) {
    match s
    case Simple(_, parts, binders) => x in binders || StoresSome(parts, x)
    case Assign(_, targets, rhs) => StoredIn(rhs, x) || exists e :: e in targets && !e.Name? && StoredIn(e, x)
    case AnnAssign(_, target, annotation, value) =>
      || (!target.Name? && StoredIn(target, x)) || StoredIn(annotation, x)
      || (value.Some? && StoredIn(value.value, x))
    case Return(_, parts) => StoresSome(parts, x)
    case Raise(_, parts) => StoresSome(parts, x)
    case Break(_) => false
    case Continue(_) => false
    case Definition(_, binders, parts, _) => x in binders || StoresSome(parts, x)
    case If(_, test, _, _) => test.Dynamic? && StoredIn(test.expr, x)
    case While(_, test, _, _) => test.Dynamic? && StoredIn(test.expr, x)
    case For(_, target, iterable, _, _) => StoredIn(target, x) || StoredIn(iterable, x)
    case Try(_, _, _, handlers, _, _) => exists h :: h in handlers && (x in h.binders || StoresSome(h.parts, x))
    case With(_, items, _) => StoresSome(items, x)
    case Match(_, subject, cases) =>
      StoredIn(subject, x) || exists c :: c in cases && (x in c.binders || StoresSome(c.parts, x))
  }

  /** The bindings the faithfulness results speak of, by the fields of every statement:
      loop and `with` targets, walruses wherever they stand, and names bound without a
      `Name` node. */
  lemma BindsElsewhereIff(s: Stmt, x: Ident)
    ensures MayBind(s, x, FromElsewhere) <==> BindsByField(s, x)
  {
    EvaluatedBindsIff(s, x);
    match s
    case Try(_, _, _, handlers, _, _) => HandlersBindIff(s, x);
    case Match(_, _, cases) => CasesBindIff(s, x);
    case _ =>
  }

  ghost predicate EvaluatedStores(s: Stmt, x: Ident) {
    exists e :: EvaluatesBesides(s, e) && StoredIn(e, x)
  }

  lemma EvaluatedBindsIff(s: Stmt, x: Ident)
    ensures MayBind(s, x, FromElsewhere) <==> BinderNamed(s, x) || EvaluatedStores(s, x)
  {
    forall e ensures StoredIn(e, x) <==> Stores(e, x) > 0 || HiddenIn(e, x) {
      StoredIsSeenOrHidden(e, x);
    }
    forall e | Evaluates(s, e) && HiddenIn(e, x) ensures EvaluatesBesides(s, e) {
    }
  }

  lemma HandlersBindIff(s: Stmt, x: Ident)
    requires s.Try?
    ensures BinderNamed(s, x) || EvaluatedStores(s, x) <==> BindsByField(s, x)
  {
    if i :| 0 <= i < |s.handlers| && x in s.handlers[i].binders {
      assert s.handlers[i] in s.handlers;
    }
    if e :| EvaluatesBesides(s, e) && StoredIn(e, x) {
      var i :| 0 <= i < |s.handlers| && e in s.handlers[i].parts;
      assert StoresSome(s.handlers[i].parts, x) && s.handlers[i] in s.handlers;
    }
    if h :| h in s.handlers && (x in h.binders || StoresSome(h.parts, x)) {
      var i :| 0 <= i < |s.handlers| && s.handlers[i] == h;
      if x !in h.binders {
        var e :| e in h.parts && StoredIn(e, x);
        assert EvaluatesBesides(s, e);
      }
    }
  }

  lemma CasesBindIff(s: Stmt, x: Ident)
    requires s.Match?
    ensures BinderNamed(s, x) || EvaluatedStores(s, x) <==> BindsByField(s, x)
  {
    if i :| 0 <= i < |s.cases| && x in s.cases[i].binders {
      assert s.cases[i] in s.cases;
    }
    if e :| EvaluatesBesides(s, e) && StoredIn(e, x) && e != s.subject {
      var i :| 0 <= i < |s.cases| && e in s.cases[i].parts;
      assert StoresSome(s.cases[i].parts, x) && s.cases[i] in s.cases;
    }
    if StoredIn(s.subject, x) {
      assert EvaluatesBesides(s, s.subject);
    }
    if c :| c in s.cases && (x in c.binders || StoresSome(c.parts, x)) {
      var i :| 0 <= i < |s.cases| && s.cases[i] == c;
      if x !in c.binders {
        var e :| e in c.parts && StoredIn(e, x);
        assert EvaluatesBesides(s, e);
      }
    }
  }

  /** A trusted alias holds a matching value in every execution if and only if none
      of the statements executions start, as computed from the program, binds it
      behind the count's back. */
  lemma AliasFaithfulIff(body: seq<Stmt>, matches: Expr -> bool, x: Ident, swallowing: set<nat>)
    requires WellFormed(body) && IsAlias(body, matches, x)
    ensures Faithful(body, matches, x, swallowing) <==> forall s :: s in Started(body, swallowing) ==> !HiddenBinds(s, x)
  {
    if forall s :: s in Started(body, swallowing) ==> !HiddenBinds(s, x) {
      forall s, o | CanStart(body, s, swallowing) && MayBind(s, x, o) ensures o.FromValue? && matches(o.value) {
        StartedIffCanStart(body, s, swallowing);
        var rs :| BlockExecutes(body, rs, swallowing) && s in BlockTrace(body, rs);
        BlockTraceInside(body, rs, s);
        CountedBindingMatches(body, matches, x, s, o);
      }
    } else {
      var s :| s in Started(body, swallowing) && HiddenBinds(s, x);
      StartedIffCanStart(body, s, swallowing);
      assert MayBind(s, x, FromElsewhere);
    }
  }

  /** Any program: no yielded statement hides a binding, no manager swallows. */
  lemma AliasFaithfulWhenNothingHides(body: seq<Stmt>, matches: Expr -> bool, x: Ident, swallowing: set<nat>)
    requires WellFormed(body) && IsAlias(body, matches, x) && Trusted(Reachable(body), swallowing)
    requires forall s :: s in Reachable(body) ==> !HiddenBinds(s, x)
    ensures Faithful(body, matches, x, swallowing)
  {
    AliasFaithfulIff(body, matches, x, swallowing);
    ExecutedIsYielded(body, swallowing);
    forall s | s in Started(body, swallowing) ensures !HiddenBinds(s, x) {
      StartedIffCanStart(body, s, swallowing);
    }
  }

  // ---------- environments ----------

  datatype Binding = Binding(name: Ident, origin: Origin)

  /** The origin of the last binding of `x`, if any. */
  function Lookup(events: seq<Binding>, x: Ident): Option<Origin> {
    if events == [] then None
    else
      var last := events[|events| - 1];
      if last.name == x then Some(last.origin) else Lookup(events[..|events| - 1], x)
  }

  ghost predicate BindsAll(s: Stmt, events: seq<Binding>) {
    forall i :: 0 <= i < |events| ==> MayBind(s, events[i].name, events[i].origin)
  }

  /** The bindings a trace makes, in its order: each start of a statement makes some of
      those it may. */
  ghost predicate AreBindings(trace: seq<Stmt>, events: seq<Binding>)
    decreases |trace|
  {
    if trace == [] then events == []
    else exists n :: 0 <= n <= |events| && BindsAll(trace[0], events[..n]) && AreBindings(trace[1..], events[n..])
  }

  lemma {:induction false} BindingHasStatement(trace: seq<Stmt>, events: seq<Binding>, k: nat)
    requires AreBindings(trace, events) && k < |events|
    ensures exists s :: s in trace && MayBind(s, events[k].name, events[k].origin)
    decreases |trace|
  {
    var n :| 0 <= n <= |events| && BindsAll(trace[0], events[..n]) && AreBindings(trace[1..], events[n..]);
    if k < n {
      assert MayBind(trace[0], events[..n][k].name, events[..n][k].origin);
    } else {
      BindingHasStatement(trace[1..], events[n..], k - n);
    }
  }

  lemma {:induction false} LastBindingOf(events: seq<Binding>, x: Ident) returns (k: nat)
    requires Lookup(events, x).Some?
    ensures k < |events| && events[k] == Binding(x, Lookup(events, x).value)
  {
    k := |events| - 1;
    if events[k].name != x {
      k := LastBindingOf(events[..k], x);
    }
  }

  /** If a trusted name is bound at all, at any point of any execution, it holds the
      value of a matching expression, as long as no started statement binds it in a way
      the count misses. The name starts unbound. */
  lemma BoundAliasHoldsMatch(body: seq<Stmt>, matches: Expr -> bool, x: Ident,
                             swallowing: set<nat>, rs: seq<Run>, events: seq<Binding>)
    requires WellFormed(body) && IsAlias(body, matches, x)
    requires forall s :: s in Started(body, swallowing) ==> !HiddenBinds(s, x)
    requires BlockExecutes(body, rs, swallowing) && AreBindings(BlockTrace(body, rs), events)
    ensures var held := Lookup(events, x);
            held.Some? ==> held.value.FromValue? && matches(held.value.value)
  {
    if Lookup(events, x).Some? {
      var k := LastBindingOf(events, x);
      BindingHasStatement(BlockTrace(body, rs), events, k);
      var s :| s in BlockTrace(body, rs) && MayBind(s, events[k].name, events[k].origin);
      AliasFaithfulIff(body, matches, x, swallowing);
      assert CanStart(body, s, swallowing);
    }
  }

  lemma StoredOnce(x: Ident, bind: Stmt, rebind: Stmt, matched: Expr)
    requires matched.Compound? && matched.parts == []
    requires bind == Assign(0, [Name(x, true)], matched) && rebind == Simple(1, [], [x])
    ensures StoreCount(x, BlockNodes([bind, rebind])) == 1
  {
    BlockCount([bind, rebind], x);
    assert [bind, rebind][1..] == [rebind] && [rebind][1..] == [] && BlockStores([], x) == 0;
    assert bind.targets[1..] == [] && StoresAll([], x) == 0;
    assert AllStores(bind, x) == Stores(Name(x, true), x) + StoresAll(matched.parts, x);
    assert BlockStores([rebind], x) == AllStores(rebind, x) == 0;
  }

  lemma SecondStarts(first: Stmt, second: Stmt)
    requires (first.Assign? || first.Simple?) && second.Simple?
    ensures CanStart([first, second], second, {})
  {
    var rs := [Leaf(Normal), Leaf(Normal)];
    assert [first, second][1..] == [second] && rs[1..] == [Leaf(Normal)];
    assert BlockExecutes([second], [Leaf(Normal)], {});
    assert BlockExecutes([first, second], rs, {});
    assert second in BlockTrace([second], [Leaf(Normal)]);
    assert second in BlockTrace([first, second], rs);
  }

  /** A rebinding import goes uncounted, so the alias is trusted and wrong. */
  lemma ImportRebindsTrustedAlias(x: Ident, matched: Expr, matches: Expr -> bool)
    requires matches(matched) && matched.Compound? && matched.parts == []
    ensures var body := [Assign(0, [Name(x, true)], matched), Simple(1, [], [x])];
            IsAlias(body, matches, x) && !Faithful(body, matches, x, {})
  {
    var bind, rebind := Assign(0, [Name(x, true)], matched), Simple(1, [], [x]);
    var body := [bind, rebind];
    assert bind.targets[0].Name? && BindsMatching(body[0], x, matches);
    StoredOnce(x, bind, rebind, matched);
    SecondStarts(bind, rebind);
    assert MayBind(rebind, x, FromElsewhere);
  }
}
