/** The statement language the gates read, and the static analysis that decides
    which statements control flow can still reach (`scripts/_gate_source.py`). */
module ControlFlow {
  import opened Prelude

  type Ident = string

  /** An expression, kept only as far as the gates look into it: a name with its
      context, a lambda (whose body is a scope of its own), or anything else. */
  datatype Expr =
    | Name(ident: Ident, store: bool)
    | Lambda(defaults: seq<Expr>, body: seq<Expr>)
    | Compound(parts: seq<Expr>)

  /** A branch condition: a bare constant with its truth value, or an expression
      whose value is not statically known. */
  datatype Test = Literal(truth: bool) | Dynamic(expr: Expr)

  datatype Handler = Handler(parts: seq<Expr>, binders: seq<Ident>, body: seq<Stmt>)

  datatype Case = Case(irrefutable: bool, guarded: bool, parts: seq<Expr>, binders: seq<Ident>, body: seq<Stmt>)

  /** Statements carry an identity, since the analysis yields nodes, not shapes.
      `binders` lists the names a statement binds without a `Name` node: imports,
      definitions, `except ... as` and match captures. */
  datatype Stmt =
    | Simple(id: nat, parts: seq<Expr>, binders: seq<Ident>)
    | Assign(id: nat, targets: seq<Expr>, rhs: Expr)
    | AnnAssign(id: nat, target: Expr, annotation: Expr, value: Option<Expr>)
    | Return(id: nat, parts: seq<Expr>)
    | Raise(id: nat, parts: seq<Expr>)
    | Break(id: nat)
    | Continue(id: nat)
    | Definition(id: nat, binders: seq<Ident>, parts: seq<Expr>, body: seq<Stmt>)
    | If(id: nat, test: Test, body: seq<Stmt>, orelse: seq<Stmt>)
    | While(id: nat, test: Test, body: seq<Stmt>, orelse: seq<Stmt>)
    | For(id: nat, target: Expr, iterable: Expr, body: seq<Stmt>, orelse: seq<Stmt>)
    | Try(id: nat, star: bool, body: seq<Stmt>, handlers: seq<Handler>, orelse: seq<Stmt>,
          finalbody: seq<Stmt>)
    | With(id: nat, items: seq<Expr>, body: seq<Stmt>)
    | Match(id: nat, subject: Expr, cases: seq<Case>)

  predicate IsCatchAll(c: Case) {
    !c.guarded && c.irrefutable
  }

  predicate HasCatchAll(cases: seq<Case>) {
    exists i :: 0 <= i < |cases| && IsCatchAll(cases[i])
  }

  /** Whether a `break` occurs anywhere below, nested loops and definitions included. */
  predicate ContainsBreak(s: Stmt)
    decreases s, 1
  {
    match s
    case Break(_) => true
    case Definition(_, _, _, body) => BlockContainsBreak(body)
    case If(_, _, body, orelse) => BlockContainsBreak(body) || BlockContainsBreak(orelse)
    case While(_, _, body, orelse) => BlockContainsBreak(body) || BlockContainsBreak(orelse)
    case For(_, _, _, body, orelse) => BlockContainsBreak(body) || BlockContainsBreak(orelse)
    case Try(_, _, body, handlers, orelse, finalbody) =>
      || BlockContainsBreak(body) || BlockContainsBreak(orelse) || BlockContainsBreak(finalbody)
      || exists i :: 0 <= i < |handlers| && BlockContainsBreak(handlers[i].body)
    case With(_, _, body) => BlockContainsBreak(body)
    case Match(_, _, cases) => exists i :: 0 <= i < |cases| && BlockContainsBreak(cases[i].body)
    case _ => false
  }

  predicate BlockContainsBreak(body: seq<Stmt>)
    decreases body, 0
  {
    body != [] && (ContainsBreak(body[0]) || BlockContainsBreak(body[1..]))
  }

  /** Whether control flow can never continue past `s`. */
  predicate Terminates(s: Stmt)
    decreases s, 1
  {
    match s
    case Return(_, _) => true
    case Raise(_, _) => true
    case Break(_) => true
    case Continue(_) => true
    case If(_, _, body, orelse) => orelse != [] && BlockTerminates(body) && BlockTerminates(orelse)
    case Try(_, _, body, handlers, orelse, finalbody) =>
      if BlockTerminates(finalbody) then true
      else
        && (BlockTerminates(body) || BlockTerminates(orelse))
        && forall i :: 0 <= i < |handlers| ==> BlockTerminates(handlers[i].body)
    case With(_, _, body) => BlockTerminates(body)
    case Match(_, _, cases) =>
      HasCatchAll(cases) && forall i :: 0 <= i < |cases| ==> BlockTerminates(cases[i].body)
    case While(_, test, body, orelse) =>
      test == Literal(true) && !BlockContainsBreak(body) && orelse == []
    case _ => false
  }

  predicate BlockTerminates(body: seq<Stmt>)
    decreases body, 0
  {
    body != [] && (Terminates(body[0]) || BlockTerminates(body[1..]))
  }

  /** The sub-blocks control flow can enter, statically dead arms left out. */
  function LiveBlocks(s: Stmt): (blocks: seq<seq<Stmt>>)
    ensures forall i :: 0 <= i < |blocks| ==> (s decreases to blocks[i])
  {
    match s
    case If(_, test, body, orelse) =>
      (if test == Literal(false) then [] else [body]) + (if test == Literal(true) then [] else [orelse])
    case While(_, test, body, orelse) =>
      (if test == Literal(false) then [] else [body]) + (if test == Literal(true) then [] else [orelse])
    case For(_, _, _, body, orelse) => [body, orelse]
    case Try(_, _, body, handlers, orelse, finalbody) =>
      [body, orelse, finalbody] + seq(|handlers|, i requires 0 <= i < |handlers| => handlers[i].body)
    case With(_, _, body) => [body]
    case Match(_, _, cases) => seq(|cases|, i requires 0 <= i < |cases| => cases[i].body)
    case _ => []
  }

  /** What `reachable_statements` yields for a block, in order. */
  function Reachable(body: seq<Stmt>): seq<Stmt>
    decreases body, 0
  {
    if body == [] then []
    else OwnReachable(body[0]) + (if Terminates(body[0]) then [] else Reachable(body[1..]))
  }

  /** The contribution of one statement: itself, then its live blocks. */
  function OwnReachable(s: Stmt): seq<Stmt>
    decreases s, 2
  {
    [s] + AllReachable(s, LiveBlocks(s))
  }

  function AllReachable(ghost owner: Stmt, blocks: seq<seq<Stmt>>): seq<Stmt>
    requires forall i :: 0 <= i < |blocks| ==> (owner decreases to blocks[i])
    decreases owner, 1, |blocks|
  {
    if blocks == [] then [] else Reachable(blocks[0]) + AllReachable(owner, blocks[1..])
  }
}
