/** From the text of a frontend call to the path recorded for it
    (`scripts/_dead_api_endpoints_frontend.py`). The recogniser of `${...}`
    expressions is a parameter. */
module FrontendCalls {
  import opened Prelude
  import opened CallScanner
  import opened RoutePaths

  // ---------- template literals ----------

  /** How one character moves the hole scanner: brace depth, string state, advance. */
  function HoleStep(ch: char, depth: nat, quote: Quote): (int, Quote, nat) {
    if quote != Plain then
      var mark := if quote == Single then '\'' else if quote == Double then '\"' else '`';
      if ch == mark then (depth, Plain, 1) else if ch == '\\' then (depth, quote, 2) else (depth, quote, 1)
    else if ch == '{' then (depth + 1, Plain, 1)
    else if ch == '}' then (depth - 1, Plain, 1)
    else (depth, if ch == '\'' then Single else if ch == '\"' then Double else if ch == '`' then Backtick else Plain, 1)
  }

  /** The closing brace of a `${` hole, found by tracking nested braces and strings. */
  function TemplateEnd(body: string, i: nat, depth: nat, quote: Quote): (end: Option<nat>)
    requires depth > 0
    ensures end.Some? ==> i <= end.value < |body| && body[end.value] == '}'
    decreases |body| - i
  {
    if i >= |body| then None
    else
      var (deep, quoted, width) := HoleStep(body[i], depth, quote);
      if deep <= 0 then Some(i) else TemplateEnd(body, i + width, deep, quoted)
  }

  method FindTemplateEnd(body: string, start: nat) returns (end: Option<nat>)
    ensures end == TemplateEnd(body, start, 1, Plain)
  {
    var depth, i, quote := 1, start, Plain;
    while i < |body|
      invariant depth > 0
      invariant TemplateEnd(body, start, 1, Plain) == TemplateEnd(body, i, depth, quote)
      decreases |body| - i
    {
      var ch := body[i];
      if quote != Plain {
        var mark := if quote == Single then '\'' else if quote == Double then '\"' else '`';
        if ch == mark {
          quote := Plain;
        } else if ch == '\\' {
          i := i + 2;
          continue;
        }
      } else if ch == '{' {
        depth := depth + 1;
      } else if ch == '}' {
        depth := depth - 1;
        if depth == 0 {
          return Some(i);
        }
      } else if ch == '\'' {
        quote := Single;
      } else if ch == '\"' {
        quote := Double;
      } else if ch == '`' {
        quote := Backtick;
      }
      i := i + 1;
    }
    return None;
  }

  predicate OpensHole(body: string, i: nat) {
    i + 1 < |body| && body[i] == '$' && body[i + 1] == '{'
  }

  /** What position `i` contributes to the path, and where resolution goes on;
      `None` for a hole that never closes. */
  function ResolveStep(body: string, i: nat, substitute: string -> string): (step: Option<(string, nat)>)
    requires i < |body|
    ensures step.Some? ==> i < step.value.1
  {
    if !OpensHole(body, i) then Some(([body[i]], i + 1))
    else
      var close := TemplateEnd(body, i + 2, 1, Plain);
      if close.None? then None else Some((substitute(Strip(body[i + 2..close.value])), close.value + 1))
  }

  function ResolveBody(body: string, i: nat, substitute: string -> string): Option<string>
    decreases |body| - i
  {
    if i >= |body| then Some("")
    else
      var step := ResolveStep(body, i, substitute);
      if step.None? then None else Prepend(step.value.0, ResolveBody(body, step.value.1, substitute))
  }

  function Prepend(head: string, tail: Option<string>): Option<string> {
    if tail.None? then None else Some(head + tail.value)
  }

  lemma PrependLaws(a: string, b: string, tail: Option<string>)
    ensures Prepend("", tail) == tail
    ensures Prepend(a, Prepend(b, tail)) == Prepend(a + b, tail)
  {
    if tail.Some? {
      assert "" + tail.value == tail.value;
      assert a + (b + tail.value) == a + b + tail.value;
    }
  }

  /** A string or template literal as a path; anything else has no static path. */
  function ResolveLiteral(text: string, substitute: string -> string): Option<string> {
    var expr := Strip(text);
    if expr == "" then None
    else if (expr[0] == '\'' || expr[0] == '\"') && expr[0] == expr[|expr| - 1] && |expr| >= 2 then Some(expr[1..|expr| - 1])
    else if expr[0] == '`' && expr[|expr| - 1] == '`' then ResolveBody(TemplateBody(expr), 0, substitute)
    else None
  }

  function TemplateBody(expr: string): string {
    if |expr| < 2 then "" else expr[1..|expr| - 1]
  }

  method ResolveTemplateLiteral(text: string, substitute: string -> string) returns (path: Option<string>)
    ensures path == ResolveLiteral(text, substitute)
  {
    var expr := Strip(text);
    if expr == "" {
      return None;
    }
    if (expr[0] == '\'' || expr[0] == '\"') && expr[0] == expr[|expr| - 1] && |expr| >= 2 {
      return Some(expr[1..|expr| - 1]);
    }
    if !(expr[0] == '`' && expr[|expr| - 1] == '`') {
      return None;
    }
    path := ResolveHoles(TemplateBody(expr), substitute);
  }

  method ResolveHoles(body: string, substitute: string -> string) returns (path: Option<string>)
    ensures path == ResolveBody(body, 0, substitute)
  {
    var out, i := "", 0;
    ghost var whole, left := ResolveBody(body, 0, substitute), ResolveBody(body, 0, substitute);
    PrependLaws("", "", whole);
    while i < |body|
      invariant whole == Prepend(out, left) && left == ResolveBody(body, i, substitute)
      decreases |body| - i
    {
      var token := [body[i]];
      var next := i + 1;
      if body[i] == '$' && i + 1 < |body| && body[i + 1] == '{' {
        var close := FindTemplateEnd(body, i + 2);
        if close.None? {
          return None;
        }
        token, next := substitute(Strip(body[i + 2..close.value])), close.value + 1;
      }
      assert ResolveStep(body, i, substitute) == Some((token, next));
      left := ResolveBody(body, next, substitute);
      PrependLaws(out, token, left);
      out, i := out + token, next;
    }
    assert out + "" == out;
    path := Some(out);
  }

  // ---------- the recorded path ----------

  function RecordedPath(text: string, parenIdx: nat, substitute: string -> string): Option<string> {
    match FirstArgument(text, parenIdx)
    case None => None
    case Some((expr, _)) =>
      match ResolveLiteral(expr, substitute)
      case None => None
      case Some(resolved) =>
        if resolved == "" || resolved[0] != '/' then None else Some(Normalised(AfterApiPrefix(resolved)))
  }

  method EmitRecord(text: string, parenIdx: nat, substitute: string -> string) returns (path: Option<string>)
    ensures path == RecordedPath(text, parenIdx, substitute)
  {
    var extracted := ExtractUrlExpression(text, parenIdx);
    if extracted.None? {
      return None;
    }
    var resolved := ResolveTemplateLiteral(extracted.value.0, substitute);
    if resolved.None? || resolved.value == "" || resolved.value[0] != '/' {
      return None;
    }
    var normal := NormalisePath(AfterApiPrefix(resolved.value));
    path := Some(normal);
  }
}
