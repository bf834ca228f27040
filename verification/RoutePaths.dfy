/** Path normalisation and path composition of the dead-endpoint gate
    (`scripts/_dead_api_endpoints_models.py`, `_dead_api_endpoints_backend.py`). */
module RoutePaths {
  import opened Prelude

  // ---------- string search ----------

  /** `k` is the first position of `c` in `s`. */
  predicate IsFirst(s: string, c: char, k: nat) {
    k < |s| && s[k] == c && forall j :: 0 <= j < k ==> s[j] != c
  }

  function Find(s: string, c: char): (at: Option<nat>)
    ensures at.Some? ==> IsFirst(s, c, at.value)
    ensures at.None? ==> forall j :: 0 <= j < |s| ==> s[j] != c
  {
    FindFrom(s, c, 0)
  }

  function FindFrom(s: string, c: char, from: nat): (at: Option<nat>)
    requires forall j :: 0 <= j < from && j < |s| ==> s[j] != c
    ensures at.Some? ==> IsFirst(s, c, at.value)
    ensures at.None? ==> forall j :: 0 <= j < |s| ==> s[j] != c
    decreases |s| - from
  {
    if from >= |s| then None else if s[from] == c then Some(from) else FindFrom(s, c, from + 1)
  }

  lemma FindUnique(s: string, c: char, k: nat)
    requires IsFirst(s, c, k)
    ensures Find(s, c) == Some(k)
  {
  }

  // ---------- the two passes ----------

  const TYPED_PARAM_TYPES: set<string> :=
    {"str", "int", "uuid", "float", "path", "decimal", "date", "time", "datetime", "timedelta"}

  /** Drops a known type suffix from one parameter. */
  function NormaliseParamName(raw: string): (name: string)
    ensures name <= raw
  {
    match Find(raw, ':')
    case None => raw
    case Some(k) => if raw[k + 1..] in TYPED_PARAM_TYPES then raw[..k] else raw
  }

  /** A known type goes with the first colon; a name without a colon, or with an
      unknown suffix, stays as it is. */
  lemma TypeSuffixIsDropped(name: string, suffix: string)
    requires forall j :: 0 <= j < |name| ==> name[j] != ':'
    ensures NormaliseParamName(name) == name
    ensures NormaliseParamName(name + ":" + suffix) == if suffix in TYPED_PARAM_TYPES then name else name + ":" + suffix
  {
    var raw := name + ":" + suffix;
    FindUnique(raw, ':', |name|);
    assert raw[|name| + 1..] == suffix && raw[..|name|] == name;
  }

  /** Where the character or `{...}` token at the head of `rest` ends; an
      unterminated brace takes everything. */
  function HeadEnd(rest: string): (end: nat)
    requires rest != ""
    ensures 0 < end <= |rest|
  {
    if rest[0] != '{' then 1
    else match Find(rest, '}')
      case None => |rest|
      case Some(k) => k + 1
  }

  function RenamedHead(rest: string): string
    requires rest != ""
  {
    if rest[0] != '{' then [rest[0]]
    else match Find(rest, '}')
      case None => rest
      case Some(k) => "{" + NormaliseParamName(rest[1..k]) + "}"
  }

  function CollapsedHead(rest: string): (head: string)
    requires rest != ""
    ensures head != ""
  {
    if rest[0] != '{' then [rest[0]] else if Find(rest, '}').None? then rest else "{*}"
  }

  function RenameParams(path: string): string {
    if path == "" then "" else RenamedHead(path) + RenameParams(path[HeadEnd(path)..])
  }

  function Collapse(path: string): string {
    if path == "" then "" else CollapsedHead(path) + Collapse(path[HeadEnd(path)..])
  }

  predicate EndsWithSlash(s: string) {
    s != "" && s[|s| - 1] == '/'
  }

  function TrimSlash(s: string): string {
    if |s| > 1 && EndsWithSlash(s) then s[..|s| - 1] else s
  }

  /** One collapse and one trim: what the two passes amount to. */
  function Normalised(path: string): string {
    TrimSlash(Collapse(path))
  }

  lemma TokenCloses(inner: string, rest: string)
    requires forall j :: 0 <= j < |inner| ==> inner[j] != '}'
    ensures Find("{" + inner + "}" + rest, '}') == Some(|inner| + 1)
  {
    var s := "{" + inner + "}" + rest;
    forall j | 0 <= j < |inner| + 1 ensures s[j] != '}' {
      assert j > 0 ==> s[j] == inner[j - 1];
    }
    FindUnique(s, '}', |inner| + 1);
  }

  /** Renaming first changes nothing: a shortened name closes at the same brace. */
  lemma {:induction false} RenamingIsAbsorbed(path: string)
    ensures Collapse(RenameParams(path)) == Collapse(path)
  {
    if path != "" {
      var rest := path[HeadEnd(path)..];
      var head, tail := RenamedHead(path), RenameParams(rest);
      RenamingIsAbsorbed(rest);
      if path[0] == '{' && Find(path, '}').Some? {
        RenamedTokenCloses(path, tail);
      } else if path[0] == '{' {
        assert tail == "" && head + tail == path;
      }
      assert (head + tail)[|head|..] == tail;
    }
  }

  lemma RenamedTokenCloses(path: string, tail: string)
    requires path != "" && path[0] == '{' && Find(path, '}').Some?
    ensures RenamedHead(path)[0] == '{'
    ensures Find(RenamedHead(path) + tail, '}') == Some(|RenamedHead(path)| - 1)
  {
    var k := Find(path, '}').value;
    var name := NormaliseParamName(path[1..k]);
    forall j | 0 <= j < |name| ensures name[j] != '}' {
      assert name[j] == path[j + 1];
    }
    TokenCloses(name, tail);
  }

  method NormalisePath(path: string) returns (final: string)
    ensures final == Normalised(path)
  {
    var renamed := RenamePass(path);
    var collapsed := CollapsePass(renamed);
    RenamingIsAbsorbed(path);
    final := collapsed;
    if |final| > 1 && final[|final| - 1] == '/' {
      final := final[..|final| - 1];
    }
  }

  lemma RenameStep(path: string, i: nat)
    requires i < |path|
    ensures RenameParams(path[i..]) == RenamedHead(path[i..]) + RenameParams(path[i + HeadEnd(path[i..])..])
  {
    var rest := path[i..];
    assert rest[HeadEnd(rest)..] == path[i + HeadEnd(rest)..];
  }

  lemma CollapseStep(path: string, i: nat)
    requires i < |path|
    ensures Collapse(path[i..]) == CollapsedHead(path[i..]) + Collapse(path[i + HeadEnd(path[i..])..])
  {
  }

  method RenamePass(path: string) returns (out: string)
    ensures out == RenameParams(path)
  {
    out := "";
    var i := 0;
    ghost var whole, left := RenameParams(path), RenameParams(path);
    assert path[0..] == path;
    while i < |path|
      invariant 0 <= i <= |path|
      invariant whole == out + left && left == RenameParams(path[i..])
    {
      RenameStep(path, i);
      var token, next := RenameOne(path, i);
      Assoc(out, token, RenameParams(path[next..]));
      out := out + token;
      i := next;
      left := RenameParams(path[i..]);
    }
  }

  /** One round of the renaming loop. */
  method RenameOne(path: string, i: nat) returns (token: string, next: nat)
    requires i < |path|
    ensures token == RenamedHead(path[i..]) && next == i + HeadEnd(path[i..])
  {
    ghost var rest := path[i..];
    if path[i] == '{' {
      var close := Find(path[i..], '}');
      if close.None? {
        return path[i..], |path|;
      }
      var inner := path[i + 1..i + close.value];
      assert inner == rest[1..close.value];
      return "{" + NormaliseParamName(inner) + "}", i + close.value + 1;
    }
    return [path[i]], i + 1;
  }

  method CollapsePass(path: string) returns (out: string)
    ensures out == Collapse(path)
  {
    out := "";
    var i := 0;
    ghost var whole, left := Collapse(path), Collapse(path);
    assert path[0..] == path;
    while i < |path|
      invariant 0 <= i <= |path|
      invariant whole == out + left && left == Collapse(path[i..])
    {
      CollapseStep(path, i);
      var token, next := CollapseOne(path, i);
      Assoc(out, token, Collapse(path[next..]));
      out := out + token;
      i := next;
      left := Collapse(path[i..]);
    }
  }

  /** One round of the collapsing loop. */
  method CollapseOne(path: string, i: nat) returns (token: string, next: nat)
    requires i < |path|
    ensures token == CollapsedHead(path[i..]) && next == i + HeadEnd(path[i..])
  {
    if path[i] == '{' {
      var close := Find(path[i..], '}');
      if close.None? {
        return path[i..], |path|;
      }
      return "{*}", i + close.value + 1;
    }
    return [path[i]], i + 1;
  }

  // ---------- when normalising twice is the same as once ----------

  lemma CollapseBraced(inner: string, rest: string)
    requires forall j :: 0 <= j < |inner| ==> inner[j] != '}'
    ensures Collapse("{" + inner + "}" + rest) == "{*}" + Collapse(rest)
  {
    var whole := "{" + inner + "}" + rest;
    TokenCloses(inner, rest);
    assert whole[|inner| + 2..] == rest;
  }

  lemma StarCloses(tail: string)
    ensures Find("{*}" + tail, '}') == Some(2)
  {
    TokenCloses("*", tail);
    assert "{*}" + tail == "{" + "*" + "}" + tail;
  }

  lemma {:induction false} CollapseIsIdempotent(path: string)
    ensures Collapse(Collapse(path)) == Collapse(path)
  {
    if path != "" {
      var rest := path[HeadEnd(path)..];
      var head, tail := CollapsedHead(path), Collapse(rest);
      CollapseIsIdempotent(rest);
      if head == "{*}" {
        StarCloses(tail);
      } else if path[0] == '{' {
        assert tail == "" && head + tail == path;
      }
      assert (head + tail)[|head|..] == tail;
    }
  }

  lemma SlashAtEnd(a: string, b: string)
    requires b != ""
    ensures EndsWithSlash(a + b) <==> EndsWithSlash(b)
    ensures (a + b)[..|a + b| - 1] == a + b[..|b| - 1]
  {
  }

  predicate LosesSlash(longer: string, shorter: string) {
    EndsWithSlash(longer) && shorter == longer[..|longer| - 1]
  }

  /** What dropping a trailing slash does to a collapsed path. */
  predicate SlashDrops(path: string) {
    path != "" && LosesSlash(Collapse(path), Collapse(path[..|path| - 1]))
  }

  lemma LosesBehind(head: string, longer: string, shorter: string)
    requires LosesSlash(longer, shorter)
    ensures LosesSlash(head + longer, head + shorter)
  {
    SlashAtEnd(head, longer);
  }

  lemma DropLast(a: string, b: string)
    requires b != ""
    ensures (a + b)[..|a + b| - 1] == a + b[..|b| - 1]
  {
  }

  lemma DropsBehind(token: string, head: string, rest: string)
    requires SlashDrops(rest) && Collapse(token + rest) == head + Collapse(rest)
    requires Collapse(token + rest[..|rest| - 1]) == head + Collapse(rest[..|rest| - 1])
    ensures SlashDrops(token + rest)
  {
    DropLast(token, rest);
    LosesBehind(head, Collapse(rest), Collapse(rest[..|rest| - 1]));
  }

  lemma PlainHead(c: char, rest: string)
    requires c != '{'
    ensures Collapse([c] + rest) == [c] + Collapse(rest)
  {
    assert ([c] + rest)[1..] == rest;
  }

  lemma DropsAfterCharacter(c: char, rest: string)
    requires c != '{' && SlashDrops(rest)
    ensures SlashDrops([c] + rest)
  {
    PlainHead(c, rest);
    PlainHead(c, rest[..|rest| - 1]);
    DropsBehind([c], [c], rest);
  }

  lemma DropsInUnclosedBrace(path: string)
    requires EndsWithSlash(path) && path[0] == '{' && Find(path, '}').None?
    ensures SlashDrops(path)
  {
    assert Find(path[..|path| - 1], '}').None?;
  }

  lemma DropsAfterToken(inner: string, rest: string)
    requires (forall j :: 0 <= j < |inner| ==> inner[j] != '}') && SlashDrops(rest)
    ensures SlashDrops("{" + inner + "}" + rest)
  {
    CollapseBraced(inner, rest);
    CollapseBraced(inner, rest[..|rest| - 1]);
    DropsBehind("{" + inner + "}", "{*}", rest);
  }

  lemma CharacterSplits(path: string)
    requires EndsWithSlash(path) && |path| > 1
    ensures path == [path[0]] + path[1..] && EndsWithSlash(path[1..])
  {
  }

  lemma TokenSplits(path: string, k: nat)
    requires EndsWithSlash(path) && path[0] == '{' && IsFirst(path, '}', k)
    ensures path == "{" + path[1..k] + "}" + path[k + 1..] && EndsWithSlash(path[k + 1..])
    ensures forall j :: 0 <= j < |path[1..k]| ==> path[1..k][j] != '}'
  {
  }

  /** A trailing slash is outside every token, so dropping it commutes with collapsing. */
  lemma {:induction false} DropSlashCommutes(path: string)
    requires EndsWithSlash(path)
    ensures SlashDrops(path)
    decreases |path|
  {
    if path[0] != '{' {
      if |path| > 1 {
        CharacterSplits(path);
        DropSlashCommutes(path[1..]);
        DropsAfterCharacter(path[0], path[1..]);
      }
    } else if Find(path, '}').None? {
      DropsInUnclosedBrace(path);
    } else {
      var k := Find(path, '}').value;
      TokenSplits(path, k);
      DropSlashCommutes(path[k + 1..]);
      DropsAfterToken(path[1..k], path[k + 1..]);
    }
  }

  lemma {:induction false} CollapseSize(path: string)
    ensures |path| <= 1 ==> Collapse(path) == path
    ensures |path| >= 2 ==> |Collapse(path)| >= 2
  {
  }

  lemma {:induction false} LastCharacter(path: string)
    requires path != ""
    ensures EndsWithSlash(path) <==> EndsWithSlash(Collapse(path))
  {
    var k := HeadEnd(path);
    var rest := path[k..];
    assert path == path[..k] + rest;
    if rest == "" {
      assert Collapse(path) == CollapsedHead(path);
    } else {
      LastCharacter(rest);
      CollapseSize(rest);
      SlashAtEnd(path[..k], rest);
      SlashAtEnd(CollapsedHead(path), Collapse(rest));
    }
  }

  predicate EndsWithTwoSlashes(s: string) {
    |s| > 2 && s[|s| - 2] == '/' && s[|s| - 1] == '/'
  }

  predicate Slashed(path: string) {
    |path| > 1 && EndsWithSlash(path)
  }

  lemma CollapseKeepsSlash(path: string)
    ensures Slashed(Collapse(path)) <==> Slashed(path)
  {
    CollapseSize(path);
    if path != "" {
      LastCharacter(path);
    }
  }

  /** The trim takes one slash off, before or after collapsing. */
  lemma NormalisedIs(path: string)
    ensures Normalised(path) == Collapse(if Slashed(path) then path[..|path| - 1] else path)
  {
    CollapseKeepsSlash(path);
    if Slashed(path) {
      DropSlashCommutes(path);
    }
  }

  /** Normalising is idempotent exactly on the paths that do not end in two slashes
      after something else. */
  lemma NormalisedTwiceIff(path: string)
    ensures Normalised(Normalised(path)) == Normalised(path) <==> !EndsWithTwoSlashes(path)
  {
    var short := if Slashed(path) then path[..|path| - 1] else path;
    NormalisedIs(path);
    CollapseIsIdempotent(short);
    CollapseKeepsSlash(short);
    assert Slashed(short) <==> EndsWithTwoSlashes(path);
  }

  // ---------- composing a backend path ----------

  predicate PairAt(s: string, i: int) {
    0 <= i < |s| - 1 && s[i] == '/' && s[i + 1] == '/'
  }

  predicate HasDoubleSlash(s: string) {
    exists i :: 0 <= i < |s| && PairAt(s, i)
  }

  /** Left to right, each non-overlapping pair of slashes becomes one. */
  function ReplacePairs(s: string): string {
    if s == "" then ""
    else if PairAt(s, 0) then "/" + ReplacePairs(s[2..])
    else [s[0]] + ReplacePairs(s[1..])
  }

  /** Every maximal run of slashes becomes one. */
  function Squeezed(s: string): string {
    if s == "" then ""
    else if PairAt(s, 0) then Squeezed(s[1..])
    else [s[0]] + Squeezed(s[1..])
  }

  lemma {:induction false} ReplacePairsSize(s: string)
    ensures |ReplacePairs(s)| <= |s|
    ensures HasDoubleSlash(s) ==> |ReplacePairs(s)| < |s|
    ensures s != "" ==> ReplacePairs(s) != "" && ReplacePairs(s)[0] == s[0]
  {
    if s == "" {
    } else if PairAt(s, 0) {
      ReplacePairsSize(s[2..]);
    } else {
      ReplacePairsSize(s[1..]);
      if HasDoubleSlash(s) {
        var i :| 0 <= i < |s| && PairAt(s, i);
        assert PairAt(s[1..], i - 1);
      }
    }
  }

  lemma {:induction false} ReplacingKeepsSqueezed(s: string)
    ensures Squeezed(ReplacePairs(s)) == Squeezed(s)
  {
    if s == "" {
    } else if PairAt(s, 0) {
      var rest := s[2..];
      ReplacingKeepsSqueezed(rest);
      ReplacePairsSize(rest);
      assert ("/" + ReplacePairs(rest))[1..] == ReplacePairs(rest);
      assert s[1..][1..] == rest;
    } else {
      var rest := s[1..];
      ReplacingKeepsSqueezed(rest);
      ReplacePairsSize(rest);
      assert ([s[0]] + ReplacePairs(rest))[1..] == ReplacePairs(rest);
    }
  }

  lemma {:induction false} SqueezedIsFixpoint(s: string)
    requires !HasDoubleSlash(s)
    ensures Squeezed(s) == s
  {
    if s != "" {
      assert !HasDoubleSlash(s[1..]) by {
        forall i | 0 <= i < |s[1..]| ensures !PairAt(s[1..], i) {
          assert !PairAt(s, i + 1);
        }
      }
      SqueezedIsFixpoint(s[1..]);
    }
  }

  function Rooted(s: string): string {
    if s == "" || s[0] != '/' then "/" + s else s
  }

  function StripPrefix(full: string, apiPrefix: string, strip: bool): string {
    if strip && apiPrefix != "" && apiPrefix <= full
    then if full[|apiPrefix|..] == "" then "/" else full[|apiPrefix|..]
    else full
  }

  /** `<prefix><class path><decorator path>`, squeezed, with the prefix stripped. */
  method JoinPaths(apiPrefix: string, classPath: string, decoPath: string, strip: bool) returns (joined: string)
    ensures joined == StripPrefix(Squeezed(Rooted(apiPrefix + classPath + decoPath)), apiPrefix, strip)
    ensures !HasDoubleSlash(joined)
  {
    var full := apiPrefix + classPath + decoPath;
    if full == "" || full[0] != '/' {
      full := "/" + full;
    }
    ghost var squeezed := Squeezed(full);
    while HasDoubleSlash(full)
      invariant Squeezed(full) == squeezed
      decreases |full|
    {
      ReplacingKeepsSqueezed(full);
      ReplacePairsSize(full);
      full := ReplacePairs(full);
    }
    SqueezedIsFixpoint(full);
    joined := full;
    if strip && apiPrefix != "" && apiPrefix <= full {
      joined := if full[|apiPrefix|..] == "" then "/" else full[|apiPrefix|..];
    }
    if joined != full && joined != "/" {
      forall i | 0 <= i < |joined| ensures !PairAt(joined, i) {
        assert !PairAt(full, |apiPrefix| + i);
      }
    }
  }

  // ---------- records ----------

  datatype RouteRecord = RouteRecord(httpMethod: string, path: string)

  datatype CallSite = CallSite(httpMethod: string, path: string, suppressed: bool)

  /** The validation every record constructor applies to its path. */
  predicate PathIsNormal(path: string) {
    path == Normalised(path)
  }

  lemma TwoSlashesAreDouble(s: string)
    ensures EndsWithTwoSlashes(s) ==> HasDoubleSlash(s)
  {
    if EndsWithTwoSlashes(s) {
      assert PairAt(s, |s| - 2);
    }
  }

  /** A record built from a composed backend path always passes validation. */
  method RouteFromParts(httpMethod: string, apiPrefix: string, classPath: string, decoPath: string, strip: bool)
    returns (route: RouteRecord)
    ensures PathIsNormal(route.path) && route.httpMethod == httpMethod
    ensures route.path == Normalised(StripPrefix(Squeezed(Rooted(apiPrefix + classPath + decoPath)), apiPrefix, strip))
  {
    var full := JoinPaths(apiPrefix, classPath, decoPath, strip);
    var path := NormalisePath(full);
    NormalisedTwiceIff(full);
    TwoSlashesAreDouble(full);
    route := RouteRecord(httpMethod, path);
  }

  const API_PREFIX := "/api/v1"

  function AfterApiPrefix(path: string): string {
    if API_PREFIX + "/" <= path then path[|API_PREFIX|..]
    else if path == API_PREFIX then "/"
    else path
  }

  /** Stripping twice differs from once exactly when the prefix is written twice. */
  lemma PrefixStrippedTwiceIff(path: string)
    ensures AfterApiPrefix(AfterApiPrefix(path)) == AfterApiPrefix(path) <==>
            !(API_PREFIX + API_PREFIX + "/" <= path || path == API_PREFIX + API_PREFIX)
  {
    var n := |API_PREFIX|;
    if API_PREFIX + "/" <= path {
      var rest := path[n..];
      assert path == API_PREFIX + rest by {
        assert path[..n] == (API_PREFIX + "/")[..n];
        assert path == path[..n] + path[n..];
      }
      assert API_PREFIX + API_PREFIX + "/" <= path <==> API_PREFIX + "/" <= rest by {
        assert API_PREFIX + API_PREFIX + "/" == API_PREFIX + (API_PREFIX + "/");
        assert |path| >= 2 * n + 1 ==> path[..2 * n + 1] == API_PREFIX + rest[..n + 1];
        if API_PREFIX + API_PREFIX + "/" <= path {
          assert rest[..n + 1] == path[..2 * n + 1][n..];
        }
      }
      assert path == API_PREFIX + API_PREFIX <==> rest == API_PREFIX;
      if API_PREFIX + "/" <= rest || rest == API_PREFIX {
        assert |AfterApiPrefix(rest)| < |rest|;
      }
    } else {
      DoublePrefixStartsWithPrefix(path);
    }
  }

  lemma DoublePrefixStartsWithPrefix(path: string)
    ensures API_PREFIX + API_PREFIX + "/" <= path || path == API_PREFIX + API_PREFIX ==> API_PREFIX + "/" <= path
  {
  }

  /** A frontend path, unlike a backend one, can be rejected by its own record. */
  lemma CallSitePathRejectedIff(resolved: string)
    ensures PathIsNormal(Normalised(AfterApiPrefix(resolved))) <==> !EndsWithTwoSlashes(AfterApiPrefix(resolved))
  {
    NormalisedTwiceIff(AfterApiPrefix(resolved));
  }
}
