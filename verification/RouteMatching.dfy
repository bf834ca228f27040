/** Matching frontend calls against backend routes: a path is compared by its
    shape, from source text on the one side and controller paths on the other. */
module RouteMatching {
  import opened Prelude
  import opened RoutePaths

  // ---------- written paths ----------

  /** A character of a written path, or a braced parameter with whatever stands
      between the braces (`name`, `name:uuid`, `*`). */
  datatype Bit = Sign(c: char) | Braced(inner: string)

  /** One segment as written: text, parameters or a mixture. An empty segment is what
      a trailing or a doubled slash leaves. */
  type Spelled = seq<Bit>

  predicate Free(s: string, forbidden: string) {
    forall i :: 0 <= i < |s| ==> s[i] !in forbidden
  }

  predicate ValidBit(b: Bit) {
    match b
    case Sign(c) => c != '/' && c != '{'
    case Braced(inner) => Free(inner, "/}")
  }

  predicate ValidSpelled(one: Spelled) {
    forall i :: 0 <= i < |one| ==> ValidBit(one[i])
  }

  predicate AllValid(path: seq<Spelled>) {
    forall i :: 0 <= i < |path| ==> ValidSpelled(path[i])
  }

  function SpellBit(b: Bit): string {
    match b
    case Sign(c) => [c]
    case Braced(inner) => "{" + inner + "}"
  }

  function SpellOne(one: Spelled): string {
    if one == [] then "" else SpellBit(one[0]) + SpellOne(one[1..])
  }

  function Spell(path: seq<Spelled>): string {
    if path == [] then "" else "/" + (SpellOne(path[0]) + Spell(path[1..]))
  }

  // ---------- shapes ----------

  /** A written path with the insides of its parameters forgotten. */
  datatype Slot = Fixed(c: char) | Param

  type Segment = seq<Slot>

  function SlotOf(b: Bit): Slot {
    if b.Sign? then Fixed(b.c) else Param
  }

  function SegmentOf(one: Spelled): Segment {
    seq(|one|, i requires 0 <= i < |one| => SlotOf(one[i]))
  }

  function ShapeOf(path: seq<Spelled>): seq<Segment> {
    seq(|path|, i requires 0 <= i < |path| => SegmentOf(path[i]))
  }

  predicate ValidSegment(s: Segment) {
    forall i :: 0 <= i < |s| && s[i].Fixed? ==> s[i].c != '/' && s[i].c != '{'
  }

  predicate ValidShape(shape: seq<Segment>) {
    forall i :: 0 <= i < |shape| ==> ValidSegment(shape[i])
  }

  function KeySlot(s: Slot): string {
    if s.Fixed? then [s.c] else "{*}"
  }

  function KeyOne(s: Segment): string {
    if s == [] then "" else KeySlot(s[0]) + KeyOne(s[1..])
  }

  /** The comparison key of a shape. */
  function Key(shape: seq<Segment>): string {
    if shape == [] then "" else "/" + (KeyOne(shape[0]) + Key(shape[1..]))
  }

  lemma ShapeIsValid(path: seq<Spelled>)
    requires AllValid(path)
    ensures ValidShape(ShapeOf(path))
  {
    forall i | 0 <= i < |path| ensures ValidSegment(ShapeOf(path)[i]) {
      assert ValidSpelled(path[i]);
      forall k | 0 <= k < |path[i]| && SlotOf(path[i][k]).Fixed? ensures path[i][k].c != '/' && path[i][k].c != '{' {
        assert ValidBit(path[i][k]);
      }
    }
  }

  // ---------- every path is written so ----------

  /** Every brace closes, before the next slash. */
  predicate WellBraced(s: string) {
    s == ""
    || (if s[0] != '{' then WellBraced(s[1..])
        else match Find(s, '}')
          case None => false
          case Some(k) => Free(s[1..k], "/") && WellBraced(s[k + 1..]))
  }

  lemma BraceSplits(s: string, k: nat)
    requires s != "" && s[0] == '{' && IsFirst(s, '}', k) && Free(s[1..k], "/")
    ensures s == SpellBit(Braced(s[1..k])) + s[k + 1..] && ValidBit(Braced(s[1..k]))
  {
  }

  /** A text is what is left of a segment, then further segments. */
  lemma {:induction false} TextIsWritten(s: string) returns (one: Spelled, path: seq<Spelled>)
    requires WellBraced(s)
    ensures ValidSpelled(one) && AllValid(path) && s == SpellOne(one) + Spell(path)
  {
    if s == "" {
      one, path := [], [];
    } else if s[0] != '{' {
      one, path := TextIsWritten(s[1..]);
      assert s == [s[0]] + s[1..];
      if s[0] == '/' {
        one, path := [], [one] + path;
      } else {
        LongerSegment(Sign(s[0]), one, Spell(path));
        one := [Sign(s[0])] + one;
      }
    } else {
      var k := Find(s, '}').value;
      BraceSplits(s, k);
      one, path := TextIsWritten(s[k + 1..]);
      LongerSegment(Braced(s[1..k]), one, Spell(path));
      one := [Braced(s[1..k])] + one;
    }
  }

  lemma LongerSegment(b: Bit, one: Spelled, rest: string)
    ensures SpellOne([b] + one) + rest == SpellBit(b) + (SpellOne(one) + rest)
  {
    assert ([b] + one)[1..] == one;
    Assoc(SpellBit(b), SpellOne(one), rest);
  }

  /** Every path that begins with a slash, and whose braces close before the next
      slash, is the spelling of some segments. */
  lemma PathIsWritten(s: string) returns (path: seq<Spelled>)
    requires WellBraced(s) && (s == "" || s[0] == '/')
    ensures AllValid(path) && Spell(path) == s
  {
    if s == "" {
      path := [];
    } else {
      var one, rest := TextIsWritten(s[1..]);
      path := [one] + rest;
      assert s == "/" + s[1..];
    }
  }

  // ---------- a spelling collapses to the key of its shape ----------

  lemma BitCollapses(b: Bit, rest: string)
    requires ValidBit(b)
    ensures Collapse(SpellBit(b) + rest) == KeySlot(SlotOf(b)) + Collapse(rest)
  {
    match b
    case Sign(c) => PlainHead(c, rest);
    case Braced(inner) => CollapseBraced(inner, rest);
  }

  lemma {:induction false} SegmentCollapses(one: Spelled, rest: string)
    requires ValidSpelled(one)
    ensures Collapse(SpellOne(one) + rest) == KeyOne(SegmentOf(one)) + Collapse(rest)
  {
    if one == [] {
      assert SpellOne(one) + rest == rest;
    } else {
      Assoc(SpellBit(one[0]), SpellOne(one[1..]), rest);
      BitCollapses(one[0], SpellOne(one[1..]) + rest);
      SegmentCollapses(one[1..], rest);
      KeyOneUnfolds(one);
      Assoc(KeySlot(SlotOf(one[0])), KeyOne(SegmentOf(one[1..])), Collapse(rest));
    }
  }

  lemma KeyOneUnfolds(one: Spelled)
    requires one != []
    ensures KeyOne(SegmentOf(one)) == KeySlot(SlotOf(one[0])) + KeyOne(SegmentOf(one[1..]))
  {
    assert SegmentOf(one)[1..] == SegmentOf(one[1..]);
  }

  lemma {:induction false} SpellingCollapses(path: seq<Spelled>)
    requires AllValid(path)
    ensures Collapse(Spell(path)) == Key(ShapeOf(path))
  {
    if path != [] {
      SpellingCollapses(path[1..]);
      PlainHead('/', SpellOne(path[0]) + Spell(path[1..]));
      SegmentCollapses(path[0], Spell(path[1..]));
      assert ShapeOf(path)[1..] == ShapeOf(path[1..]);
    }
  }

  // ---------- what the trim does to a written path ----------

  /** Without one trailing slash, unless the slash is all there is. */
  function Trimmed(path: seq<Spelled>): seq<Spelled> {
    if |path| > 1 && path[|path| - 1] == [] then path[..|path| - 1] else path
  }

  lemma {:induction false} SpellAppend(a: seq<Spelled>, b: seq<Spelled>)
    ensures Spell(a + b) == Spell(a) + Spell(b)
  {
    if a == [] {
      assert a + b == b;
    } else {
      SpellAppend(a[1..], b);
      Uncons(a, b);
      Assoc(SpellOne(a[0]), Spell(a[1..]), Spell(b));
      Assoc("/", SpellOne(a[0]) + Spell(a[1..]), Spell(b));
    }
  }

  lemma SpellSingle(one: Spelled)
    ensures Spell([one]) == "/" + SpellOne(one)
  {
    assert [one][1..] == [] && SpellOne(one) + "" == SpellOne(one);
  }

  lemma SpellLast(path: seq<Spelled>)
    requires path != []
    ensures Spell(path) == Spell(path[..|path| - 1]) + ("/" + SpellOne(path[|path| - 1]))
  {
    var k := |path| - 1;
    Unsnoc(path);
    SpellPush(path[..k], path[k]);
  }

  lemma SpellPush(path: seq<Spelled>, one: Spelled)
    ensures Spell(path + [one]) == Spell(path) + ("/" + SpellOne(one))
  {
    SpellAppend(path, [one]);
    SpellSingle(one);
  }

  lemma SpellStarts(path: seq<Spelled>)
    ensures Spell(path) == "" || Spell(path)[0] == '/'
    ensures Spell(path) == "" <==> path == []
  {
  }

  lemma {:induction false} SegmentEnds(one: Spelled)
    requires ValidSpelled(one)
    ensures !EndsWithSlash(SpellOne(one))
    ensures SpellOne(one) == "" <==> one == []
  {
    if one != [] {
      SegmentEnds(one[1..]);
      assert ValidBit(one[0]);
      if one[1..] == [] {
        assert SpellOne(one) == SpellBit(one[0]);
      }
    }
  }

  lemma {:induction false} SpelledSegmentIsFree(one: Spelled)
    requires ValidSpelled(one)
    ensures Free(SpellOne(one), "/")
  {
    if one != [] {
      SpelledSegmentIsFree(one[1..]);
      assert ValidBit(one[0]);
    }
  }

  lemma SpellingIsSlashedIff(path: seq<Spelled>)
    requires AllValid(path) && path != []
    ensures Slashed(Spell(path)) <==> |path| > 1 && path[|path| - 1] == []
    ensures path[|path| - 1] == [] ==> Spell(path)[..|Spell(path)| - 1] == Spell(path[..|path| - 1])
  {
    var k := |path| - 1;
    SpellLast(path);
    SegmentEnds(path[k]);
    SpellStarts(path[..k]);
  }

  /** Whatever its parameters are called and typed, a path normalises to the key of
      its shape, less one trailing slash. */
  lemma SpellingNormalises(path: seq<Spelled>)
    requires AllValid(path)
    ensures Normalised(Spell(path)) == Key(ShapeOf(Trimmed(path)))
  {
    NormalisedIs(Spell(path));
    if path != [] {
      SpellingIsSlashedIff(path);
    }
    SpellingCollapses(Trimmed(path));
  }

  // ---------- keys tell shapes apart ----------

  lemma SlashPosition(a: string, x: string)
    requires Free(a, "/") && (x == "" || x[0] == '/')
    ensures Find(a + x, '/') == if x == "" then None else Some(|a|)
  {
    if x != "" {
      forall j | 0 <= j < |a| ensures (a + x)[j] != '/' { assert (a + x)[j] == a[j]; }
      FindUnique(a + x, '/', |a|);
    } else {
      assert a + x == a;
    }
  }

  lemma PartsMatch(a: string, b: string, x: string, y: string)
    requires Free(a, "/") && Free(b, "/")
    requires (x == "" || x[0] == '/') && (y == "" || y[0] == '/')
    requires a + x == b + y
    ensures a == b && x == y
  {
    SlashPosition(a, x);
    SlashPosition(b, y);
    assert |a| + |x| == |a + x| == |b + y| == |b| + |y|;
    assert |a| == |b|;
    assert a == (a + x)[..|a|] && b == (b + y)[..|b|];
    assert x == (a + x)[|a|..] && y == (b + y)[|b|..];
  }

  lemma SameTail(head: string, a: string, b: string)
    requires head + a == head + b
    ensures a == b
  {
    assert a == (head + a)[|head|..] && b == (head + b)[|head|..];
  }

  lemma {:induction false} KeyOneIsFree(s: Segment)
    requires ValidSegment(s)
    ensures Free(KeyOne(s), "/")
  {
    if s != [] {
      KeyOneIsFree(s[1..]);
    }
  }

  lemma SlotsMatch(p: Slot, q: Slot, x: string, y: string)
    requires ValidSegment([p]) && ValidSegment([q]) && KeySlot(p) + x == KeySlot(q) + y
    ensures p == q && x == y
  {
    assert [p][0] == p && [q][0] == q;
    assert (KeySlot(p) + x)[0] == KeySlot(p)[0] && (KeySlot(q) + y)[0] == KeySlot(q)[0];
    assert p == q;
    SameTail(KeySlot(p), x, y);
  }

  lemma {:induction false} KeyOneIsInjective(a: Segment, b: Segment)
    requires ValidSegment(a) && ValidSegment(b) && KeyOne(a) == KeyOne(b)
    ensures a == b
  {
    if a != [] && b != [] {
      SlotsMatch(a[0], b[0], KeyOne(a[1..]), KeyOne(b[1..]));
      KeyOneIsInjective(a[1..], b[1..]);
      assert a == [a[0]] + a[1..] && b == [b[0]] + b[1..];
    }
  }

  lemma KeyStarts(shape: seq<Segment>)
    ensures Key(shape) == "" || Key(shape)[0] == '/'
    ensures Key(shape) == "" <==> shape == []
  {
  }

  lemma KeyStep(a: seq<Segment>, b: seq<Segment>)
    requires a != [] && b != [] && ValidSegment(a[0]) && ValidSegment(b[0]) && Key(a) == Key(b)
    ensures a[0] == b[0] && Key(a[1..]) == Key(b[1..])
  {
    SameTail("/", KeyOne(a[0]) + Key(a[1..]), KeyOne(b[0]) + Key(b[1..]));
    KeyStarts(a[1..]);
    KeyStarts(b[1..]);
    KeyOneIsFree(a[0]);
    KeyOneIsFree(b[0]);
    PartsMatch(KeyOne(a[0]), KeyOne(b[0]), Key(a[1..]), Key(b[1..]));
    KeyOneIsInjective(a[0], b[0]);
  }

  /** Two shapes with the same key are the same shape. */
  lemma {:induction false} KeyIsInjective(a: seq<Segment>, b: seq<Segment>)
    requires ValidShape(a) && ValidShape(b) && Key(a) == Key(b)
    ensures a == b
  {
    KeyStarts(a);
    KeyStarts(b);
    if a != [] {
      KeyStep(a, b);
      KeyIsInjective(a[1..], b[1..]);
      assert a == [a[0]] + a[1..] && b == [b[0]] + b[1..];
    }
  }

  lemma SameKeyIffSameShape(a: seq<Spelled>, b: seq<Spelled>)
    requires AllValid(a) && AllValid(b)
    ensures Key(ShapeOf(a)) == Key(ShapeOf(b)) <==> ShapeOf(a) == ShapeOf(b)
  {
    ShapeIsValid(a);
    ShapeIsValid(b);
    if Key(ShapeOf(a)) == Key(ShapeOf(b)) {
      KeyIsInjective(ShapeOf(a), ShapeOf(b));
    }
  }

  /** Two spellings normalise to the same path if and only if, less a trailing slash,
      their shapes agree. */
  lemma SamePathIffSameShape(a: seq<Spelled>, b: seq<Spelled>)
    requires AllValid(a) && AllValid(b)
    ensures Normalised(Spell(a)) == Normalised(Spell(b)) <==> ShapeOf(Trimmed(a)) == ShapeOf(Trimmed(b))
  {
    SpellingNormalises(a);
    SpellingNormalises(b);
    SameKeyIffSameShape(Trimmed(a), Trimmed(b));
  }

  // ---------- backend side ----------

  /** The segments that are not empty. */
  function Kept(path: seq<Spelled>): (kept: seq<Spelled>)
    ensures forall i :: 0 <= i < |kept| ==> kept[i] != []
  {
    if path == [] then [] else (if path[0] == [] then [] else [path[0]]) + Kept(path[1..])
  }

  /** What a controller path amounts to: its segments, or the root. */
  function Routed(path: seq<Spelled>): seq<Spelled> {
    if Kept(path) == [] then [[]] else Kept(path)
  }

  /** Without its doubled slashes; a trailing one stays. */
  function Undoubled(path: seq<Spelled>): seq<Spelled> {
    if |path| <= 1 then path
    else (if path[0] == [] then [] else [path[0]]) + Undoubled(path[1..])
  }

  lemma {:induction false} UndoubledIsKept(path: seq<Spelled>)
    requires path != []
    ensures Undoubled(path) == Kept(path) + if path[|path| - 1] == [] then [[]] else []
  {
    if |path| == 1 {
      assert Kept(path[1..]) == [];
    } else {
      UndoubledIsKept(path[1..]);
    }
  }

  lemma {:induction false} KeptIsEmptyIff(path: seq<Spelled>, k: nat)
    requires k < |path| && path[k] != []
    ensures Kept(path) != []
  {
    if path[0] == [] {
      KeptIsEmptyIff(path[1..], k - 1);
    }
  }

  lemma UndoubledThenTrimmed(path: seq<Spelled>)
    requires path != []
    ensures Trimmed(Undoubled(path)) == Routed(path)
  {
    UndoubledIsKept(path);
    if path[|path| - 1] != [] {
      KeptIsEmptyIff(path, |path| - 1);
    }
  }

  lemma {:induction false} SqueezedText(text: string, rest: string)
    requires Free(text, "/")
    ensures Squeezed(text + rest) == text + Squeezed(rest)
  {
    if text == "" {
      assert text + rest == rest;
    } else {
      Uncons(text, rest);
      SqueezedText(text[1..], rest);
      Assoc([text[0]], text[1..], Squeezed(rest));
      assert text == [text[0]] + text[1..];
    }
  }

  lemma SqueezedSlash(rest: string)
    ensures Squeezed("/" + rest) == if rest != "" && rest[0] == '/' then Squeezed(rest) else "/" + Squeezed(rest)
  {
    assert ("/" + rest)[1..] == rest;
  }

  /** Squeezing a written path undoubles its slashes. */
  lemma {:induction false} SqueezedSpelling(path: seq<Spelled>)
    requires AllValid(path)
    ensures Squeezed(Spell(path)) == Spell(Undoubled(path))
  {
    if path != [] {
      var one, rest := SpellOne(path[0]), Spell(path[1..]);
      SqueezedSpelling(path[1..]);
      SqueezedSlash(one + rest);
      SpelledSegmentIsFree(path[0]);
      SqueezedText(one, rest);
      SegmentEnds(path[0]);
      SpellStarts(path[1..]);
      UndoubledHead(path);
    }
  }

  lemma UndoubledHead(path: seq<Spelled>)
    requires path != []
    ensures path[0] == [] && |path| > 1 ==> Undoubled(path) == Undoubled(path[1..])
    ensures path[0] != [] || |path| == 1 ==>
              Spell(Undoubled(path)) == "/" + (SpellOne(path[0]) + Spell(Undoubled(path[1..])))
  {
    if |path| > 1 && path[0] != [] {
      assert Undoubled(path)[1..] == Undoubled(path[1..]);
    }
  }

  lemma {:induction false} SqueezedBehind(prefix: string, s: string)
    requires !HasDoubleSlash(prefix) && !EndsWithSlash(prefix)
    ensures Squeezed(prefix + s) == prefix + Squeezed(s)
  {
    if prefix == "" {
      assert prefix + s == s;
    } else {
      Uncons(prefix, s);
      assert !PairAt(prefix, 0);
      assert !HasDoubleSlash(prefix[1..]) by {
        forall i | 0 <= i < |prefix[1..]| ensures !PairAt(prefix[1..], i) {
          assert !PairAt(prefix, i + 1);
        }
      }
      SqueezedBehind(prefix[1..], s);
      Assoc([prefix[0]], prefix[1..], Squeezed(s));
      assert prefix == [prefix[0]] + prefix[1..];
    }
  }

  /** How a controller is mounted: below the API prefix, or at the application root. */
  function Mount(underApi: bool): string {
    if underApi then API_PREFIX else ""
  }

  /** The path the backend side records for what stands behind the mount. */
  function Recorded(underApi: bool, local: string): string {
    Normalised(StripPrefix(Squeezed(Rooted(Mount(underApi) + local)), Mount(underApi), underApi))
  }

  lemma PrefixIsClean()
    ensures !HasDoubleSlash(API_PREFIX) && !EndsWithSlash(API_PREFIX)
  {
  }

  lemma StrippedSpelling(underApi: bool, written: seq<Spelled>)
    requires AllValid(written)
    ensures StripPrefix(Squeezed(Rooted(Mount(underApi) + Spell(written))), Mount(underApi), underApi)
         == Spell(if written == [] then [[]] else Undoubled(written))
  {
    SqueezedSpelling(written);
    SpellStarts(written);
    SpellSingle([]);
    if underApi {
      PrefixIsClean();
      SqueezedBehind(API_PREFIX, Spell(written));
      assert (API_PREFIX + Spell(Undoubled(written)))[|API_PREFIX|..] == Spell(Undoubled(written));
      SpellStarts(Undoubled(written));
      if written != [] {
        UndoubledIsKept(written);
        UndoubledThenTrimmed(written);
      }
    } else {
      assert "" + Spell(written) == Spell(written);
      assert Squeezed("/") == "/" by { SqueezedSlash(""); assert "/" + "" == "/"; }
    }
  }

  /** A written controller path is recorded under the shape of its segments, whatever
      slashes it doubles or ends in, and the root under a single slash. */
  lemma RecordedIsRouted(underApi: bool, written: seq<Spelled>)
    requires AllValid(written)
    ensures Recorded(underApi, Spell(written)) == Key(ShapeOf(Routed(written)))
  {
    StrippedSpelling(underApi, written);
    var path: seq<Spelled> := if written == [] then [[]] else Undoubled(written);
    if written != [] {
      UndoubledThenTrimmed(written);
      UndoubledIsValid(written);
    }
    SpellingNormalises(path);
  }

  lemma {:induction false} UndoubledIsValid(path: seq<Spelled>)
    requires AllValid(path)
    ensures AllValid(Undoubled(path)) && AllValid(Routed(path))
  {
    if path != [] {
      UndoubledIsValid(path[1..]);
    }
  }

  /** However a controller path is split between class and decorator. */
  method BackendRoute(httpMethod: string, classPath: string, decoPath: string, underApi: bool, ghost written: seq<Spelled>)
    returns (route: RouteRecord)
    requires AllValid(written) && classPath + decoPath == Spell(written)
    ensures route == RouteRecord(httpMethod, Key(ShapeOf(Routed(written))))
  {
    var prefix := Mount(underApi);
    route := RouteFromParts(httpMethod, prefix, classPath, decoPath, underApi);
    Assoc(prefix, classPath, decoPath);
    RecordedIsRouted(underApi, written);
  }

  lemma HeadStays(s: string)
    requires s != "" && s[0] != '/'
    ensures Squeezed(s) != "" && Squeezed(s)[0] == s[0]
    ensures Normalised(s) != "" && Normalised(s)[0] != '/'
  {
    NormalisedIs(s);
  }

  /** A class path without its slash is glued to the API prefix, and recorded under a
      path that no frontend call has. */
  lemma GluedPathIsUnreachable(local: string)
    requires local != "" && local[0] != '/'
    ensures Recorded(true, local) != "" && Recorded(true, local)[0] != '/'
  {
    PrefixIsClean();
    SqueezedBehind(API_PREFIX, local);
    HeadStays(local);
    assert (API_PREFIX + Squeezed(local))[|API_PREFIX|..] == Squeezed(local);
    HeadStays(Squeezed(local));
  }

  // ---------- comparison ----------

  /** A high-severity finding: a call no backend route answers. */
  predicate IsDead(call: CallSite, routes: seq<RouteRecord>) {
    !call.suppressed && forall j :: 0 <= j < |routes| ==> !(routes[j].httpMethod == call.httpMethod && routes[j].path == call.path)
  }

  predicate IsOrphan(route: RouteRecord, calls: seq<CallSite>) {
    forall j :: 0 <= j < |calls| ==> !(calls[j].httpMethod == route.httpMethod && calls[j].path == route.path)
  }

  function DeadCalls(calls: seq<CallSite>, routes: seq<RouteRecord>): seq<CallSite> {
    if calls == [] then []
    else
      var k := |calls| - 1;
      DeadCalls(calls[..k], routes) + if IsDead(calls[k], routes) then [calls[k]] else []
  }

  function Orphans(routes: seq<RouteRecord>, calls: seq<CallSite>): seq<RouteRecord> {
    if routes == [] then []
    else
      var k := |routes| - 1;
      Orphans(routes[..k], calls) + if IsOrphan(routes[k], calls) then [routes[k]] else []
  }

  /** The two buckets, before they are sorted for the report. */
  method Compare(routes: seq<RouteRecord>, calls: seq<CallSite>) returns (high: seq<CallSite>, info: seq<RouteRecord>)
    ensures high == DeadCalls(calls, routes) && info == Orphans(routes, calls)
  {
    var backendKeys := set i | 0 <= i < |routes| :: (routes[i].httpMethod, routes[i].path);
    var frontendKeys := set i | 0 <= i < |calls| :: (calls[i].httpMethod, calls[i].path);
    high, info := [], [];
    for i := 0 to |calls|
      invariant high == DeadCalls(calls[..i], routes)
    {
      assert calls[..i + 1][..i] == calls[..i];
      var call := calls[i];
      if !call.suppressed && (call.httpMethod, call.path) !in backendKeys {
        assert IsDead(call, routes);
        high := high + [call];
      }
    }
    assert calls[..|calls|] == calls;
    for i := 0 to |routes|
      invariant info == Orphans(routes[..i], calls)
    {
      assert routes[..i + 1][..i] == routes[..i];
      var route := routes[i];
      if (route.httpMethod, route.path) !in frontendKeys {
        assert IsOrphan(route, calls);
        info := info + [route];
      }
    }
    assert routes[..|routes|] == routes;
  }

  lemma {:induction false} DeadCallsAreDead(calls: seq<CallSite>, routes: seq<RouteRecord>, call: CallSite)
    ensures call in DeadCalls(calls, routes) <==> call in calls && IsDead(call, routes)
  {
    if calls != [] {
      var k := |calls| - 1;
      DeadCallsAreDead(calls[..k], routes, call);
      assert calls == calls[..k] + [calls[k]];
    }
  }

  datatype Endpoint = Endpoint(httpMethod: string, path: seq<Spelled>)

  /** An unsuppressed call is reported exactly when no route has its method and, less
      a trailing slash, its shape. */
  lemma ReportedIffNoRouteOfShape(calls: seq<CallSite>, routes: seq<RouteRecord>, served: seq<Endpoint>, called: Endpoint)
    requires |served| == |routes| && AllValid(called.path)
    requires forall j :: 0 <= j < |served| ==> AllValid(served[j].path)
    requires forall j :: 0 <= j < |served| ==>
               routes[j] == RouteRecord(served[j].httpMethod, Normalised(Spell(served[j].path)))
    requires CallSite(called.httpMethod, Normalised(Spell(called.path)), false) in calls
    ensures CallSite(called.httpMethod, Normalised(Spell(called.path)), false) in DeadCalls(calls, routes) <==>
            forall j :: 0 <= j < |served| ==>
              !(served[j].httpMethod == called.httpMethod && ShapeOf(Trimmed(served[j].path)) == ShapeOf(Trimmed(called.path)))
  {
    var call := CallSite(called.httpMethod, Normalised(Spell(called.path)), false);
    DeadCallsAreDead(calls, routes, call);
    forall j | 0 <= j < |served|
      ensures routes[j].path == call.path <==> ShapeOf(Trimmed(served[j].path)) == ShapeOf(Trimmed(called.path))
    {
      SamePathIffSameShape(served[j].path, called.path);
    }
  }
}
