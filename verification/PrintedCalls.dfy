/** Frontend calls as they are written, and what the gate records and reports for
    them: printed holes, templates and quoted paths, read back end to end. */
module PrintedCalls {
  import opened Prelude
  import opened CallScanner
  import opened RoutePaths
  import opened RouteMatching
  import opened FrontendCalls

  // ---------- printed holes ----------

  /** The expression in a `${...}` hole: characters, strings and templates with
      escapes, and nested braces. */
  datatype HolePiece =
    | Glyph(c: char)
    | Str(mark: char, chars: seq<QChar>)
    | Braces(inner: seq<HolePiece>)

  predicate IsMark(c: char) {
    c == '\'' || c == '\"' || c == '`'
  }

  predicate ValidHole(pieces: seq<HolePiece>)
    decreases pieces, 0
  {
    pieces == [] || (ValidHolePiece(pieces[0]) && ValidHole(pieces[1..]))
  }

  predicate ValidHolePiece(p: HolePiece)
    decreases p, 1
  {
    match p
    case Glyph(c) => !IsMark(c) && c != '{' && c != '}'
    case Str(mark, chars) => IsMark(mark) && forall k :: 0 <= k < |chars| ==> ValidQChar(chars[k], mark)
    case Braces(inner) => ValidHole(inner)
  }

  function PrintHole(pieces: seq<HolePiece>): string
    decreases pieces, 0
  {
    if pieces == [] then "" else PrintHolePiece(pieces[0]) + PrintHole(pieces[1..])
  }

  function PrintHolePiece(p: HolePiece): string
    decreases p, 1
  {
    match p
    case Glyph(c) => [c]
    case Str(mark, chars) => [mark] + PrintQChars(chars) + [mark]
    case Braces(inner) => "{" + PrintHole(inner) + "}"
  }

  function QuoteOf(mark: char): Quote
    requires IsMark(mark)
  {
    if mark == '\'' then Single else if mark == '\"' then Double else Backtick
  }

  /** A character inside a string keeps it open; an escape takes the next with it. */
  lemma InsideString(body: string, i: nat, mark: char, q: QChar, depth: nat)
    requires IsMark(mark) && depth > 0 && At(body, i, PrintQChar(q)) && ValidQChar(q, mark)
    ensures TemplateEnd(body, i, depth, QuoteOf(mark)) == TemplateEnd(body, i + |PrintQChar(q)|, depth, QuoteOf(mark))
  {
    AtFirst(body, i, PrintQChar(q));
  }

  lemma FirstQChar(body: string, i: nat, chars: seq<QChar>)
    requires chars != [] && At(body, i, PrintQChars(chars))
    ensures |PrintQChars(chars)| == |PrintQChar(chars[0])| + |PrintQChars(chars[1..])|
    ensures At(body, i, PrintQChar(chars[0])) && At(body, i + |PrintQChar(chars[0])|, PrintQChars(chars[1..]))
  {
    AtSplit(body, i, PrintQChar(chars[0]), PrintQChars(chars[1..]));
  }

  lemma {:induction false} SkipStr(body: string, i: nat, mark: char, chars: seq<QChar>, depth: nat)
    requires IsMark(mark) && depth > 0 && At(body, i, PrintQChars(chars))
    requires forall k :: 0 <= k < |chars| ==> ValidQChar(chars[k], mark)
    ensures TemplateEnd(body, i, depth, QuoteOf(mark)) == TemplateEnd(body, i + |PrintQChars(chars)|, depth, QuoteOf(mark))
    decreases |chars|
  {
    if chars != [] {
      FirstQChar(body, i, chars);
      InsideString(body, i, mark, chars[0], depth);
      SkipStr(body, i + |PrintQChar(chars[0])|, mark, chars[1..], depth);
    }
  }

  lemma {:induction false} SkipHolePieces(body: string, i: nat, pieces: seq<HolePiece>, depth: nat)
    requires depth > 0 && At(body, i, PrintHole(pieces)) && ValidHole(pieces)
    ensures TemplateEnd(body, i, depth, Plain) == TemplateEnd(body, i + |PrintHole(pieces)|, depth, Plain)
    decreases pieces, 0
  {
    if pieces != [] {
      AtSplit(body, i, PrintHolePiece(pieces[0]), PrintHole(pieces[1..]));
      SkipHolePiece(body, i, pieces[0], depth);
      SkipHolePieces(body, i + |PrintHolePiece(pieces[0])|, pieces[1..], depth);
    }
  }

  lemma {:induction false} SkipHolePiece(body: string, i: nat, p: HolePiece, depth: nat)
    requires depth > 0 && At(body, i, PrintHolePiece(p)) && ValidHolePiece(p)
    ensures TemplateEnd(body, i, depth, Plain) == TemplateEnd(body, i + |PrintHolePiece(p)|, depth, Plain)
    decreases p, 1
  {
    match p
    case Glyph(_) => AtFirst(body, i, PrintHolePiece(p));
    case Str(mark, chars) => SkipString(body, i, mark, chars, depth);
    case Braces(inner) => SkipBraces(body, i, inner, depth);
  }

  lemma SkipString(body: string, i: nat, mark: char, chars: seq<QChar>, depth: nat)
    requires depth > 0 && At(body, i, PrintHolePiece(Str(mark, chars))) && ValidHolePiece(Str(mark, chars))
    ensures TemplateEnd(body, i, depth, Plain) == TemplateEnd(body, i + |PrintQChars(chars)| + 2, depth, Plain)
  {
    AtEnclosed(body, i, [mark], PrintQChars(chars), [mark]);
    StringOpens(body, i, mark, depth);
    SkipStr(body, i + 1, mark, chars, depth);
    StringCloses(body, i + 1 + |PrintQChars(chars)|, mark, depth);
  }

  lemma StringOpens(body: string, i: nat, mark: char, depth: nat)
    requires i < |body| && body[i] == mark && IsMark(mark) && depth > 0
    ensures TemplateEnd(body, i, depth, Plain) == TemplateEnd(body, i + 1, depth, QuoteOf(mark))
  {
  }

  lemma StringCloses(body: string, i: nat, mark: char, depth: nat)
    requires i < |body| && body[i] == mark && IsMark(mark) && depth > 0
    ensures TemplateEnd(body, i, depth, QuoteOf(mark)) == TemplateEnd(body, i + 1, depth, Plain)
  {
  }

  lemma {:induction false} SkipBraces(body: string, i: nat, inner: seq<HolePiece>, depth: nat)
    requires depth > 0 && At(body, i, "{" + PrintHole(inner) + "}") && ValidHole(inner)
    ensures TemplateEnd(body, i, depth, Plain) == TemplateEnd(body, i + |PrintHole(inner)| + 2, depth, Plain)
    decreases inner, 2
  {
    AtEnclosed(body, i, "{", PrintHole(inner), "}");
    SkipHolePieces(body, i + 1, inner, depth + 1);
  }

  /** A printed hole ends exactly at its own closing brace, whatever braces, quotes and
      escapes its expression holds. */
  lemma HoleEnds(body: string, i: nat, pieces: seq<HolePiece>)
    requires At(body, i, PrintHole(pieces) + "}") && ValidHole(pieces)
    ensures TemplateEnd(body, i, 1, Plain) == Some(i + |PrintHole(pieces)|)
  {
    AtSplit(body, i, PrintHole(pieces), "}");
    SkipHolePieces(body, i, pieces, 1);
    AtFirst(body, i + |PrintHole(pieces)|, "}");
  }

  // ---------- printed URLs ----------

  /** A part of a template URL: text, or a hole whose expression stands for `shown`,
      which may be a parameter, a constant, a whole prefix, or nothing, as the base of
      the API is. Parts may meet anywhere, also inside a segment. */
  datatype UrlPart = UrlText(text: string) | UrlHole(expression: seq<HolePiece>, shown: string)

  predicate ValidPart(p: UrlPart, substitute: string -> string) {
    match p
    case UrlText(text) => Free(text, "`\\$")
    case UrlHole(e, shown) => ValidHole(e) && substitute(Strip(PrintHole(e))) == shown
  }

  predicate ValidUrl(url: seq<UrlPart>, substitute: string -> string) {
    url == [] || (ValidPart(url[0], substitute) && ValidUrl(url[1..], substitute))
  }

  function PrintPart(p: UrlPart): string {
    match p
    case UrlText(text) => text
    case UrlHole(e, _) => "${" + PrintHole(e) + "}"
  }

  function PrintUrl(url: seq<UrlPart>): string {
    if url == [] then "" else PrintPart(url[0]) + PrintUrl(url[1..])
  }

  function ShownPart(p: UrlPart): string {
    if p.UrlText? then p.text else p.shown
  }

  /** The URL with each hole replaced by what it stands for. */
  function Shown(url: seq<UrlPart>): string {
    if url == [] then "" else ShownPart(url[0]) + Shown(url[1..])
  }

  // ---------- resolving a printed URL ----------

  lemma ThenResolves(body: string, i: nat, a: string, j: nat, b: string, k: nat, substitute: string -> string)
    requires ResolveBody(body, i, substitute) == Prepend(a, ResolveBody(body, j, substitute))
    requires ResolveBody(body, j, substitute) == Prepend(b, ResolveBody(body, k, substitute))
    ensures ResolveBody(body, i, substitute) == Prepend(a + b, ResolveBody(body, k, substitute))
  {
    PrependLaws(a, b, ResolveBody(body, k, substitute));
  }

  lemma CharacterCopies(body: string, i: nat, c: char, substitute: string -> string)
    requires At(body, i, [c]) && c != '$'
    ensures ResolveBody(body, i, substitute) == Prepend([c], ResolveBody(body, i + 1, substitute))
  {
    AtFirst(body, i, [c]);
  }

  lemma {:induction false} TextCopies(body: string, i: nat, text: string, substitute: string -> string)
    requires At(body, i, text) && Free(text, "$")
    ensures ResolveBody(body, i, substitute) == Prepend(text, ResolveBody(body, i + |text|, substitute))
    decreases |text|
  {
    if text == "" {
      PrependLaws("", "", ResolveBody(body, i, substitute));
    } else {
      var c, rest := text[0], text[1..];
      assert text == [c] + rest;
      AtSplit(body, i, [c], rest);
      CharacterCopies(body, i, c, substitute);
      TextCopies(body, i + 1, rest, substitute);
      ThenResolves(body, i, [c], i + 1, rest, i + 1 + |rest|, substitute);
    }
  }

  lemma HoleOpens(body: string, i: nat, inner: string)
    requires At(body, i, "${" + inner + "}")
    ensures i < |body| && OpensHole(body, i) && At(body, i + 2, inner + "}")
  {
    Assoc("${", inner, "}");
    AtSplit(body, i, "${", inner + "}");
    AtFirst(body, i, "${");
  }

  lemma HoleStepIs(body: string, i: nat, close: nat, inner: string, substitute: string -> string)
    requires i + 2 <= close <= |body| && OpensHole(body, i) && body[i + 2..close] == inner
    requires TemplateEnd(body, i + 2, 1, Plain) == Some(close)
    ensures ResolveBody(body, i, substitute) == Prepend(substitute(Strip(inner)), ResolveBody(body, close + 1, substitute))
  {
  }

  lemma HoleHolds(body: string, i: nat, inner: string)
    requires At(body, i, inner + "}")
    ensures i + |inner| < |body| && body[i..i + |inner|] == inner
  {
    AtSplit(body, i, inner, "}");
    AtIsSlice(body, i, inner);
  }

  lemma HoleSubstitutes(body: string, i: nat, e: seq<HolePiece>, substitute: string -> string)
    requires At(body, i, "${" + PrintHole(e) + "}") && ValidHole(e)
    ensures ResolveBody(body, i, substitute) ==
            Prepend(substitute(Strip(PrintHole(e))), ResolveBody(body, i + |PrintHole(e)| + 3, substitute))
  {
    HoleOpens(body, i, PrintHole(e));
    HoleEnds(body, i + 2, e);
    HoleHolds(body, i + 2, PrintHole(e));
    HoleStepIs(body, i, i + 2 + |PrintHole(e)|, PrintHole(e), substitute);
  }

  lemma PartResolves(body: string, i: nat, p: UrlPart, substitute: string -> string)
    requires At(body, i, PrintPart(p)) && ValidPart(p, substitute)
    ensures ResolveBody(body, i, substitute) ==
            Prepend(ShownPart(p), ResolveBody(body, i + |PrintPart(p)|, substitute))
  {
    match p
    case UrlText(text) => TextCopies(body, i, text, substitute);
    case UrlHole(e, _) => HoleSubstitutes(body, i, e, substitute);
  }

  lemma ResolvedJoins(body: string, i: nat, head: string, j: nat, tail: string, substitute: string -> string)
    requires ResolveBody(body, i, substitute) == Prepend(head, ResolveBody(body, j, substitute))
    requires ResolveBody(body, j, substitute) == Some(tail)
    ensures ResolveBody(body, i, substitute) == Some(head + tail)
  {
  }

  lemma UrlStep(body: string, i: nat, url: seq<UrlPart>, next: nat, substitute: string -> string)
    requires url != [] && At(body, i, PrintPart(url[0])) && ValidPart(url[0], substitute) && next == i + |PrintPart(url[0])|
    requires ResolveBody(body, next, substitute) == Some(Shown(url[1..]))
    ensures ResolveBody(body, i, substitute) == Some(Shown(url))
  {
    PartResolves(body, i, url[0], substitute);
    ResolvedJoins(body, i, ShownPart(url[0]), next, Shown(url[1..]), substitute);
  }

  lemma UrlEnds(body: string, i: nat, substitute: string -> string)
    requires i == |body|
    ensures ResolveBody(body, i, substitute) == Some(Shown([]))
  {
  }

  lemma UrlUnfolds(url: seq<UrlPart>)
    requires url != []
    ensures PrintUrl(url) == PrintPart(url[0]) + PrintUrl(url[1..])
  {
  }

  lemma AtEnd(body: string, i: nat, whole: string, a: string, b: string)
    requires whole == a + b && At(body, i, whole) && i + |whole| == |body|
    ensures At(body, i, a) && At(body, i + |a|, b) && i + |a| + |b| == |body|
  {
    AtSplit(body, i, a, b);
  }

  lemma {:induction false} UrlResolves(body: string, i: nat, url: seq<UrlPart>, substitute: string -> string)
    requires At(body, i, PrintUrl(url)) && i + |PrintUrl(url)| == |body| && ValidUrl(url, substitute)
    ensures ResolveBody(body, i, substitute) == Some(Shown(url))
    decreases |url|
  {
    if url == [] {
      UrlEnds(body, i, substitute);
    } else {
      var next := i + |PrintPart(url[0])|;
      UrlUnfolds(url);
      AtEnd(body, i, PrintUrl(url), PrintPart(url[0]), PrintUrl(url[1..]));
      UrlResolves(body, next, url[1..], substitute);
      UrlStep(body, i, url, next, substitute);
    }
  }

  // ---------- URL literals ----------

  /** How a call writes its URL: a quoted text, or a template. */
  datatype UrlLiteral = QuotedUrl(double: bool, text: string) | TemplateUrl(url: seq<UrlPart>)

  function Mark(double: bool): string {
    if double then "\"" else "'"
  }

  predicate ValidLiteral(literal: UrlLiteral, substitute: string -> string) {
    match literal
    case QuotedUrl(double, text) => Free(text, Mark(double) + "\\")
    case TemplateUrl(url) => ValidUrl(url, substitute)
  }

  function PrintLiteral(literal: UrlLiteral): string {
    match literal
    case QuotedUrl(double, text) => Mark(double) + text + Mark(double)
    case TemplateUrl(url) => "`" + PrintUrl(url) + "`"
  }

  function LiteralText(literal: UrlLiteral): string {
    match literal
    case QuotedUrl(_, text) => text
    case TemplateUrl(url) => Shown(url)
  }

  lemma EnclosedIsStripped(mark: char, inside: string)
    requires IsMark(mark)
    ensures Strip([mark] + inside + [mark]) == [mark] + inside + [mark]
  {
  }

  lemma QuotedResolves(mark: char, inside: string, substitute: string -> string)
    requires mark == '\'' || mark == '\"'
    ensures ResolveLiteral([mark] + inside + [mark], substitute) == Some(inside)
  {
    EnclosedIsStripped(mark, inside);
    var expr := [mark] + inside + [mark];
    assert expr[1..|expr| - 1] == inside;
  }

  lemma TemplateResolves(url: seq<UrlPart>, substitute: string -> string)
    requires ValidUrl(url, substitute)
    ensures ResolveLiteral("`" + PrintUrl(url) + "`", substitute) == Some(Shown(url))
  {
    var body := PrintUrl(url);
    EnclosedIsStripped('`', body);
    assert TemplateBody("`" + body + "`") == body;
    UrlResolves(body, 0, url, substitute);
  }

  lemma LiteralResolves(literal: UrlLiteral, substitute: string -> string)
    requires ValidLiteral(literal, substitute)
    ensures ResolveLiteral(PrintLiteral(literal), substitute) == Some(LiteralText(literal))
    ensures Strip(PrintLiteral(literal)) == PrintLiteral(literal)
  {
    match literal
    case QuotedUrl(double, text) =>
      QuotedResolves(Mark(double)[0], text, substitute);
      EnclosedIsStripped(Mark(double)[0], text);
    case TemplateUrl(url) =>
      TemplateResolves(url, substitute);
      EnclosedIsStripped('`', PrintUrl(url));
  }

  // ---------- the API prefix ----------

  function Word(text: string): Spelled {
    seq(|text|, i requires 0 <= i < |text| => Sign(text[i]))
  }

  /** The path below `/api/v1`, for a path written with or without it; the bare prefix
      leaves the root. */
  function WithoutApi(path: seq<Spelled>): seq<Spelled> {
    if |path| >= 2 && path[0] == Word("api") && path[1] == Word("v1")
    then (if |path| == 2 then [[]] else path[2..])
    else path
  }

  lemma {:induction false} WordSpells(text: string)
    ensures SpellOne(Word(text)) == text
  {
    if text != "" {
      WordSpells(text[1..]);
      assert Word(text)[1..] == Word(text[1..]);
      assert text == [text[0]] + text[1..];
    }
  }

  lemma {:induction false} SegmentIsWord(one: Spelled, text: string)
    requires SpellOne(one) == text && Free(text, "{")
    ensures one == Word(text)
  {
    if one != [] {
      assert text[0] == SpellBit(one[0])[0] && one[0] == Sign(text[0]);
      assert text == [text[0]] + text[1..] == [text[0]] + SpellOne(one[1..]);
      SameTail([text[0]], text[1..], SpellOne(one[1..]));
      SegmentIsWord(one[1..], text[1..]);
      assert one == [one[0]] + one[1..];
    }
  }

  /** A spelling that begins with a slash and a word spells that word first. */
  lemma FirstSegmentIs(path: seq<Spelled>, text: string, rest: string)
    requires AllValid(path) && Free(text, "/{") && (rest == "" || rest[0] == '/')
    requires Spell(path) == "/" + (text + rest)
    ensures path != [] && path[0] == Word(text) && Spell(path[1..]) == rest
  {
    SpellStarts(path);
    SameTail("/", SpellOne(path[0]) + Spell(path[1..]), text + rest);
    SpelledSegmentIsFree(path[0]);
    SpellStarts(path[1..]);
    PartsMatch(SpellOne(path[0]), text, Spell(path[1..]), rest);
    SegmentIsWord(path[0], text);
  }

  lemma TwoSegmentsAre(path: seq<Spelled>, a: string, b: string, rest: string)
    requires AllValid(path) && (rest == "" || rest[0] == '/') && Spell(path) == "/" + (a + ("/" + (b + rest)))
    requires Free(a, "/{") && Free(b, "/{")
    ensures |path| >= 2 && path[0] == Word(a) && path[1] == Word(b)
  {
    FirstSegmentIs(path, a, "/" + (b + rest));
    FirstSegmentIs(path[1..], b, rest);
  }

  lemma PrefixWords()
    ensures Free("api", "/{") && Free("v1", "/{")
  {
  }

  lemma ApiPrefixSplits(rest: string)
    ensures API_PREFIX + rest == "/" + ("api" + ("/" + ("v1" + rest)))
  {
  }

  lemma ApiSegments(path: seq<Spelled>, rest: string)
    requires AllValid(path) && (rest == "" || rest[0] == '/') && Spell(path) == API_PREFIX + rest
    ensures |path| >= 2 && path[0] == Word("api") && path[1] == Word("v1")
  {
    ApiPrefixSplits(rest);
    PrefixWords();
    TwoSegmentsAre(path, "api", "v1", rest);
  }

  lemma ApiSpelled(path: seq<Spelled>)
    requires |path| >= 2 && path[0] == Word("api") && path[1] == Word("v1")
    ensures Spell(path) == API_PREFIX + Spell(path[2..])
  {
    WordSpells("api");
    WordSpells("v1");
    assert path[1..][1..] == path[2..];
    ApiPrefixSplits(Spell(path[2..]));
  }

  /** Stripping the API prefix from a spelling strips its first two segments, when
      they are the prefix, and nothing otherwise. */
  lemma PrefixIsStripped(path: seq<Spelled>)
    requires AllValid(path)
    ensures AfterApiPrefix(Spell(path)) == Spell(WithoutApi(path))
  {
    if |path| >= 2 && path[0] == Word("api") && path[1] == Word("v1") {
      ApiSpelled(path);
      SpellStarts(path[2..]);
      PrefixComesOff(Spell(path[2..]));
      SpellSingle([]);
    } else {
      NoPrefixNoSegments(path);
    }
  }

  lemma PrefixComesOff(rest: string)
    requires rest == "" || rest[0] == '/'
    ensures AfterApiPrefix(API_PREFIX + rest) == if rest == "" then "/" else rest
  {
    if rest != "" {
      assert (API_PREFIX + rest)[..|API_PREFIX| + 1] == API_PREFIX + "/";
      assert (API_PREFIX + rest)[|API_PREFIX|..] == rest;
    }
  }

  /** Only a path that spells the two segments of the prefix loses them. */
  lemma NoPrefixNoSegments(path: seq<Spelled>)
    requires AllValid(path)
    ensures AfterApiPrefix(Spell(path)) == Spell(path) || (|path| >= 2 && path[0] == Word("api") && path[1] == Word("v1"))
  {
    if API_PREFIX + "/" <= Spell(path) || Spell(path) == API_PREFIX {
      PrefixIsFront(Spell(path));
      ApiSegments(path, Spell(path)[|API_PREFIX|..]);
    }
  }

  lemma PrefixIsFront(spelled: string)
    requires API_PREFIX + "/" <= spelled || spelled == API_PREFIX
    ensures |spelled| >= |API_PREFIX| && spelled == API_PREFIX + spelled[|API_PREFIX|..]
    ensures spelled[|API_PREFIX|..] == "" || spelled[|API_PREFIX|..][0] == '/'
  {
    if API_PREFIX + "/" <= spelled {
      assert spelled[..|API_PREFIX|] == (API_PREFIX + "/")[..|API_PREFIX|] == API_PREFIX;
      assert spelled[|API_PREFIX|] == (API_PREFIX + "/")[|API_PREFIX|];
    }
  }

  // ---------- the recorded path ----------

  /** A call whose first argument is `arg`, with its parenthesis at `start`. */
  ghost predicate CallAt(text: string, start: nat, arg: seq<Piece>, others: seq<seq<Piece>>) {
    && start < |text| && text[start] == '(' && At(text, start + 1, PrintArgs([arg] + others))
    && ValidArgs([arg] + others)
  }

  /** A call whose first argument is written as a URL literal, anywhere in a file and
      with any further arguments, is recorded under its text, stripped and normalised,
      if that begins with a slash, and not at all otherwise. */
  lemma PrintedCallIsRecorded(text: string, start: nat, literal: UrlLiteral, arg: seq<Piece>,
                              others: seq<seq<Piece>>, substitute: string -> string)
    requires ValidLiteral(literal, substitute) && PrintPieces(arg) == PrintLiteral(literal)
    requires CallAt(text, start, arg, others)
    ensures var url := LiteralText(literal);
            RecordedPath(text, start, substitute) ==
              if url != "" && url[0] == '/' then Some(Normalised(AfterApiPrefix(url))) else None
  {
    FirstOfPrinted(text, start, [arg] + others);
    LiteralResolves(literal, substitute);
  }

  /** What a call to a written path compares by: its shape below the API prefix, less
      one trailing slash. */
  function CalledShape(path: seq<Spelled>): seq<Segment> {
    ShapeOf(Trimmed(WithoutApi(path)))
  }

  lemma PathIsRecorded(path: seq<Spelled>)
    requires AllValid(path)
    ensures Normalised(AfterApiPrefix(Spell(path))) == Key(CalledShape(path))
  {
    PrefixIsStripped(path);
    SpellingNormalises(WithoutApi(path));
  }

  /** End to end: with or without the API prefix, with or without a trailing slash, the
      call is recorded under the key of its path's shape. */
  lemma PrintedCallIsRecordedByShape(text: string, start: nat, literal: UrlLiteral, arg: seq<Piece>,
                                     others: seq<seq<Piece>>, substitute: string -> string, path: seq<Spelled>)
    requires ValidLiteral(literal, substitute) && PrintPieces(arg) == PrintLiteral(literal)
    requires CallAt(text, start, arg, others)
    requires AllValid(path) && LiteralText(literal) == Spell(path)
    ensures RecordedPath(text, start, substitute) == if path == [] then None else Some(Key(CalledShape(path)))
  {
    PrintedCallIsRecorded(text, start, literal, arg, others, substitute);
    SpellStarts(path);
    PathIsRecorded(path);
  }

  // ---------- literals the scanner reads whole ----------

  /** The characters of a hole, with escapes kept together. */
  function HoleChars(pieces: seq<HolePiece>): seq<QChar>
    decreases pieces, 0
  {
    if pieces == [] then [] else PieceChars(pieces[0]) + HoleChars(pieces[1..])
  }

  function PieceChars(p: HolePiece): seq<QChar>
    decreases p, 1
  {
    match p
    case Glyph(c) => [Lit(c)]
    case Str(mark, chars) => [Lit(mark)] + chars + [Lit(mark)]
    case Braces(inner) => [Lit('{')] + HoleChars(inner) + [Lit('}')]
  }

  lemma {:induction false} PrintQCharsAppend(a: seq<QChar>, b: seq<QChar>)
    ensures PrintQChars(a + b) == PrintQChars(a) + PrintQChars(b)
  {
    if a == [] {
      assert a + b == b;
    } else {
      PrintQCharsAppend(a[1..], b);
      Uncons(a, b);
      Assoc(PrintQChar(a[0]), PrintQChars(a[1..]), PrintQChars(b));
    }
  }

  lemma PrintEnclosed(open: char, chars: seq<QChar>, close: char)
    ensures PrintQChars([Lit(open)] + chars + [Lit(close)]) == [open] + PrintQChars(chars) + [close]
  {
    PrintQCharsAppend([Lit(open)] + chars, [Lit(close)]);
    PrintQCharsAppend([Lit(open)], chars);
    PrintSingle(open);
    PrintSingle(close);
  }

  lemma {:induction false} HoleCharsPrint(pieces: seq<HolePiece>)
    ensures PrintQChars(HoleChars(pieces)) == PrintHole(pieces)
    decreases pieces, 0
  {
    if pieces != [] {
      PieceCharsPrint(pieces[0]);
      HoleCharsPrint(pieces[1..]);
      PrintQCharsAppend(PieceChars(pieces[0]), HoleChars(pieces[1..]));
    }
  }

  lemma {:induction false} PieceCharsPrint(p: HolePiece)
    ensures PrintQChars(PieceChars(p)) == PrintHolePiece(p)
    decreases p, 1
  {
    match p
    case Glyph(c) => PrintSingle(c);
    case Str(mark, chars) => PrintEnclosed(mark, chars, mark);
    case Braces(inner) =>
      HoleCharsPrint(inner);
      PrintEnclosed('{', HoleChars(inner), '}');
  }

  /** No bare backtick, dollar or backslash: nothing the call scanner would take for
      the end of the template, for a further hole, or for an escape. */
  predicate Unmarked(chars: seq<QChar>) {
    forall k :: 0 <= k < |chars| && chars[k].Lit? ==> chars[k].c != '`' && chars[k].c != '$' && chars[k].c != '\\'
  }

  predicate Scannable(literal: UrlLiteral) {
    literal.TemplateUrl? ==> forall k :: 0 <= k < |literal.url| ==> ScannablePart(literal.url[k])
  }

  predicate ScannablePart(p: UrlPart) {
    p.UrlText? || Unmarked(HoleChars(p.expression))
  }

  function TextParts(chars: seq<QChar>): seq<TPart> {
    if chars == [] then [] else [TText(chars[0])] + TextParts(chars[1..])
  }

  lemma FirstTPart(p: TPart, rest: seq<TPart>)
    ensures PrintTParts([p] + rest) == PrintTPart(p) + PrintTParts(rest)
  {
    assert ([p] + rest)[0] == p && ([p] + rest)[1..] == rest;
  }

  lemma {:induction false} TextPartsPrint(chars: seq<QChar>)
    ensures PrintTParts(TextParts(chars)) == PrintQChars(chars)
  {
    if chars != [] {
      TextPartsPrint(chars[1..]);
      FirstTPart(TText(chars[0]), TextParts(chars[1..]));
    }
  }

  lemma {:induction false} TextPartsValid(chars: seq<QChar>, level: nat)
    requires Unmarked(chars) && (level > 0 ==> Lit('}') !in chars)
    ensures ValidTParts(TextParts(chars), level)
  {
    if chars != [] {
      TextPartsValid(chars[1..], level);
      assert TextParts(chars)[1..] == TextParts(chars[1..]);
    }
  }

  lemma {:induction false} TPartsAppend(a: seq<TPart>, b: seq<TPart>)
    ensures PrintTParts(a + b) == PrintTParts(a) + PrintTParts(b)
    ensures ValidTParts(a, 0) && ValidTParts(b, 0) ==> ValidTParts(a + b, 0)
  {
    if a == [] {
      assert a + b == b;
    } else {
      TPartsAppend(a[1..], b);
      Uncons(a, b);
      Assoc(PrintTPart(a[0]), PrintTParts(a[1..]), PrintTParts(b));
    }
  }

  function FirstClose(chars: seq<QChar>): (k: nat)
    requires Lit('}') in chars
    ensures k < |chars| && chars[k] == Lit('}') && Lit('}') !in chars[..k]
  {
    if chars[0] == Lit('}') then 0
    else
      var k := FirstClose(chars[1..]);
      assert chars[..k + 1] == [chars[0]] + chars[1..][..k];
      k + 1
  }

  /** A hole as the call scanner reads it: up to the first bare closing brace it is in
      the hole, after that in plain template text. */
  function HoleParts(chars: seq<QChar>): seq<TPart> {
    var closed := chars + [Lit('}')];
    var k := FirstClose(closed);
    [Hole(TextParts(closed[..k]))] + TextParts(closed[k + 1..])
  }

  lemma HolePartsPrint(chars: seq<QChar>)
    ensures PrintTParts(HoleParts(chars)) == "${" + PrintQChars(chars) + "}"
  {
    var closed := chars + [Lit('}')];
    var k := FirstClose(closed);
    FirstTPart(Hole(TextParts(closed[..k])), TextParts(closed[k + 1..]));
    TextPartsPrint(closed[..k]);
    TextPartsPrint(closed[k + 1..]);
    ClosePrints(closed, k);
    PrintQCharsAppend(chars, [Lit('}')]);
    PrintSingle('}');
    Assoc("${" + PrintQChars(closed[..k]), "}", PrintQChars(closed[k + 1..]));
    Assoc("${", PrintQChars(closed[..k]), "}" + PrintQChars(closed[k + 1..]));
    Assoc("${", PrintQChars(chars), "}");
  }

  lemma PrintSingle(c: char)
    ensures PrintQChars([Lit(c)]) == [c]
  {
    assert [Lit(c)][1..] == [];
  }

  lemma ClosePrints(chars: seq<QChar>, k: nat)
    requires k < |chars| && chars[k] == Lit('}')
    ensures PrintQChars(chars) == PrintQChars(chars[..k]) + ("}" + PrintQChars(chars[k + 1..]))
  {
    assert chars == chars[..k] + ([Lit('}')] + chars[k + 1..]);
    PrintQCharsAppend(chars[..k], [Lit('}')] + chars[k + 1..]);
    PrintQCharsAppend([Lit('}')], chars[k + 1..]);
    PrintSingle('}');
  }

  lemma HolePartsValid(chars: seq<QChar>)
    requires Unmarked(chars)
    ensures ValidTParts(HoleParts(chars), 0)
  {
    var closed := chars + [Lit('}')];
    var k := FirstClose(closed);
    TextPartsValid(closed[..k], 1);
    TextPartsValid(closed[k + 1..], 0);
    assert HoleParts(chars)[1..] == TextParts(closed[k + 1..]);
  }

  function Lits(text: string): (chars: seq<QChar>)
    ensures |chars| == |text| && forall k :: 0 <= k < |text| ==> chars[k] == Lit(text[k])
  {
    seq(|text|, k requires 0 <= k < |text| => Lit(text[k]))
  }

  lemma {:induction false} LitsPrint(text: string)
    ensures PrintQChars(Lits(text)) == text
  {
    if text != "" {
      LitsPrint(text[1..]);
      assert Lits(text)[1..] == Lits(text[1..]);
    }
  }

  function PartTParts(p: UrlPart): seq<TPart> {
    match p
    case UrlText(text) => TextParts(Lits(text))
    case UrlHole(e, _) => HoleParts(HoleChars(e))
  }

  lemma PartTPartsPrint(p: UrlPart, substitute: string -> string)
    requires ValidPart(p, substitute) && ScannablePart(p)
    ensures PrintTParts(PartTParts(p)) == PrintPart(p) && ValidTParts(PartTParts(p), 0)
  {
    match p
    case UrlText(text) =>
      TextPartsPrint(Lits(text));
      LitsPrint(text);
      TextPartsValid(Lits(text), 0);
    case UrlHole(e, _) =>
      HolePartsAre(e);
  }

  lemma HolePartsAre(e: seq<HolePiece>)
    requires Unmarked(HoleChars(e))
    ensures PrintTParts(HoleParts(HoleChars(e))) == "${" + PrintHole(e) + "}" && ValidTParts(HoleParts(HoleChars(e)), 0)
  {
    HolePartsPrint(HoleChars(e));
    HoleCharsPrint(e);
    HolePartsValid(HoleChars(e));
  }

  function UrlTParts(url: seq<UrlPart>): seq<TPart> {
    if url == [] then [] else PartTParts(url[0]) + UrlTParts(url[1..])
  }

  lemma {:induction false} UrlTPartsPrint(url: seq<UrlPart>, substitute: string -> string)
    requires ValidUrl(url, substitute) && forall k :: 0 <= k < |url| ==> ScannablePart(url[k])
    ensures PrintTParts(UrlTParts(url)) == PrintUrl(url) && ValidTParts(UrlTParts(url), 0)
  {
    if url != [] {
      PartTPartsPrint(url[0], substitute);
      UrlTPartsPrint(url[1..], substitute);
      TPartsAppend(PartTParts(url[0]), UrlTParts(url[1..]));
    }
  }

  /** The literal as an argument the call scanner reads whole. */
  function LiteralPiece(literal: UrlLiteral): Piece {
    match literal
    case QuotedUrl(double, text) => CallScanner.Quoted(double, Lits(text))
    case TemplateUrl(url) => Template(UrlTParts(url))
  }

  lemma PrintOnePiece(piece: Piece)
    ensures PrintPieces([piece]) == PrintPiece(piece)
    ensures ValidPieces([piece]) <==> ValidPiece(piece)
    ensures NoSeparator([piece]) <==> !piece.Separator?
  {
    assert [piece][1..] == [];
  }

  lemma QuotedIsValid(double: bool, text: string)
    requires Free(text, Mark(double) + "\\")
    ensures ValidPiece(CallScanner.Quoted(double, Lits(text)))
  {
    forall k | 0 <= k < |text| ensures text[k] != Mark(double)[0] && text[k] != '\\' {
      assert Mark(double)[0] in Mark(double) + "\\" && '\\' in Mark(double) + "\\";
    }
  }

  /** Every quoted text, and every template without stray marks in its holes, is such
      an argument: the two scanners agree on where it ends. */
  lemma ScannableLiteralPrints(literal: UrlLiteral, substitute: string -> string)
    requires ValidLiteral(literal, substitute) && Scannable(literal)
    ensures PrintPieces([LiteralPiece(literal)]) == PrintLiteral(literal)
    ensures ValidPieces([LiteralPiece(literal)]) && NoSeparator([LiteralPiece(literal)])
  {
    PrintOnePiece(LiteralPiece(literal));
    match literal
    case QuotedUrl(double, text) =>
      LitsPrint(text);
      QuotedIsValid(double, text);
    case TemplateUrl(url) =>
      UrlTPartsPrint(url, substitute);
  }

  // ---------- what is reported ----------

  /** A controller endpoint: its method, its path split between class and decorator,
      whether it is mounted below the API prefix, and the path as written, in which a
      decorator of "/" is an empty segment. */
  datatype Controller =
    Controller(httpMethod: string, classPath: string, decoPath: string, underApi: bool, written: seq<Spelled>)

  predicate ValidController(c: Controller) {
    AllValid(c.written) && c.classPath + c.decoPath == Spell(c.written)
  }

  /** The shape it serves: that of its segments, slashes doubled or trailing aside. */
  function ServedShape(c: Controller): seq<Segment> {
    ShapeOf(Routed(c.written))
  }

  /** The route the backend side records for it. */
  function RouteOf(c: Controller): RouteRecord {
    RouteRecord(c.httpMethod, Recorded(c.underApi, c.classPath + c.decoPath))
  }

  lemma WithoutApiIsValid(path: seq<Spelled>)
    requires AllValid(path)
    ensures AllValid(Trimmed(WithoutApi(path)))
  {
  }

  lemma RecordedMatchesIffShape(c: Controller, path: seq<Spelled>)
    requires ValidController(c) && AllValid(path)
    ensures RouteOf(c).path == Key(CalledShape(path)) <==> ServedShape(c) == CalledShape(path)
  {
    RecordedIsRouted(c.underApi, c.written);
    if c.written != [] {
      UndoubledIsValid(c.written);
    }
    WithoutApiIsValid(path);
    SameKeyIffSameShape(Routed(c.written), Trimmed(WithoutApi(path)));
  }

  /** The gate end to end: a call written in frontend source is reported if and only
      if no controller serves its method under a path of the same shape. */
  lemma PrintedCallIsReportedIff(text: string, start: nat, literal: UrlLiteral, arg: seq<Piece>, others: seq<seq<Piece>>,
                                 substitute: string -> string, path: seq<Spelled>, httpMethod: string,
                                 controllers: seq<Controller>, calls: seq<CallSite>, routes: seq<RouteRecord>)
    requires ValidLiteral(literal, substitute) && PrintPieces(arg) == PrintLiteral(literal)
    requires CallAt(text, start, arg, others)
    requires path != [] && AllValid(path) && LiteralText(literal) == Spell(path)
    requires |routes| == |controllers|
    requires forall j :: 0 <= j < |controllers| ==> ValidController(controllers[j]) && routes[j] == RouteOf(controllers[j])
    requires RecordedPath(text, start, substitute).Some?
    requires CallSite(httpMethod, RecordedPath(text, start, substitute).value, false) in calls
    ensures CallSite(httpMethod, RecordedPath(text, start, substitute).value, false) in DeadCalls(calls, routes) <==>
            forall j :: 0 <= j < |controllers| ==>
              !(controllers[j].httpMethod == httpMethod && ServedShape(controllers[j]) == CalledShape(path))
  {
    PrintedCallIsRecordedByShape(text, start, literal, arg, others, substitute, path);
    DeadCallsAreDead(calls, routes, CallSite(httpMethod, Key(CalledShape(path)), false));
    forall j | 0 <= j < |routes|
      ensures routes[j].path == Key(CalledShape(path)) <==> ServedShape(controllers[j]) == CalledShape(path)
      ensures routes[j].httpMethod == controllers[j].httpMethod
    {
      RecordedMatchesIffShape(controllers[j], path);
    }
  }

  /** What a decorator of "/" and a call with or without a trailing slash compare by:
      the segments of the class. */
  lemma SlashDecoratorServesTheClass(c: Controller, path: seq<Spelled>)
    requires ValidController(c) && path != [] && (forall k :: 0 <= k < |path| ==> path[k] != [])
    requires c.written == path + [[]] && !(|path| >= 2 && path[0] == Word("api") && path[1] == Word("v1"))
    ensures ServedShape(c) == CalledShape(path) == CalledShape(path + [[]]) == ShapeOf(path)
  {
    SlashIsNotKept(path);
    SlashIsTrimmed(path);
  }

  lemma SlashIsNotKept(path: seq<Spelled>)
    requires path != [] && (forall k :: 0 <= k < |path| ==> path[k] != [])
    ensures Routed(path + [[]]) == path
  {
    KeptAll(path);
    KeptAppend(path, [[]]);
    assert Kept([[]]) == [];
  }

  lemma SlashIsTrimmed(path: seq<Spelled>)
    requires path != [] && path[|path| - 1] != []
    requires !(|path| >= 2 && path[0] == Word("api") && path[1] == Word("v1"))
    ensures Trimmed(WithoutApi(path)) == path == Trimmed(WithoutApi(path + [[]]))
  {
    assert (path + [[]])[..|path|] == path;
    assert Word("v1") != [];
  }

  lemma {:induction false} KeptAppend(a: seq<Spelled>, b: seq<Spelled>)
    ensures Kept(a + b) == Kept(a) + Kept(b)
  {
    if a == [] {
      assert a + b == b;
    } else {
      Uncons(a, b);
      KeptAppend(a[1..], b);
    }
  }

  lemma {:induction false} KeptAll(path: seq<Spelled>)
    requires forall k :: 0 <= k < |path| ==> path[k] != []
    ensures Kept(path) == path
  {
    if path != [] {
      KeptAll(path[1..]);
    }
  }
}
