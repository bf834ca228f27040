/** The character scanner that finds the arguments of a call in TypeScript text
    (`scripts/_dead_api_endpoints_frontend.py`), checked against a printer. */
module CallScanner {
  import opened Prelude

  datatype Event = Comma(pos: nat) | Close(pos: nat)

  datatype Quote = Plain | Single | Double | Backtick

  datatype State = State(depth: int, quote: Quote, templateDepth: nat, escape: bool)

  const TOP := State(1, Plain, 0, false)

  predicate IsOpener(c: char) {
    c == '(' || c == '[' || c == '{'
  }

  predicate IsCloser(c: char) {
    c == ')' || c == ']' || c == '}'
  }

  // ---------- the scanner as a function ----------

  /** How one character moves the scanner: the next state and how far it advances.
      `next` is the character after it, if there is one. */
  function Advance(st: State, c: char, next: Option<char>): (State, nat) {
    if st.escape then (st.(escape := false), 1)
    else if c == '\\' && st.quote != Plain then (st.(escape := true), 1)
    else match st.quote
      case Single => (if c == '\'' then st.(quote := Plain) else st, 1)
      case Double => (if c == '\"' then st.(quote := Plain) else st, 1)
      case Backtick =>
        if c == '`' && st.templateDepth == 0 then (st.(quote := Plain), 1)
        else if c == '$' && next == Some('{') then (st.(templateDepth := st.templateDepth + 1), 2)
        else if c == '}' && st.templateDepth > 0 then (st.(templateDepth := st.templateDepth - 1), 1)
        else (st, 1)
      case Plain =>
        if c == '\'' then (st.(quote := Single), 1)
        else if c == '\"' then (st.(quote := Double), 1)
        else if c == '`' then (st.(quote := Backtick), 1)
        else if IsOpener(c) then (st.(depth := st.depth + 1), 1)
        else if IsCloser(c) then (st.(depth := st.depth - 1), 1)
        else (st, 1)
  }

  function Peek(text: string, i: nat): Option<char> {
    if i < |text| then Some(text[i]) else None
  }

  predicate Bare(st: State) {
    !st.escape && st.quote == Plain
  }

  /** The events from position `i` on, ending at the close of the call. */
  function Scan(text: string, i: nat, st: State): seq<Event>
    decreases |text| - i
  {
    if i >= |text| then []
    else
      var (after, width) := Advance(st, text[i], Peek(text, i + 1));
      if Bare(st) && IsCloser(text[i]) && after.depth == 0 then [Close(i)]
      else if Bare(st) && text[i] == ',' && st.depth == 1 then [Comma(i)] + Scan(text, i + 1, st)
      else Scan(text, i + width, after)
  }

  // ---------- the scanner as the loop ----------

  /** What one character does inside a string literal or template. */
  method InsideQuote(ch: char, next: Option<char>, st: State) returns (after: State, width: nat)
    requires !st.escape && st.quote != Plain
    ensures (after, width) == Advance(st, ch, next)
  {
    after, width := st, 1;
    if ch == '\\' {
      after := st.(escape := true);
    } else if st.quote == Single {
      if ch == '\'' { after := st.(quote := Plain); }
    } else if st.quote == Double {
      if ch == '\"' { after := st.(quote := Plain); }
    } else if ch == '`' && st.templateDepth == 0 {
      after := st.(quote := Plain);
    } else if ch == '$' && next == Some('{') {
      after, width := st.(templateDepth := st.templateDepth + 1), 2;
    } else if ch == '}' && st.templateDepth > 0 {
      after := st.(templateDepth := st.templateDepth - 1);
    }
  }

  lemma ScanStep(done: seq<Event>, text: string, i: nat, st: State)
    requires i < |text|
    ensures var (after, width) := Advance(st, text[i], Peek(text, i + 1));
            done + Scan(text, i, st) ==
              if Bare(st) && IsCloser(text[i]) && after.depth == 0 then done + [Close(i)]
              else if Bare(st) && text[i] == ',' && st.depth == 1 then done + [Comma(i)] + Scan(text, i + 1, st)
              else done + Scan(text, i + width, after)
  {
  }

  /** The index loop: brackets move the depth, quotes suspend it, and a comma at depth
      one or the close of the call is an event. */
  method TopLevelPositions(text: string, parenIdx: nat) returns (events: seq<Event>)
    ensures events == Scan(text, parenIdx + 1, TOP)
  {
    var st, i := TOP, parenIdx + 1;
    events := [];
    while i < |text|
      invariant events + Scan(text, i, st) == Scan(text, parenIdx + 1, TOP)
      decreases |text| - i
    {
      ScanStep(events, text, i, st);
      var ch, width := text[i], 1;
      if st.escape {
        st := st.(escape := false);
      } else if st.quote != Plain {
        st, width := InsideQuote(ch, Peek(text, i + 1), st);
      } else if ch == '\'' {
        st := st.(quote := Single);
      } else if ch == '\"' {
        st := st.(quote := Double);
      } else if ch == '`' {
        st := st.(quote := Backtick);
      } else if ch in "([{" {
        st := st.(depth := st.depth + 1);
      } else if ch in ")]}" {
        st := st.(depth := st.depth - 1);
        if st.depth == 0 {
          return events + [Close(i)];
        }
      } else if ch == ',' && st.depth == 1 {
        events := events + [Comma(i)];
      }
      i := i + width;
    }
  }

  // ---------- facts about every text ----------

  /** Events come in position order, each at a character of its kind, and nothing
      follows a close. */
  ghost predicate WellPlaced(text: string, from: nat, events: seq<Event>)
    decreases |events|
  {
    events == [] ||
    var e := events[0];
    && from <= e.pos < |text|
    && (if e.Comma? then text[e.pos] == ',' else IsCloser(text[e.pos]) && |events| == 1)
    && WellPlaced(text, e.pos + 1, events[1..])
  }

  lemma {:induction false} ScanIsWellPlaced(text: string, i: nat, st: State)
    ensures WellPlaced(text, i, Scan(text, i, st))
    decreases |text| - i
  {
    if i < |text| {
      var (after, width) := Advance(st, text[i], Peek(text, i + 1));
      if Bare(st) && IsCloser(text[i]) && after.depth == 0 {
        assert Scan(text, i, st) == [Close(i)];
      } else if Bare(st) && text[i] == ',' && st.depth == 1 {
        ScanIsWellPlaced(text, i + 1, st);
        assert Scan(text, i, st)[1..] == Scan(text, i + 1, st);
      } else {
        ScanIsWellPlaced(text, i + width, after);
        assert Scan(text, i, st) == Scan(text, i + width, after);
      }
    }
  }

  // ---------- printed arguments ----------

  /** A character of a string literal, bare or behind a backslash. */
  datatype QChar = Lit(c: char) | Esc(c: char)

  /** A part of a template literal; `Dollar(c)` is a `$` that opens no hole. */
  datatype TPart = TText(q: QChar) | Dollar(c: char) | Hole(inside: seq<TPart>)

  /** A piece of argument text. */
  datatype Piece =
    | Letter(c: char)
    | Separator
    | Quoted(double: bool, chars: seq<QChar>)
    | Template(parts: seq<TPart>)
    | Group(open: char, inner: seq<Piece>, close: char)

  predicate IsLetter(c: char) {
    !IsOpener(c) && !IsCloser(c) && c != '\'' && c != '\"' && c != '`' && c != ','
  }

  predicate ValidQChar(q: QChar, mark: char) {
    q.Lit? ==> q.c != mark && q.c != '\\'
  }

  /** `level` counts the holes around a part. At level zero a backtick ends the
      template; inside a hole the first bare brace ends the hole. */
  predicate ValidTParts(parts: seq<TPart>, level: nat)
    decreases parts, 0
  {
    parts == [] || (ValidTPart(parts[0], level) && ValidTParts(parts[1..], level))
  }

  predicate ValidTPart(p: TPart, level: nat)
    decreases p, 1
  {
    var mark := if level == 0 then '`' else '}';
    match p
    case TText(q) => ValidQChar(q, mark) && (q.Lit? ==> q.c != '$')
    case Dollar(c) => c != mark && c != '\\' && c != '{' && c != '$'
    case Hole(inside) => ValidTParts(inside, level + 1)
  }

  predicate ValidPieces(pieces: seq<Piece>)
    decreases pieces, 0
  {
    pieces == [] || (ValidPiece(pieces[0]) && ValidPieces(pieces[1..]))
  }

  predicate ValidPiece(p: Piece)
    decreases p, 1
  {
    match p
    case Letter(c) => IsLetter(c)
    case Separator => true
    case Quoted(double, chars) =>
      forall k :: 0 <= k < |chars| ==> ValidQChar(chars[k], if double then '\"' else '\'')
    case Template(parts) => ValidTParts(parts, 0)
    case Group(open, inner, close) => IsOpener(open) && IsCloser(close) && ValidPieces(inner)
  }

  function PrintQChar(q: QChar): string {
    if q.Esc? then ['\\', q.c] else [q.c]
  }

  function PrintQChars(chars: seq<QChar>): string {
    if chars == [] then "" else PrintQChar(chars[0]) + PrintQChars(chars[1..])
  }

  function PrintTParts(parts: seq<TPart>): string
    decreases parts, 0
  {
    if parts == [] then "" else PrintTPart(parts[0]) + PrintTParts(parts[1..])
  }

  function PrintTPart(p: TPart): (s: string)
    ensures s != []
    decreases p, 1
  {
    match p
    case TText(q) => PrintQChar(q)
    case Dollar(c) => ['$', c]
    case Hole(inside) => "${" + PrintTParts(inside) + "}"
  }

  function PrintPieces(pieces: seq<Piece>): string
    decreases pieces, 0
  {
    if pieces == [] then "" else PrintPiece(pieces[0]) + PrintPieces(pieces[1..])
  }

  function PrintPiece(p: Piece): (s: string)
    ensures s != []
    decreases p, 1
  {
    match p
    case Letter(c) => [c]
    case Separator => ","
    case Quoted(double, chars) =>
      var mark := if double then "\"" else "'";
      mark + PrintQChars(chars) + mark
    case Template(parts) => "`" + PrintTParts(parts) + "`"
    case Group(open, inner, close) => [open] + PrintPieces(inner) + [close]
  }

  // ---------- scanning over printed text ----------

  /** `part` stands in `text` at position `i`. */
  ghost predicate At(text: string, i: nat, part: string) {
    i + |part| <= |text| && forall k {:trigger part[k]} :: 0 <= k < |part| ==> text[i + k] == part[k]
  }

  lemma AtSplit(text: string, i: nat, a: string, b: string)
    requires At(text, i, a + b)
    ensures At(text, i, a) && At(text, i + |a|, b)
  {
    forall k | 0 <= k < |a| ensures text[i + k] == a[k] {
      assert (a + b)[k] == a[k];
    }
    forall k | 0 <= k < |b| ensures text[i + |a| + k] == b[k] {
      assert (a + b)[|a| + k] == b[k];
    }
  }

  lemma AtFirst(text: string, i: nat, part: string)
    requires At(text, i, part) && part != []
    ensures text[i] == part[0]
    ensures |part| > 1 ==> text[i + 1] == part[1]
  {
  }

  lemma AtEnclosed(text: string, i: nat, a: string, mid: string, b: string)
    requires At(text, i, a + mid + b) && a != "" && b != ""
    ensures At(text, i + |a|, mid) && i + |a| + |mid| < |text|
    ensures text[i] == a[0] && text[i + |a| + |mid|] == b[0]
    ensures |a| > 1 ==> text[i + 1] == a[1]
  {
    AtSplit(text, i, a + mid, b);
    AtSplit(text, i, a, mid);
    AtFirst(text, i, a);
    AtFirst(text, i + |a| + |mid|, b);
  }

  lemma AtIsSlice(text: string, i: nat, part: string)
    requires At(text, i, part)
    ensures text[i..i + |part|] == part
  {
  }

  lemma {:induction false} SkipQChars(text: string, i: nat, chars: seq<QChar>, st: State)
    requires At(text, i, PrintQChars(chars)) && !st.escape
    requires st.quote == Single || st.quote == Double
    requires forall k :: 0 <= k < |chars| ==> ValidQChar(chars[k], if st.quote == Double then '\"' else '\'')
    ensures Scan(text, i, st) == Scan(text, i + |PrintQChars(chars)|, st)
    decreases |chars|
  {
    if chars != [] {
      var first := PrintQChar(chars[0]);
      AtSplit(text, i, first, PrintQChars(chars[1..]));
      AtFirst(text, i, first);
      SkipQChars(text, i + |first|, chars[1..], st);
      assert !Bare(st);
      if chars[0].Esc? {
        assert Scan(text, i, st) == Scan(text, i + 1, st.(escape := true));
        assert Scan(text, i + 1, st.(escape := true)) == Scan(text, i + 2, st);
      }
    }
  }

  lemma {:induction false} SkipTParts(text: string, i: nat, parts: seq<TPart>, st: State)
    requires At(text, i, PrintTParts(parts)) && !st.escape && st.quote == Backtick
    requires ValidTParts(parts, st.templateDepth)
    ensures Scan(text, i, st) == Scan(text, i + |PrintTParts(parts)|, st)
    decreases parts, 0
  {
    if parts != [] {
      AtSplit(text, i, PrintTPart(parts[0]), PrintTParts(parts[1..]));
      SkipTPart(text, i, parts[0], st);
      SkipTParts(text, i + |PrintTPart(parts[0])|, parts[1..], st);
    }
  }

  lemma {:induction false} SkipTPart(text: string, i: nat, p: TPart, st: State)
    requires At(text, i, PrintTPart(p)) && !st.escape && st.quote == Backtick
    requires ValidTPart(p, st.templateDepth)
    ensures Scan(text, i, st) == Scan(text, i + |PrintTPart(p)|, st)
    decreases p, 1
  {
    AtFirst(text, i, PrintTPart(p));
    match p
    case TText(q) =>
      if q.Esc? {
      }
    case Dollar(c) =>
    case Hole(inside) =>
      SkipHole(text, i, inside, st);
  }

  lemma {:induction false} SkipHole(text: string, i: nat, inside: seq<TPart>, st: State)
    requires At(text, i, "${" + PrintTParts(inside) + "}") && !st.escape && st.quote == Backtick
    requires ValidTParts(inside, st.templateDepth + 1)
    ensures Scan(text, i, st) == Scan(text, i + |PrintTParts(inside)| + 3, st)
    decreases inside, 2
  {
    var deeper, end := st.(templateDepth := st.templateDepth + 1), i + 2 + |PrintTParts(inside)|;
    AtEnclosed(text, i, "${", PrintTParts(inside), "}");
    SkipTParts(text, i + 2, inside, deeper);
  }

  predicate NoSeparator(pieces: seq<Piece>) {
    forall k :: 0 <= k < |pieces| ==> !pieces[k].Separator?
  }

  /** Outside strings, printed pieces leave the scanner where it was and report
      nothing, unless a bare comma stands directly in the argument list. */
  lemma {:induction false} SkipPieces(text: string, i: nat, pieces: seq<Piece>, st: State)
    requires At(text, i, PrintPieces(pieces)) && ValidPieces(pieces)
    requires Bare(st) && st.templateDepth == 0 && st.depth >= 1
    requires st.depth == 1 ==> NoSeparator(pieces)
    ensures Scan(text, i, st) == Scan(text, i + |PrintPieces(pieces)|, st)
    decreases pieces, 0
  {
    if pieces != [] {
      AtSplit(text, i, PrintPiece(pieces[0]), PrintPieces(pieces[1..]));
      SkipPiece(text, i, pieces[0], st);
      SkipPieces(text, i + |PrintPiece(pieces[0])|, pieces[1..], st);
    }
  }

  lemma {:induction false} SkipPiece(text: string, i: nat, p: Piece, st: State)
    requires At(text, i, PrintPiece(p)) && ValidPiece(p)
    requires Bare(st) && st.templateDepth == 0 && st.depth >= 1
    requires st.depth == 1 ==> !p.Separator?
    ensures Scan(text, i, st) == Scan(text, i + |PrintPiece(p)|, st)
    decreases p, 1
  {
    AtFirst(text, i, PrintPiece(p));
    match p
    case Letter(_) =>
    case Separator =>
    case Quoted(double, chars) => SkipQuoted(text, i, double, chars, st);
    case Template(parts) => SkipTemplate(text, i, parts, st);
    case Group(open, inner, close) => SkipGroup(text, i, open, inner, close, st);
  }

  lemma SkipQuoted(text: string, i: nat, double: bool, chars: seq<QChar>, st: State)
    requires At(text, i, PrintPiece(Quoted(double, chars))) && ValidPiece(Quoted(double, chars))
    requires Bare(st)
    ensures Scan(text, i, st) == Scan(text, i + |PrintQChars(chars)| + 2, st)
  {
    var mark, end := if double then "\"" else "'", i + 1 + |PrintQChars(chars)|;
    var quoted := st.(quote := if double then Double else Single);
    AtEnclosed(text, i, mark, PrintQChars(chars), mark);
    SkipQChars(text, i + 1, chars, quoted);
  }

  lemma SkipTemplate(text: string, i: nat, parts: seq<TPart>, st: State)
    requires At(text, i, "`" + PrintTParts(parts) + "`") && ValidTParts(parts, 0)
    requires Bare(st) && st.templateDepth == 0
    ensures Scan(text, i, st) == Scan(text, i + |PrintTParts(parts)| + 2, st)
  {
    var quoted, end := st.(quote := Backtick), i + 1 + |PrintTParts(parts)|;
    AtEnclosed(text, i, "`", PrintTParts(parts), "`");
    SkipTParts(text, i + 1, parts, quoted);
  }

  lemma OpenerStep(text: string, i: nat, st: State)
    requires i < |text| && IsOpener(text[i]) && Bare(st)
    ensures Scan(text, i, st) == Scan(text, i + 1, st.(depth := st.depth + 1))
  {
  }

  lemma CloserStep(text: string, i: nat, st: State)
    requires i < |text| && IsCloser(text[i]) && Bare(st) && st.depth > 1
    ensures Scan(text, i, st) == Scan(text, i + 1, st.(depth := st.depth - 1))
  {
  }

  lemma GroupIsEnclosed(text: string, i: nat, open: char, inner: seq<Piece>, close: char)
    requires At(text, i, [open] + PrintPieces(inner) + [close])
    ensures At(text, i + 1, PrintPieces(inner)) && i + 1 + |PrintPieces(inner)| < |text|
    ensures text[i] == open && text[i + 1 + |PrintPieces(inner)|] == close
  {
    AtEnclosed(text, i, [open], PrintPieces(inner), [close]);
  }

  lemma {:induction false} SkipGroup(text: string, i: nat, open: char, inner: seq<Piece>, close: char, st: State)
    requires At(text, i, [open] + PrintPieces(inner) + [close])
    requires IsOpener(open) && IsCloser(close) && ValidPieces(inner)
    requires Bare(st) && st.templateDepth == 0 && st.depth >= 1
    ensures Scan(text, i, st) == Scan(text, i + |PrintPieces(inner)| + 2, st)
    decreases inner, 2
  {
    var deeper, end := st.(depth := st.depth + 1), i + 1 + |PrintPieces(inner)|;
    GroupIsEnclosed(text, i, open, inner, close);
    OpenerStep(text, i, st);
    SkipPieces(text, i + 1, inner, deeper);
    CloserStep(text, end, deeper);
  }

  // ---------- a whole call ----------

  /** Arguments separated by commas, then the closing parenthesis. */
  function PrintArgs(args: seq<seq<Piece>>): string
    requires args != []
  {
    if |args| == 1 then PrintPieces(args[0]) + ")" else PrintPieces(args[0]) + "," + PrintArgs(args[1..])
  }

  /** The offsets of the printed commas, then of the close. */
  function PrintedEvents(args: seq<seq<Piece>>, from: nat): seq<Event>
    requires args != []
  {
    var end := from + |PrintPieces(args[0])|;
    if |args| == 1 then [Close(end)] else [Comma(end)] + PrintedEvents(args[1..], end + 1)
  }

  predicate ValidArgs(args: seq<seq<Piece>>) {
    forall k :: 0 <= k < |args| ==> ValidPieces(args[k]) && NoSeparator(args[k])
  }

  lemma LastArgument(text: string, i: nat, arg: seq<Piece>)
    requires ValidPieces(arg) && NoSeparator(arg) && At(text, i, PrintPieces(arg) + ")")
    ensures Scan(text, i, TOP) == [Close(i + |PrintPieces(arg)|)]
  {
    AtSplit(text, i, PrintPieces(arg), ")");
    SkipPieces(text, i, arg, TOP);
    AtFirst(text, i + |PrintPieces(arg)|, ")");
  }

  lemma EarlierArgument(text: string, i: nat, arg: seq<Piece>)
    requires ValidPieces(arg) && NoSeparator(arg) && At(text, i, PrintPieces(arg) + ",")
    ensures var end := i + |PrintPieces(arg)|;
            Scan(text, i, TOP) == [Comma(end)] + Scan(text, end + 1, TOP)
  {
    AtSplit(text, i, PrintPieces(arg), ",");
    SkipPieces(text, i, arg, TOP);
    AtFirst(text, i + |PrintPieces(arg)|, ",");
  }

  /** Print/scan agreement: scanning a printed argument list finds exactly the
      printed top-level commas and the matching close. */
  lemma {:induction false} ScanFindsPrintedArgs(text: string, i: nat, args: seq<seq<Piece>>)
    requires args != [] && ValidArgs(args) && At(text, i, PrintArgs(args))
    ensures Scan(text, i, TOP) == PrintedEvents(args, i)
    decreases |args|
  {
    if |args| == 1 {
      LastArgument(text, i, args[0]);
    } else {
      AtSplit(text, i, PrintPieces(args[0]) + ",", PrintArgs(args[1..]));
      EarlierArgument(text, i, args[0]);
      ScanFindsPrintedArgs(text, i + |PrintPieces(args[0])| + 1, args[1..]);
    }
  }

  // ---------- the first argument ----------

  /** The first argument of the call whose parenthesis is at `start`, and where it ends. */
  method ExtractUrlExpression(text: string, start: nat) returns (found: Option<(string, nat)>)
    ensures found == FirstArgument(text, start)
  {
    if start >= |text| || text[start] != '(' {
      return None;
    }
    var events := TopLevelPositions(text, start);
    ScanIsWellPlaced(text, start + 1, TOP);
    if events == [] {
      return None;
    }
    var end := events[0].pos;
    found := Some((Strip(text[start + 1..end]), end));
  }

  function FirstArgument(text: string, start: nat): Option<(string, nat)> {
    if start >= |text| || text[start] != '(' then None
    else
      var events := Scan(text, start + 1, TOP);
      if events == [] then None
      else
        ScanIsWellPlaced(text, start + 1, TOP);
        Some((Strip(text[start + 1..events[0].pos]), events[0].pos))
  }

  lemma FirstArgumentAt(text: string, start: nat, first: string)
    requires start < |text| && text[start] == '(' && At(text, start + 1, first)
    requires Scan(text, start + 1, TOP) != [] && Scan(text, start + 1, TOP)[0].pos == start + 1 + |first|
    ensures FirstArgument(text, start) == Some((Strip(first), start + 1 + |first|))
  {
    AtIsSlice(text, start + 1, first);
  }

  /** Of any printed call, wherever it stands, exactly the first argument is read. */
  lemma FirstPrintedArgument(before: string, args: seq<seq<Piece>>, after: string)
    requires args != [] && ValidArgs(args)
    ensures FirstArgument(before + "(" + PrintArgs(args) + after, |before|) ==
            Some((Strip(PrintPieces(args[0])), |before| + 1 + |PrintPieces(args[0])|))
  {
    var text := before + "(" + PrintArgs(args) + after;
    SliceIsAt(before + "(", PrintArgs(args), after);
    FirstOfPrinted(text, |before|, args);
  }

  lemma FirstOfPrinted(text: string, start: nat, args: seq<seq<Piece>>)
    requires args != [] && ValidArgs(args) && start < |text| && text[start] == '(' && At(text, start + 1, PrintArgs(args))
    ensures FirstArgument(text, start) == Some((Strip(PrintPieces(args[0])), start + 1 + |PrintPieces(args[0])|))
  {
    ScanFindsPrintedArgs(text, start + 1, args);
    FirstIsPrinted(text, start + 1, args);
    FirstArgumentAt(text, start, PrintPieces(args[0]));
  }

  lemma FirstIsPrinted(text: string, i: nat, args: seq<seq<Piece>>)
    requires args != [] && At(text, i, PrintArgs(args))
    ensures At(text, i, PrintPieces(args[0]))
  {
    var first := PrintPieces(args[0]);
    if |args| == 1 {
      AtSplit(text, i, first, ")");
    } else {
      AtSplit(text, i, first + ",", PrintArgs(args[1..]));
      AtSplit(text, i, first, ",");
    }
  }

  // ---------- calls without an argument, or without a close ----------

  predicate AllSpace(s: string) {
    forall i :: 0 <= i < |s| ==> IsSpace(s[i])
  }

  lemma {:induction false} StripRightIsEmptyIff(s: string)
    ensures StripRight(s) == "" <==> AllSpace(s)
  {
    if s != "" && IsSpace(s[|s| - 1]) {
      StripRightIsEmptyIff(s[..|s| - 1]);
      assert s == s[..|s| - 1] + [s[|s| - 1]];
    }
  }

  lemma {:induction false} StripIsEmptyIff(s: string)
    ensures Strip(s) == "" <==> AllSpace(s)
  {
    if s != "" && IsSpace(s[0]) {
      StripIsEmptyIff(s[1..]);
      assert s == [s[0]] + s[1..];
    } else {
      StripRightIsEmptyIff(s);
    }
  }

  /** On every text, the expression read is empty exactly when only whitespace stands
      before the first event; an expression is read exactly when there is an event. */
  lemma ExtractedIsEmptyIff(text: string, start: nat)
    requires start < |text| && text[start] == '('
    ensures var events := Scan(text, start + 1, TOP);
            && (FirstArgument(text, start).Some? <==> events != [])
            && (events != [] ==> start + 1 <= events[0].pos < |text|)
            && (events != [] ==> (FirstArgument(text, start).value.0 == "" <==> AllSpace(text[start + 1..events[0].pos])))
  {
    ScanIsWellPlaced(text, start + 1, TOP);
    var events := Scan(text, start + 1, TOP);
    if events != [] {
      StripIsEmptyIff(text[start + 1..events[0].pos]);
    }
  }

  function Letters(text: string): seq<Piece> {
    seq(|text|, i requires 0 <= i < |text| => Letter(text[i]))
  }

  lemma {:induction false} LettersPrint(text: string)
    requires forall i :: 0 <= i < |text| ==> IsLetter(text[i])
    ensures PrintPieces(Letters(text)) == text && ValidPieces(Letters(text)) && NoSeparator(Letters(text))
  {
    if text != "" {
      LettersPrint(text[1..]);
      assert Letters(text)[1..] == Letters(text[1..]);
      assert text == [text[0]] + text[1..];
    }
  }

  /** A call with only whitespace in it yields an empty expression rather than nothing. */
  lemma EmptyCallYieldsEmptyExpression(before: string, blank: string, after: string)
    requires AllSpace(blank)
    ensures FirstArgument(before + "(" + blank + ")" + after, |before|) == Some(("", |before| + 1 + |blank|))
  {
    LettersPrint(blank);
    FirstPrintedArgument(before, [Letters(blank)], after);
    assert before + "(" + PrintArgs([Letters(blank)]) + after == before + "(" + blank + ")" + after;
    StripIsEmptyIff(blank);
  }

  /** An argument list whose closing parenthesis is missing. */
  function PrintOpenArgs(args: seq<seq<Piece>>): string
    requires args != []
  {
    if |args| == 1 then PrintPieces(args[0]) else PrintPieces(args[0]) + "," + PrintOpenArgs(args[1..])
  }

  function OpenEvents(args: seq<seq<Piece>>, from: nat): seq<Event>
    requires args != []
  {
    var end := from + |PrintPieces(args[0])|;
    if |args| == 1 then [] else [Comma(end)] + OpenEvents(args[1..], end + 1)
  }

  /** Text that ends before the call closes yields exactly the commas printed, so
      nothing if and only if it is a single argument. */
  lemma {:induction false} UnclosedCallYieldsCommas(text: string, i: nat, args: seq<seq<Piece>>)
    requires args != [] && ValidArgs(args)
    requires At(text, i, PrintOpenArgs(args)) && i + |PrintOpenArgs(args)| == |text|
    ensures Scan(text, i, TOP) == OpenEvents(args, i)
    ensures Scan(text, i, TOP) == [] <==> |args| == 1
    decreases |args|
  {
    if |args| == 1 {
      SkipPieces(text, i, args[0], TOP);
    } else {
      AtSplit(text, i, PrintPieces(args[0]) + ",", PrintOpenArgs(args[1..]));
      EarlierArgument(text, i, args[0]);
      UnclosedCallYieldsCommas(text, i + |PrintPieces(args[0])| + 1, args[1..]);
    }
  }

  lemma FirstIsPrintedOpen(text: string, i: nat, args: seq<seq<Piece>>)
    requires args != [] && At(text, i, PrintOpenArgs(args))
    ensures At(text, i, PrintPieces(args[0]))
  {
    if |args| > 1 {
      AtSplit(text, i, PrintPieces(args[0]) + ",", PrintOpenArgs(args[1..]));
      AtSplit(text, i, PrintPieces(args[0]), ",");
    }
  }

  /** So the first argument of an unclosed call is read all the same, unless it is
      the only one. */
  lemma UnclosedFirstArgument(text: string, start: nat, args: seq<seq<Piece>>)
    requires args != [] && ValidArgs(args) && start < |text| && text[start] == '('
    requires At(text, start + 1, PrintOpenArgs(args)) && start + 1 + |PrintOpenArgs(args)| == |text|
    ensures FirstArgument(text, start) ==
            if |args| == 1 then None else Some((Strip(PrintPieces(args[0])), start + 1 + |PrintPieces(args[0])|))
  {
    UnclosedCallYieldsCommas(text, start + 1, args);
    if |args| > 1 {
      FirstIsPrintedOpen(text, start + 1, args);
      FirstArgumentAt(text, start, PrintPieces(args[0]));
    }
  }

  lemma SliceIsAt(before: string, part: string, after: string)
    ensures At(before + part + after, |before|, part)
  {
  }
}
