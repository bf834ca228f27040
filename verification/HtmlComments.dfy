/** Replacing comment spans in a commit body (`scripts/build_release_digest.py`,
    `strip_html_comments`). */
module HtmlComments {
  import opened Prelude

  /** `<!--` stands at this position. */
  predicate OpensAt(text: string, k: int) {
    0 <= k && k + 4 <= |text| && text[k] == '<' && text[k + 1] == '!' && text[k + 2] == '-' && text[k + 3] == '-'
  }

  /** `-->` stands at this position. */
  predicate ClosesAt(text: string, k: int) {
    0 <= k && k + 3 <= |text| && text[k] == '-' && text[k + 1] == '-' && text[k + 2] == '>'
  }

  predicate NoOpener(text: string, lo: int, hi: int) {
    forall k :: lo <= k < hi ==> !OpensAt(text, k)
  }

  predicate NoCloser(text: string, lo: int, hi: int) {
    forall k :: lo <= k < hi ==> !ClosesAt(text, k)
  }

  /** `str.find`: the first position at or after `from`, or -1. */
  function FindOpener(text: string, from: nat): (k: int)
    ensures k == -1 ==> NoOpener(text, from, |text|)
    ensures k != -1 ==> from <= k && OpensAt(text, k) && NoOpener(text, from, k)
    decreases |text| - from
  {
    if from >= |text| then -1 else if OpensAt(text, from) then from else FindOpener(text, from + 1)
  }

  function FindCloser(text: string, from: nat): (k: int)
    ensures k == -1 ==> NoCloser(text, from, |text|)
    ensures k != -1 ==> from <= k && ClosesAt(text, k) && NoCloser(text, from, k)
    decreases |text| - from
  {
    if from >= |text| then -1 else if ClosesAt(text, from) then from else FindCloser(text, from + 1)
  }

  // ---------- what a span is ----------

  datatype Span = Span(start: nat, end: nat)

  predicate IsOpenedAndClosed(text: string, from: int, i: int, j: int) {
    from <= i && i + 4 <= j && OpensAt(text, i) && ClosesAt(text, j)
  }

  /** An opener that a closer follows four or more characters later. */
  ghost predicate HasSpan(text: string, from: nat) {
    exists i, j :: IsOpenedAndClosed(text, from, i, j)
  }

  /** The first opener from here on, up to the first closer after it. */
  predicate IsFirstSpan(text: string, from: nat, s: Span) {
    && from <= s.start && s.start + 7 <= s.end <= |text|
    && OpensAt(text, s.start) && NoOpener(text, from, s.start)
    && ClosesAt(text, s.end - 3) && NoCloser(text, s.start + 4, s.end - 3)
  }

  function NextSpan(text: string, from: nat): (s: Option<Span>)
    ensures s.Some? ==> IsFirstSpan(text, from, s.value)
    ensures s.None? <==> !HasSpan(text, from)
  {
    var start := FindOpener(text, from);
    if start == -1 then
      assert forall i, j :: IsOpenedAndClosed(text, from, i, j) ==> OpensAt(text, i);
      None
    else
      var end := FindCloser(text, start + 4);
      if end == -1 then
        assert forall i, j :: IsOpenedAndClosed(text, from, i, j) ==> start <= i && ClosesAt(text, j);
        None
      else
        assert IsOpenedAndClosed(text, from, start, end);
        Some(Span(start, end + 3))
  }

  // ---------- the scan ----------

  function StripFrom(text: string, from: nat): string
    requires from <= |text|
    decreases |text| - from
  {
    var next := NextSpan(text, from);
    if next.None? then text[from..]
    else text[from..next.value.start] + " " + StripFrom(text, next.value.end)
  }

  lemma Regroup(done: string, kept: string, left: string)
    ensures done + (kept + " " + left) == done + kept + " " + left
  {
  }

  /** The two `find` calls of one round: where the next span starts and where its
      closer stands, or -1 when there is no span left. */
  method FindSpan(text: string, pos: nat) returns (start: int, end: int)
    ensures end == -1 || pos <= start <= end
    ensures NextSpan(text, pos) == if end == -1 then None else Some(Span(start, end + 3))
  {
    start := FindOpener(text, pos);
    end := if start == -1 then -1 else FindCloser(text, start + 4);
  }

  method StripHtmlComments(text: string) returns (r: string)
    ensures r == StripFrom(text, 0)
  {
    r := "";
    var pos := 0;
    ghost var left := StripFrom(text, 0);
    while true
      invariant 0 <= pos <= |text| && left == StripFrom(text, pos) && r + left == StripFrom(text, 0)
      decreases |text| - pos
    {
      var start, end := FindSpan(text, pos);
      if end == -1 {
        return r + text[pos..];
      }
      left := StripFrom(text, end + 3);
      Regroup(r, text[pos..start], left);
      r := r + text[pos..start] + " ";
      pos := end + 3;
    }
  }

  /** The spans of the text from here on, left to right; after them there is none. */
  ghost predicate AreSpans(text: string, from: nat, spans: seq<Span>)
    decreases |spans|
  {
    if spans == [] then !HasSpan(text, from)
    else IsFirstSpan(text, from, spans[0]) && AreSpans(text, spans[0].end, spans[1..])
  }

  /** The text outside the spans, in order, with one space for each. */
  ghost function Filled(text: string, from: nat, spans: seq<Span>): string
    requires from <= |text| && AreSpans(text, from, spans)
    decreases |spans|
  {
    if spans == [] then text[from..]
    else text[from..spans[0].start] + " " + Filled(text, spans[0].end, spans[1..])
  }

  lemma FirstSpanIsNext(text: string, from: nat, s: Span)
    requires IsFirstSpan(text, from, s)
    ensures NextSpan(text, from) == Some(s)
  {
  }

  lemma StripAtSpan(text: string, from: nat, s: Span)
    requires from <= |text| && IsFirstSpan(text, from, s)
    ensures StripFrom(text, from) == text[from..s.start] + " " + StripFrom(text, s.end)
  {
    FirstSpanIsNext(text, from, s);
  }

  /** The scan keeps exactly the text outside the spans. */
  lemma {:induction false} StripIsFilled(text: string, from: nat, spans: seq<Span>)
    requires from <= |text| && AreSpans(text, from, spans)
    ensures StripFrom(text, from) == Filled(text, from, spans)
    decreases |spans|
  {
    if spans != [] {
      FirstSpanIsNext(text, from, spans[0]);
      StripIsFilled(text, spans[0].end, spans[1..]);
    }
  }

  /** Every text has its spans, so the lemma above speaks about every text. */
  lemma {:induction false} SpansExist(text: string, from: nat) returns (spans: seq<Span>)
    requires from <= |text|
    ensures AreSpans(text, from, spans)
    decreases |text| - from
  {
    var next := NextSpan(text, from);
    spans := [];
    if next.Some? {
      var rest := SpansExist(text, next.value.end);
      spans := [next.value] + rest;
      assert spans[1..] == rest;
    }
  }

  // ---------- the result holds no span ----------

  lemma NoSpanInTail(text: string, from: nat)
    requires from <= |text| && !HasSpan(text, from)
    ensures !HasSpan(text[from..], 0)
  {
    if i, j :| IsOpenedAndClosed(text[from..], 0, i, j) {
      assert IsOpenedAndClosed(text, from, from + i, from + j);
    }
  }

  /** An opener cannot straddle the space put in place of a span. */
  lemma NoSpanAcrossSpace(before: string, after: string)
    requires (forall k :: 0 <= k < |before| ==> !OpensAt(before, k)) && !HasSpan(after, 0)
    ensures !HasSpan(before + " " + after, 0)
  {
    var whole := before + " " + after;
    var n := |before|;
    if i, j :| IsOpenedAndClosed(whole, 0, i, j) {
      if i > n {
        ShiftedSpan(before + " ", after, i, j);
      } else if i + 4 <= n {
        assert OpensAt(before, i);
      } else {
        assert whole[n] == ' ';
      }
    }
  }

  lemma ShiftedSpan(before: string, after: string, i: int, j: int)
    requires IsOpenedAndClosed(before + after, 0, i, j) && i >= |before|
    ensures IsOpenedAndClosed(after, 0, i - |before|, j - |before|)
  {
  }

  lemma NoOpenerInGap(text: string, from: nat, start: nat, k: int)
    requires from <= start <= |text|
    ensures OpensAt(text[from..start], k) ==> from + k < start && OpensAt(text, from + k)
  {
  }

  lemma {:induction false} StrippedHasNoSpan(text: string, from: nat)
    requires from <= |text|
    ensures !HasSpan(StripFrom(text, from), 0)
    decreases |text| - from
  {
    var next := NextSpan(text, from);
    if next.Some? {
      var s := next.value;
      StrippedHasNoSpan(text, s.end);
      forall k | 0 <= k < s.start - from ensures !OpensAt(text[from..s.start], k) {
        NoOpenerInGap(text, from, s.start, k);
      }
      NoSpanAcrossSpace(text[from..s.start], StripFrom(text, s.end));
    } else {
      NoSpanInTail(text, from);
    }
  }

  lemma {:induction false} StrippedIsNotLonger(text: string, from: nat)
    requires from <= |text|
    ensures |StripFrom(text, from)| <= |text| - from
    ensures HasSpan(text, from) ==> |StripFrom(text, from)| < |text| - from
    decreases |text| - from
  {
    var next := NextSpan(text, from);
    if next.Some? {
      StrippedIsNotLonger(text, next.value.end);
    }
  }

  /** The pass changes a text exactly when there is a span in it. */
  lemma FixedIffNoSpan(text: string)
    ensures StripFrom(text, 0) == text <==> !HasSpan(text, 0)
  {
  }

  /** Running it twice is running it once. */
  lemma StripTwice(text: string)
    ensures StripFrom(StripFrom(text, 0), 0) == StripFrom(text, 0)
  {
    StrippedHasNoSpan(text, 0);
    FixedIffNoSpan(StripFrom(text, 0));
  }

  // ---------- one written comment ----------

  ghost predicate Occurs(text: string, part: string, k: nat) {
    k + |part| <= |text| && text[k..k + |part|] == part
  }

  ghost predicate IsFreeOf(text: string, part: string) {
    forall k: nat :: !Occurs(text, part, k)
  }

  lemma OpensIffSpelled(text: string, k: nat)
    requires k + 4 <= |text|
    ensures OpensAt(text, k) <==> text[k..k + 4] == "<!--"
  {
    assert text[k..k + 4] == [text[k], text[k + 1], text[k + 2], text[k + 3]];
  }

  lemma ClosesIffSpelled(text: string, k: nat)
    requires k + 3 <= |text|
    ensures ClosesAt(text, k) <==> text[k..k + 3] == "-->"
  {
    assert text[k..k + 3] == [text[k], text[k + 1], text[k + 2]];
  }

  lemma SliceOfSlice(text: string, lo: nat, hi: nat, i: nat, j: nat)
    requires lo <= i <= j <= hi <= |text|
    ensures text[lo..hi][i - lo..j - lo] == text[i..j]
  {
    var slice := text[lo..hi];
    assert forall k :: i <= k < j ==> slice[k - lo] == text[k];
  }

  /** What is free of openers stays so in front of one. */
  lemma FreeOfOpeners(text: string, lo: nat, hi: nat)
    requires lo <= hi && OpensAt(text, hi) && IsFreeOf(text[lo..hi], "<!--")
    ensures NoOpener(text, lo, hi)
  {
    forall k | lo <= k < hi ensures !OpensAt(text, k) {
      OpensIffSpelled(text, k);
      if k + 4 <= hi {
        SliceOfSlice(text, lo, hi, k, k + 4);
        assert !Occurs(text[lo..hi], "<!--", k - lo);
      }
    }
  }

  /** What is free of closers stays so in front of one, and at the end of the text. */
  lemma FreeOfClosers(text: string, lo: nat, hi: nat)
    requires lo <= hi && (ClosesAt(text, hi) || hi == |text|) && IsFreeOf(text[lo..hi], "-->")
    ensures NoCloser(text, lo, hi)
  {
    forall k | lo <= k < hi ensures !ClosesAt(text, k) {
      if k + 3 <= hi {
        ClosesIffSpelled(text, k);
        SliceOfSlice(text, lo, hi, k, k + 3);
        assert !Occurs(text[lo..hi], "-->", k - lo);
      }
    }
  }

  /** From here on the text holds a comment: something free of openers, an opener,
      something free of closers, a closer. */
  ghost predicate HoldsComment(text: string, from: nat, s: Span) {
    && from <= s.start && s.start + 7 <= s.end <= |text|
    && IsFreeOf(text[from..s.start], "<!--") && text[s.start..s.start + 4] == "<!--"
    && IsFreeOf(text[s.start + 4..s.end - 3], "-->") && text[s.end - 3..s.end] == "-->"
  }

  lemma CommentIsNext(text: string, from: nat, s: Span)
    requires HoldsComment(text, from, s)
    ensures IsFirstSpan(text, from, s)
  {
    OpensIffSpelled(text, s.start);
    ClosesIffSpelled(text, s.end - 3);
    FreeOfOpeners(text, from, s.start);
    FreeOfClosers(text, s.start + 4, s.end - 3);
  }

  /** The scan keeps what is before a comment, puts one space for it whatever it says,
      and goes on behind it. */
  lemma CommentIsReplaced(text: string, from: nat, s: Span)
    requires HoldsComment(text, from, s)
    ensures StripFrom(text, from) == text[from..s.start] + " " + StripFrom(text, s.end)
  {
    CommentIsNext(text, from, s);
    StripAtSpan(text, from, s);
  }

  /** From here on the text holds an opener that nothing behind it closes. */
  ghost predicate HoldsOpener(text: string, from: nat, i: nat) {
    && from <= i && i + 4 <= |text| && IsFreeOf(text[from..i], "<!--") && text[i..i + 4] == "<!--"
    && IsFreeOf(text[i + 4..|text|], "-->")
  }

  lemma NothingCloses(text: string, from: nat, i: nat)
    requires HoldsOpener(text, from, i)
    ensures !HasSpan(text, from)
  {
    OpensIffSpelled(text, i);
    FreeOfOpeners(text, from, i);
    FreeOfClosers(text, i + 4, |text|);
    forall k, j ensures !IsOpenedAndClosed(text, from, k, j) {
      assert from <= k < i ==> !OpensAt(text, k);
      assert i + 4 <= j < |text| ==> !ClosesAt(text, j);
    }
  }

  /** Such an opener stays, and so does all around it. */
  lemma UnclosedCommentStays(text: string, from: nat, i: nat)
    requires HoldsOpener(text, from, i)
    ensures StripFrom(text, from) == text[from..]
  {
    NothingCloses(text, from, i);
  }

  // ---------- when lines are joined ----------

  function Newlines(text: string): nat {
    if text == "" then 0 else (if text[0] == '\n' then 1 else 0) + Newlines(text[1..])
  }

  lemma {:induction false} NewlinesAppend(a: string, b: string)
    ensures Newlines(a + b) == Newlines(a) + Newlines(b)
  {
    if a == "" {
      assert a + b == b;
    } else {
      assert (a + b)[1..] == a[1..] + b;
      NewlinesAppend(a[1..], b);
    }
  }

  lemma {:induction false} NoNewlineIffZero(text: string)
    ensures Newlines(text) == 0 <==> '\n' !in text
  {
    if text != "" {
      NoNewlineIffZero(text[1..]);
      assert text == [text[0]] + text[1..];
    }
  }

  /** The newlines inside the spans. */
  ghost function NewlinesInSpans(text: string, from: nat, spans: seq<Span>): nat
    requires from <= |text| && AreSpans(text, from, spans)
    decreases |spans|
  {
    if spans == [] then 0
    else Newlines(text[spans[0].start..spans[0].end]) + NewlinesInSpans(text, spans[0].end, spans[1..])
  }

  lemma NewlinesSplit(text: string, from: nat, s: Span)
    requires from <= s.start <= s.end <= |text|
    ensures Newlines(text[from..]) ==
            Newlines(text[from..s.start]) + Newlines(text[s.start..s.end]) + Newlines(text[s.end..])
  {
    assert text[from..] == text[from..s.start] + text[s.start..];
    NewlinesAppend(text[from..s.start], text[s.start..]);
    assert text[s.start..] == text[s.start..s.end] + text[s.end..];
    NewlinesAppend(text[s.start..s.end], text[s.end..]);
  }

  lemma SpacedNewlines(a: string, b: string)
    ensures Newlines(a + " " + b) == Newlines(a) + Newlines(b)
  {
    NewlinesAppend(a + " ", b);
    NewlinesAppend(a, " ");
    assert Newlines(" ") == Newlines(" "[1..]);
  }

  /** Every newline of the text is in the result or in a removed span. */
  lemma {:induction false} NewlinesAreAccounted(text: string, from: nat, spans: seq<Span>)
    requires from <= |text| && AreSpans(text, from, spans)
    ensures Newlines(text[from..]) == Newlines(StripFrom(text, from)) + NewlinesInSpans(text, from, spans)
    decreases |spans|
  {
    if spans == [] {
      StripIsFilled(text, from, spans);
    } else {
      var s := spans[0];
      NewlinesAreAccounted(text, s.end, spans[1..]);
      StripAtSpan(text, from, s);
      NewlinesSplit(text, from, s);
      SpacedNewlines(text[from..s.start], StripFrom(text, s.end));
    }
  }

  ghost predicate SpanFreeOfNewlines(text: string, s: Span)
    requires s.start <= s.end <= |text|
  {
    '\n' !in text[s.start..s.end]
  }

  ghost predicate NoSpanHoldsNewline(text: string, from: nat, spans: seq<Span>)
    requires from <= |text| && AreSpans(text, from, spans)
    decreases |spans|
  {
    spans == [] || (SpanFreeOfNewlines(text, spans[0]) && NoSpanHoldsNewline(text, spans[0].end, spans[1..]))
  }

  lemma {:induction false} SpansHoldNoneIff(text: string, from: nat, spans: seq<Span>)
    requires from <= |text| && AreSpans(text, from, spans)
    ensures NewlinesInSpans(text, from, spans) == 0 <==> NoSpanHoldsNewline(text, from, spans)
    decreases |spans|
  {
    if spans != [] {
      NoNewlineIffZero(text[spans[0].start..spans[0].end]);
      SpansHoldNoneIff(text, spans[0].end, spans[1..]);
    }
  }

  /** The pass keeps the lines of a text apart if and only if no removed span holds a
      newline; otherwise it has that many lines fewer. */
  lemma LinesKeptIff(text: string, spans: seq<Span>)
    requires AreSpans(text, 0, spans)
    ensures Newlines(StripFrom(text, 0)) == Newlines(text) - NewlinesInSpans(text, 0, spans)
    ensures Newlines(StripFrom(text, 0)) == Newlines(text) <==> NoSpanHoldsNewline(text, 0, spans)
  {
    assert text[0..] == text;
    NewlinesAreAccounted(text, 0, spans);
    SpansHoldNoneIff(text, 0, spans);
  }

  lemma OneSpan(text: string, s: Span)
    requires IsFirstSpan(text, 0, s) && !HasSpan(text, s.end)
    ensures AreSpans(text, 0, [s]) && StripFrom(text, 0) == text[..s.start] + " " + text[s.end..]
  {
    assert [s][1..] == [];
    StripIsFilled(text, 0, [s]);
  }

  /** A whole line of a text, from `i` up to `j`. */
  predicate IsLine(text: string, i: nat, j: nat) {
    && i <= j <= |text| && '\n' !in text[i..j]
    && (i == 0 || text[i - 1] == '\n') && (j == |text| || text[j] == '\n')
  }

  /** The span stands between the start of a line and the end of a later one. */
  predicate SpansLines(text: string, s: Span, i: nat, j: nat) {
    && i <= s.start <= s.end <= j <= |text| && '\n' in text[s.start..s.end]
    && (i == 0 || text[i - 1] == '\n') && '\n' !in text[i..s.start]
    && '\n' !in text[s.end..j] && (j == |text| || text[j] == '\n')
  }

  /** A comment over a line end joins two lines: what stands before it on its first
      line and what follows it on its last end up on one. */
  lemma CommentCanJoinLines(text: string, s: Span, i: nat, j: nat)
    requires IsFirstSpan(text, 0, s) && !HasSpan(text, s.end) && SpansLines(text, s, i, j)
    ensures var result, end := StripFrom(text, 0), s.start + 1 + (j - s.end);
            && IsLine(result, i, end) && result[i..end] == text[i..s.start] + " " + text[s.end..j]
            && Newlines(result) < Newlines(text)
  {
    OneSpan(text, s);
    LineStays(text, s, i, j);
    NewlinesSplit(text, 0, s);
    SpacedNewlines(text[..s.start], text[s.end..]);
    NoNewlineIffZero(text[s.start..s.end]);
    assert text[0..] == text && text[0..s.start] == text[..s.start];
  }

  lemma LineStays(text: string, s: Span, i: nat, j: nat)
    requires SpansLines(text, s, i, j)
    ensures var result, end := text[..s.start] + " " + text[s.end..], s.start + 1 + (j - s.end);
            IsLine(result, i, end) && result[i..end] == text[i..s.start] + " " + text[s.end..j]
  {
    var result := text[..s.start] + " " + text[s.end..];
    var a, b, c, d := text[..i], text[i..s.start], text[s.end..j], text[j..];
    assert text[..s.start] == a + b && text[s.end..] == c + d;
    SpaceGroups(a, b, c, d);
    MiddleIs(a, b + " " + c, d);
  }

  lemma SpaceGroups(a: string, b: string, c: string, d: string)
    ensures a + b + " " + (c + d) == a + (b + " " + c) + d
  {
  }

  lemma MiddleIs(a: string, mid: string, d: string)
    ensures (a + mid + d)[|a|..|a| + |mid|] == mid
    ensures a != "" ==> (a + mid + d)[|a| - 1] == a[|a| - 1]
    ensures d != "" ==> (a + mid + d)[|a| + |mid|] == d[0]
  {
  }
}
