/** Dropping review chatter and structural lines from a commit body
    (`scripts/build_release_digest.py`) without ever welding two lines together. The
    line patterns of the source are arbitrary predicates here. */
module ReviewBlocks {
  import opened Prelude

  // ---------- lines ----------

  /** `body.split("\n")`: never empty. */
  function Split(body: string): (lines: seq<string>)
    ensures lines != []
  {
    if body == "" then [""]
    else
      var rest := Split(body[1..]);
      if body[0] == '\n' then [""] + rest else [[body[0]] + rest[0]] + rest[1..]
  }

  /** `"\n".join(lines)` */
  function Join(lines: seq<string>): string {
    if lines == [] then ""
    else if |lines| == 1 then lines[0]
    else lines[0] + "\n" + Join(lines[1..])
  }

  ghost predicate AreLines(lines: seq<string>) {
    forall i :: 0 <= i < |lines| ==> '\n' !in lines[i]
  }

  lemma {:induction false} SplitGivesLines(body: string)
    ensures AreLines(Split(body))
  {
    if body != "" {
      SplitGivesLines(body[1..]);
      var rest := Split(body[1..]);
      assert '\n' !in rest[0];
      if body[0] != '\n' {
        assert '\n' !in [body[0]] + rest[0];
      }
    }
  }

  lemma {:induction false} SplitFirstLine(line: string, tail: string)
    requires '\n' !in line
    ensures Split(line + "\n" + tail) == [line] + Split(tail)
  {
    var body := line + "\n" + tail;
    if line == "" {
      assert body[0] == '\n' && body[1..] == tail;
    } else {
      assert body[0] == line[0] && body[1..] == line[1..] + "\n" + tail;
      SplitFirstLine(line[1..], tail);
      assert [line[0]] + line[1..] == line;
    }
  }

  lemma {:induction false} SplitOneLine(line: string)
    requires '\n' !in line
    ensures Split(line) == [line]
  {
    if line != "" {
      SplitOneLine(line[1..]);
      assert [line[0]] + line[1..] == line;
    }
  }

  /** Joined lines split back into themselves. */
  lemma {:induction false} SplitJoin(lines: seq<string>)
    requires lines != [] && AreLines(lines)
    ensures Split(Join(lines)) == lines
  {
    assert '\n' !in lines[0];
    if |lines| == 1 {
      SplitOneLine(lines[0]);
    } else {
      SplitFirstLine(lines[0], Join(lines[1..]));
      SplitJoin(lines[1..]);
    }
  }

  // ---------- patterns ----------

  datatype Patterns = Patterns(
    reviewOpener: string -> bool, severity: string -> bool, heading: string -> bool,
    bullet: string -> bool, indented: string -> bool,
    fence: string -> bool, tableRow: string -> bool, issueRef: string -> bool, trailer: string -> bool)

  predicate Blank(line: string) {
    Strip(line) == ""
  }

  predicate Continues(p: Patterns, line: string) {
    p.bullet(line) || p.indented(line) || p.severity(line)
  }

  predicate Opens(p: Patterns, line: string) {
    p.reviewOpener(line) || p.severity(line)
  }

  // ---------- where a review block ends ----------

  /** The block opened at `start` ends before line `k`: prose, or a heading. A blank
      line that reads as a heading ends it only when it is the first of its run. */
  predicate StopsAt(p: Patterns, lines: seq<string>, start: nat, k: nat)
    requires start < k < |lines|
  {
    if Blank(lines[k]) then p.heading(lines[k]) && (k == start + 1 || !Blank(lines[k - 1]))
    else p.heading(lines[k]) || !Continues(p, lines[k])
  }

  predicate RunsOn(p: Patterns, lines: seq<string>, start: nat, k: nat)
    requires start < k <= |lines|
  {
    forall j {:trigger StopsAt(p, lines, start, j)} :: start < j < k ==> !StopsAt(p, lines, start, j)
  }

  /** The first line the block does not take, or the number of lines. */
  ghost predicate IsBlockEnd(p: Patterns, lines: seq<string>, start: nat, end: nat) {
    start < end <= |lines| && RunsOn(p, lines, start, end) && (end < |lines| ==> StopsAt(p, lines, start, end))
  }

  function BlockEnd(p: Patterns, lines: seq<string>, start: nat, k: nat): (end: nat)
    requires start < k <= |lines| && RunsOn(p, lines, start, k)
    ensures IsBlockEnd(p, lines, start, end)
    decreases |lines| - k
  {
    if k == |lines| || StopsAt(p, lines, start, k) then k else BlockEnd(p, lines, start, k + 1)
  }

  method FirstNonBlank(lines: seq<string>, from: nat) returns (probe: nat)
    requires from <= |lines|
    ensures from <= probe <= |lines| && (probe < |lines| ==> !Blank(lines[probe]))
    ensures forall k :: from <= k < probe ==> Blank(lines[k])
  {
    probe := from;
    while probe < |lines| && Blank(lines[probe])
      invariant from <= probe <= |lines|
      invariant forall k :: from <= k < probe ==> Blank(lines[k])
    {
      probe := probe + 1;
    }
  }

  /** The scan past a block always advances, and stops at the block's end. */
  method SkipReviewBlock(p: Patterns, lines: seq<string>, start: nat) returns (end: nat)
    requires start < |lines|
    ensures IsBlockEnd(p, lines, start, end)
  {
    var index := start + 1;
    while index < |lines|
      invariant start < index <= |lines| && RunsOn(p, lines, start, index)
      invariant index == start + 1 || index == |lines| || !Blank(lines[index]) || !Blank(lines[index - 1])
    {
      var line := lines[index];
      if p.heading(line) {
        return index;
      }
      if Blank(line) {
        var probe := FirstNonBlank(lines, index + 1);
        forall j | index < j < probe ensures !StopsAt(p, lines, start, j) {
          assert Blank(lines[j]) && Blank(lines[j - 1]);
        }
        if probe >= |lines| || !Continues(p, lines[probe]) {
          return probe;
        }
        index := probe;
        continue;
      }
      if !Continues(p, line) {
        return index;
      }
      index := index + 1;
    }
    return index;
  }

  // ---------- dropping review blocks ----------

  /** Where a line of the result comes from: a line of the input, or the gap left by
      something removed. */
  datatype Origin = From(index: nat) | Gap

  function ReviewOrigins(p: Patterns, lines: seq<string>, i: nat): seq<Origin>
    requires i <= |lines|
    decreases |lines| - i
  {
    if i == |lines| then []
    else if Opens(p, lines[i]) then [Gap] + ReviewOrigins(p, lines, BlockEnd(p, lines, i, i + 1))
    else [From(i)] + ReviewOrigins(p, lines, i + 1)
  }

  ghost predicate Within(origins: seq<Origin>, n: nat) {
    forall k :: 0 <= k < |origins| && origins[k].From? ==> origins[k].index < n
  }

  /** The text of the lines with these origins. */
  function Rendered(lines: seq<string>, origins: seq<Origin>): seq<string>
    requires Within(origins, |lines|)
  {
    seq(|origins|, k requires 0 <= k < |origins| => if origins[k].From? then lines[origins[k].index] else "")
  }

  /** Origins go up, and two kept lines side by side were side by side before. */
  ghost predicate Unwelded(origins: seq<Origin>) {
    && (forall k, l :: 0 <= k < l < |origins| && origins[k].From? && origins[l].From? ==> origins[k].index < origins[l].index)
    && (forall k, l :: 0 <= k && l == k + 1 && l < |origins| && origins[k].From? && origins[l].From? ==>
          origins[l].index == origins[k].index + 1)
  }

  lemma {:induction false} ReviewOriginsUnwelded(p: Patterns, lines: seq<string>, i: nat)
    requires i <= |lines|
    ensures var origins := ReviewOrigins(p, lines, i);
            && Within(origins, |lines|) && Unwelded(origins)
            && (forall k :: 0 <= k < |origins| && origins[k].From? ==> i <= origins[k].index)
            && (origins != [] && origins[0].From? ==> origins[0].index == i)
    decreases |lines| - i
  {
    if i < |lines| {
      ReviewOriginsUnwelded(p, lines, if Opens(p, lines[i]) then BlockEnd(p, lines, i, i + 1) else i + 1);
    }
  }

  lemma ReviewOriginsStep(p: Patterns, lines: seq<string>, done: seq<Origin>, i: nat)
    requires i < |lines|
    ensures done + ReviewOrigins(p, lines, i) ==
            if Opens(p, lines[i]) then done + [Gap] + ReviewOrigins(p, lines, BlockEnd(p, lines, i, i + 1))
            else done + [From(i)] + ReviewOrigins(p, lines, i + 1)
  {
  }

  lemma RenderedPush(lines: seq<string>, origins: seq<Origin>, o: Origin)
    requires Within(origins, |lines|) && (o.From? ==> o.index < |lines|)
    ensures Within(origins + [o], |lines|)
    ensures Rendered(lines, origins + [o]) == Rendered(lines, origins) + [if o.From? then lines[o.index] else ""]
  {
  }

  ghost function WithoutReview(p: Patterns, lines: seq<string>): seq<string> {
    ReviewOriginsUnwelded(p, lines, 0);
    Rendered(lines, ReviewOrigins(p, lines, 0))
  }

  method StripReviewBlocks(p: Patterns, body: string) returns (r: string)
    ensures r == Join(WithoutReview(p, Split(body)))
  {
    var lines := Split(body);
    var kept: seq<string> := [];
    var index := 0;
    ghost var whole, origins: seq<Origin> := ReviewOrigins(p, lines, 0), [];
    while index < |lines|
      invariant index <= |lines| && Within(origins, |lines|) && kept == Rendered(lines, origins)
      invariant origins + ReviewOrigins(p, lines, index) == whole
    {
      ReviewOriginsStep(p, lines, origins, index);
      if Opens(p, lines[index]) {
        var end := SkipReviewBlock(p, lines, index);
        RenderedPush(lines, origins, Gap);
        kept, origins, index := kept + [""], origins + [Gap], end;
      } else {
        RenderedPush(lines, origins, From(index));
        kept, origins, index := kept + [lines[index]], origins + [From(index)], index + 1;
      }
    }
    NothingLeft(p, lines, origins);
    r := Join(kept);
  }

  lemma NothingLeft(p: Patterns, lines: seq<string>, origins: seq<Origin>)
    ensures origins + ReviewOrigins(p, lines, |lines|) == origins
  {
  }

  lemma {:induction false} DroppedIsInBlock(p: Patterns, lines: seq<string>, from: nat, i: nat)
    requires from <= i < |lines|
    ensures From(i) in ReviewOrigins(p, lines, from) ||
            exists start :: from <= start <= i && Opens(p, lines[start]) && InBlock(p, lines, start, i)
    decreases |lines| - from
  {
    if Opens(p, lines[from]) {
      var end := BlockEnd(p, lines, from, from + 1);
      if i < end {
        assert InBlock(p, lines, from, i);
      } else {
        DroppedIsInBlock(p, lines, end, i);
      }
    } else if from < i {
      DroppedIsInBlock(p, lines, from + 1, i);
    }
  }

  ghost predicate InBlock(p: Patterns, lines: seq<string>, start: nat, i: nat) {
    start <= i < |lines| && RunsOn(p, lines, start, i + 1)
  }

  /** A finding, an indented line or a blank one; a blank line that reads as a heading
      only after another blank line of the same block. */
  ghost predicate GoesOn(p: Patterns, lines: seq<string>, start: nat, j: nat)
    requires start < j < |lines|
  {
    if Blank(lines[j]) then p.heading(lines[j]) ==> j > start + 1 && Blank(lines[j - 1])
    else !p.heading(lines[j]) && (p.bullet(lines[j]) || p.indented(lines[j]) || p.severity(lines[j]))
  }

  /** The review opened at `start` takes line `i`: all from the opening on goes on. */
  ghost predicate Takes(p: Patterns, lines: seq<string>, start: nat, i: nat)
    requires start <= i < |lines|
  {
    && (p.reviewOpener(lines[start]) || p.severity(lines[start]))
    && forall j {:trigger GoesOn(p, lines, start, j)} :: start < j <= i ==> GoesOn(p, lines, start, j)
  }

  lemma GoesOnIffNoStop(p: Patterns, lines: seq<string>, start: nat, j: nat)
    requires start < j < |lines|
    ensures GoesOn(p, lines, start, j) <==> !StopsAt(p, lines, start, j)
  {
  }

  lemma TakesIffInBlock(p: Patterns, lines: seq<string>, start: nat, i: nat)
    requires start <= i < |lines|
    ensures Takes(p, lines, start, i) <==> Opens(p, lines[start]) && InBlock(p, lines, start, i)
  {
    forall j | start < j <= i ensures GoesOn(p, lines, start, j) <==> !StopsAt(p, lines, start, j) {
      GoesOnIffNoStop(p, lines, start, j);
    }
  }

  /** An earlier block that goes on past an opening takes all that the opening takes. */
  lemma EarlierBlockTakes(p: Patterns, lines: seq<string>, earlier: nat, start: nat, i: nat)
    requires earlier <= start <= i < |lines| && RunsOn(p, lines, earlier, start + 1) && RunsOn(p, lines, start, i + 1)
    ensures RunsOn(p, lines, earlier, i + 1)
  {
    forall j | earlier < j <= i ensures !StopsAt(p, lines, earlier, j) {
      assert j > start ==> !StopsAt(p, lines, start, j);
    }
  }

  lemma BlockEndsBeyond(p: Patterns, lines: seq<string>, start: nat, i: nat)
    requires InBlock(p, lines, start, i)
    ensures BlockEnd(p, lines, start, start + 1) > i
  {
    var end := BlockEnd(p, lines, start, start + 1);
    if end < |lines| {
      assert StopsAt(p, lines, start, end);
    }
  }

  lemma {:induction false} TakenIsDropped(p: Patterns, lines: seq<string>, from: nat, start: nat, i: nat)
    requires from <= start <= i < |lines| && Opens(p, lines[start]) && InBlock(p, lines, start, i)
    ensures From(i) !in ReviewOrigins(p, lines, from)
    decreases |lines| - from
  {
    if Opens(p, lines[from]) {
      var end := BlockEnd(p, lines, from, from + 1);
      ReviewOriginsUnwelded(p, lines, end);
      if start < end {
        EarlierBlockTakes(p, lines, from, start, i);
        BlockEndsBeyond(p, lines, from, i);
      } else {
        TakenIsDropped(p, lines, end, start, i);
      }
    } else {
      TakenIsDropped(p, lines, from + 1, start, i);
    }
  }

  /** A line is dropped exactly when some review takes it; every other line is kept. */
  lemma DroppedIffTaken(p: Patterns, lines: seq<string>, i: nat)
    requires i < |lines|
    ensures From(i) in ReviewOrigins(p, lines, 0) <==> !exists start :: 0 <= start <= i && Takes(p, lines, start, i)
  {
    forall start | 0 <= start <= i ensures Takes(p, lines, start, i) <==> Opens(p, lines[start]) && InBlock(p, lines, start, i) {
      TakesIffInBlock(p, lines, start, i);
    }
    DroppedIsInBlock(p, lines, 0, i);
    if start :| 0 <= start <= i && Takes(p, lines, start, i) {
      TakenIsDropped(p, lines, 0, start, i);
    }
  }

  /** Prose is never swallowed: a line that is not blank, opens no block and continues
      none survives, even right after a list of findings. */
  lemma ProseSurvives(p: Patterns, lines: seq<string>, i: nat)
    requires i < |lines| && !Blank(lines[i]) && !p.reviewOpener(lines[i])
    requires !p.bullet(lines[i]) && !p.indented(lines[i]) && !p.severity(lines[i])
    ensures From(i) in ReviewOrigins(p, lines, 0)
  {
    forall start | 0 <= start <= i ensures !Takes(p, lines, start, i) {
      assert start < i ==> !GoesOn(p, lines, start, i);
    }
    DroppedIffTaken(p, lines, i);
  }

  // ---------- dropping structural lines ----------

  predicate Structural(p: Patterns, line: string) {
    p.heading(line) || p.tableRow(line) || p.issueRef(line) || p.trailer(line)
  }

  function InFence(p: Patterns, lines: seq<string>): bool {
    if lines == [] then false
    else
      var k := |lines| - 1;
      if p.fence(lines[k]) then !InFence(p, lines[..k]) else InFence(p, lines[..k])
  }

  /** What the next line leaves: a closing fence and a structural line a gap, an
      opening fence and what is fenced nothing. */
  function LeftBy(p: Patterns, inFence: bool, line: string, index: nat): seq<Origin> {
    if p.fence(line) then (if inFence then [Gap] else [])
    else if inFence then []
    else if Structural(p, line) then [Gap]
    else [From(index)]
  }

  function StructuralOrigins(p: Patterns, lines: seq<string>): seq<Origin> {
    if lines == [] then []
    else
      var k := |lines| - 1;
      StructuralOrigins(p, lines[..k]) + LeftBy(p, InFence(p, lines[..k]), lines[k], k)
  }

  /** Outside a fence, a line kept last is the line before the next one. */
  ghost predicate Follows(origins: seq<Origin>, n: nat, inFence: bool) {
    && Within(origins, n) && Unwelded(origins)
    && (origins != [] && origins[|origins| - 1].From? && !inFence ==> origins[|origins| - 1].index == n - 1)
  }

  lemma GapFollows(before: seq<Origin>, k: nat, inFence: bool, after: bool)
    requires Follows(before, k, inFence)
    ensures Follows(before + [Gap], k + 1, after)
  {
  }

  lemma LineFollows(before: seq<Origin>, k: nat)
    requires Follows(before, k, false)
    ensures Follows(before + [From(k)], k + 1, false)
  {
  }

  lemma StepFollows(p: Patterns, before: seq<Origin>, inFence: bool, line: string, k: nat)
    requires Follows(before, k, inFence)
    ensures Follows(before + LeftBy(p, inFence, line, k), k + 1, if p.fence(line) then !inFence else inFence)
  {
    var left := LeftBy(p, inFence, line, k);
    if left == [] {
      assert before + left == before;
    } else if left[0] == Gap {
      GapFollows(before, k, inFence, if p.fence(line) then !inFence else inFence);
    } else {
      LineFollows(before, k);
    }
  }

  lemma {:induction false} StructuralOriginsUnwelded(p: Patterns, lines: seq<string>)
    ensures Follows(StructuralOrigins(p, lines), |lines|, InFence(p, lines))
  {
    if lines != [] {
      var k := |lines| - 1;
      StructuralOriginsUnwelded(p, lines[..k]);
      StepFollows(p, StructuralOrigins(p, lines[..k]), InFence(p, lines[..k]), lines[k], k);
    }
  }

  lemma StructuralStep(p: Patterns, lines: seq<string>, i: nat)
    requires i < |lines|
    ensures StructuralOrigins(p, lines[..i + 1]) ==
            StructuralOrigins(p, lines[..i]) + LeftBy(p, InFence(p, lines[..i]), lines[i], i)
    ensures InFence(p, lines[..i + 1]) == if p.fence(lines[i]) then !InFence(p, lines[..i]) else InFence(p, lines[..i])
  {
    assert lines[..i + 1][..i] == lines[..i];
  }

  function Trimmed(lines: seq<string>): seq<string> {
    seq(|lines|, k requires 0 <= k < |lines| => StripRight(lines[k]))
  }

  ghost function WithoutStructure(p: Patterns, lines: seq<string>): seq<string> {
    StructuralOriginsUnwelded(p, lines);
    Trimmed(Rendered(lines, StructuralOrigins(p, lines)))
  }

  method StripStructuralLines(p: Patterns, body: string) returns (r: string)
    ensures r == Join(WithoutStructure(p, Split(body)))
  {
    var lines := Split(body);
    var kept: seq<string> := [];
    var inFence := false;
    for i := 0 to |lines|
      invariant inFence == InFence(p, lines[..i])
      invariant Within(StructuralOrigins(p, lines[..i]), |lines|)
      invariant kept == Trimmed(Rendered(lines, StructuralOrigins(p, lines[..i])))
    {
      var line := lines[i];
      ghost var origins := StructuralOrigins(p, lines[..i]);
      StructuralStep(p, lines, i);
      LeftIsRendered(lines, origins, Gap);
      LeftIsRendered(lines, origins, From(i));
      assert origins + [] == origins;
      if p.fence(line) {
        if inFence {
          kept := kept + [""];
        }
        inFence := !inFence;
        continue;
      }
      if inFence {
        continue;
      }
      if p.heading(line) || p.tableRow(line) || p.issueRef(line) || p.trailer(line) {
        kept := kept + [""];
        continue;
      }
      kept := kept + [StripRight(line)];
    }
    assert lines[..|lines|] == lines;
    r := Join(kept);
  }

  lemma LeftIsRendered(lines: seq<string>, origins: seq<Origin>, o: Origin)
    requires Within(origins, |lines|) && (o.From? ==> o.index < |lines|)
    ensures Within(origins + [o], |lines|)
    ensures Trimmed(Rendered(lines, origins + [o]))
         == Trimmed(Rendered(lines, origins)) + [if o.From? then StripRight(lines[o.index]) else ""]
  {
  }

  // ---------- both passes ----------

  /** A line of the second result traced through both passes. */
  ghost function Traced(first: seq<Origin>, second: seq<Origin>): seq<Origin>
    requires Within(second, |first|)
  {
    seq(|second|, k requires 0 <= k < |second| => if second[k].From? then first[second[k].index] else Gap)
  }

  lemma TracedUnwelded(first: seq<Origin>, second: seq<Origin>)
    requires Within(second, |first|) && Unwelded(first) && Unwelded(second)
    ensures Unwelded(Traced(first, second))
  {
  }

  lemma TracedRenders(lines: seq<string>, first: seq<Origin>, second: seq<Origin>)
    requires Within(first, |lines|) && Within(second, |first|)
    ensures Within(Traced(first, second), |lines|)
    ensures Trimmed(Rendered(Rendered(lines, first), second)) == Trimmed(Rendered(lines, Traced(first, second)))
  {
  }

  lemma {:induction false} StripRightIsPrefix(s: string)
    ensures StripRight(s) <= s
  {
    if s != "" && IsSpace(s[|s| - 1]) {
      StripRightIsPrefix(s[..|s| - 1]);
    }
  }

  lemma TrimmedAreLines(lines: seq<string>)
    requires AreLines(lines)
    ensures AreLines(Trimmed(lines))
  {
    forall i | 0 <= i < |lines| ensures '\n' !in StripRight(lines[i]) {
      StripRightIsPrefix(lines[i]);
      assert '\n' !in lines[i];
    }
  }

  /** Where each line of the final text comes from. */
  ghost function FinalOrigins(p: Patterns, lines: seq<string>): seq<Origin> {
    ReviewOriginsUnwelded(p, lines, 0);
    StructuralOriginsUnwelded(p, WithoutReview(p, lines));
    Traced(ReviewOrigins(p, lines, 0), StructuralOrigins(p, WithoutReview(p, lines)))
  }

  /** No welding: after both passes, every line is a line of the body with trailing
      blanks trimmed, or empty; lines come in order; and two non-empty lines side by
      side were side by side in the body. */
  lemma NoWelding(p: Patterns, body: string)
    ensures var lines, origins := Split(body), FinalOrigins(p, Split(body));
            var cleaned := Join(WithoutStructure(p, Split(Join(WithoutReview(p, Split(body))))));
            && Within(origins, |lines|) && Unwelded(origins)
            && Split(cleaned) == if origins == [] then [""] else Trimmed(Rendered(lines, origins))
  {
    var lines := Split(body);
    SplitGivesLines(body);
    SecondPassReads(p, lines);
    BothPassesRender(p, lines);
    if FinalOrigins(p, lines) != [] {
      SplitJoin(WithoutStructure(p, WithoutReview(p, lines)));
    }
  }

  /** The second pass splits what the first joined into the same lines. */
  lemma SecondPassReads(p: Patterns, lines: seq<string>)
    requires AreLines(lines) && lines != []
    ensures Split(Join(WithoutReview(p, lines))) == WithoutReview(p, lines) && AreLines(WithoutReview(p, lines))
  {
    ReviewOriginsUnwelded(p, lines, 0);
    SplitJoin(WithoutReview(p, lines));
  }

  lemma BothPassesRender(p: Patterns, lines: seq<string>)
    requires AreLines(WithoutReview(p, lines))
    ensures Within(FinalOrigins(p, lines), |lines|) && Unwelded(FinalOrigins(p, lines))
    ensures WithoutStructure(p, WithoutReview(p, lines)) == Trimmed(Rendered(lines, FinalOrigins(p, lines)))
    ensures AreLines(WithoutStructure(p, WithoutReview(p, lines)))
  {
    var middle := WithoutReview(p, lines);
    var first, second := ReviewOrigins(p, lines, 0), StructuralOrigins(p, middle);
    ReviewOriginsUnwelded(p, lines, 0);
    StructuralOriginsUnwelded(p, middle);
    TracedUnwelded(first, second);
    TracedRenders(lines, first, second);
    TrimmedAreLines(Rendered(middle, second));
  }

  /** The reading of the lemma above for one pair of lines. */
  lemma AdjacentLinesWereAdjacent(p: Patterns, body: string, k: nat)
    ensures var lines := Split(body);
            var out := Split(Join(WithoutStructure(p, Split(Join(WithoutReview(p, lines))))));
            k + 1 < |out| && out[k] != "" && out[k + 1] != "" ==>
              exists i, j :: 0 <= i && j == i + 1 && j < |lines| && out[k] == StripRight(lines[i]) && out[k + 1] == StripRight(lines[j])
  {
    NoWelding(p, body);
    var lines, origins := Split(body), FinalOrigins(p, Split(body));
    var out := Split(Join(WithoutStructure(p, Split(Join(WithoutReview(p, lines))))));
    if k + 1 < |out| && out[k] != "" && out[k + 1] != "" {
      assert StripRight("") == "";
      assert origins[k].From? && origins[k + 1].From?;
      var i, j := origins[k].index, origins[k + 1].index;
      assert j == i + 1 && out[k] == StripRight(lines[i]) && out[k + 1] == StripRight(lines[j]);
    }
  }
}
