/** The gate that stops suppression baselines growing (`scripts/check_baseline_growth.py`):
    which staged files it guards, the two counts it takes of each, and its exit code. */
module BaselineGrowth {
  import opened Prelude

  // ---------- the guarded paths ----------

  predicate IsWord(s: string) {
    forall i :: 0 <= i < |s| ==> s[i] == '_' || 'a' <= s[i] <= 'z'
  }

  predicate IsStem(stem: string) {
    stem != "" && 'a' <= stem[0] <= 'z' && IsWord(stem)
  }

  predicate EndsWith(s: string, suffix: string) {
    |s| >= |suffix| && s[|s| - |suffix|..] == suffix
  }

  function Unmarked(basename: string): string {
    if basename != "" && basename[0] == '_' then basename[1..] else basename
  }

  predicate HasStem(s: string, ending: string) {
    EndsWith(s, ending) && IsStem(s[..|s| - |ending|])
  }

  /** `_?<stem>_baseline.txt`, `_?<stem>_baseline.json` or `_<stem>_baseline.py`. */
  predicate IsBaselineName(basename: string) {
    var marked := Unmarked(basename);
    || HasStem(marked, "_baseline.txt")
    || HasStem(marked, "_baseline.json")
    || (HasStem(marked, "_baseline.py") && marked != basename)
  }

  predicate IsBaselinePath(path: string) {
    "scripts/" <= path && IsBaselineName(path[8..])
  }

  const LETTERS := "abcdefghijklmnopqrstuvwxyz"

  /** A lower-case letter, then lower-case letters and underscores. */
  ghost predicate Spelled(stem: string) {
    stem != "" && stem[0] in LETTERS && forall i :: 0 <= i < |stem| ==> stem[i] == '_' || stem[i] in LETTERS
  }

  /** The names the gate looks after: a text or JSON baseline with or without a leading
      underscore, a Python one only with it. */
  ghost predicate NamesBaseline(basename: string, mark: string, stem: string, ending: string) {
    && basename == mark + (stem + ending)
    && Spelled(stem)
    && (mark == "_" || (mark == "" && ending != "_baseline.py"))
    && (ending == "_baseline.txt" || ending == "_baseline.json" || ending == "_baseline.py")
  }

  lemma LettersAreLower(c: char)
    ensures c in LETTERS <==> 'a' <= c <= 'z'
  {
    if 'a' <= c <= 'z' {
      assert LETTERS[c as int - 'a' as int] == c;
    }
  }

  lemma SpelledIsStem(stem: string)
    ensures Spelled(stem) <==> IsStem(stem)
  {
    forall i | 0 <= i < |stem| ensures stem[i] in LETTERS <==> 'a' <= stem[i] <= 'z' {
      LettersAreLower(stem[i]);
    }
  }

  lemma HasStemIff(s: string, ending: string)
    ensures HasStem(s, ending) <==> exists stem :: Spelled(stem) && s == stem + ending
  {
    if EndsWith(s, ending) {
      var stem := s[..|s| - |ending|];
      assert s == stem + ending;
      SpelledIsStem(stem);
    }
    forall stem | Spelled(stem) && s == stem + ending ensures HasStem(s, ending) {
      SpelledIsStem(stem);
      assert s[|s| - |ending|..] == ending && s[..|s| - |ending|] == stem;
    }
  }

  lemma MarkComesOff(mark: string, stem: string, ending: string)
    requires (mark == "" || mark == "_") && Spelled(stem)
    ensures Unmarked(mark + (stem + ending)) == stem + ending
    ensures mark + (stem + ending) == stem + ending <==> mark == ""
  {
    LettersAreLower(stem[0]);
    assert (stem + ending)[0] == stem[0];
    assert mark != "" ==> |mark + (stem + ending)| == |stem + ending| + 1;
  }

  /** A file under `scripts/` is guarded exactly when it bears one of those names. */
  lemma GuardedIffNamesBaseline(basename: string)
    ensures forall path :: IsBaselinePath(path) ==> "scripts/" <= path
    ensures IsBaselinePath("scripts/" + basename) <==>
              exists mark, stem, ending :: NamesBaseline(basename, mark, stem, ending)
  {
    assert ("scripts/" + basename)[8..] == basename;
    if IsBaselineName(basename) {
      GuardedNamesBaseline(basename);
    }
    forall mark, stem, ending | NamesBaseline(basename, mark, stem, ending) ensures IsBaselineName(basename) {
      MarkComesOff(mark, stem, ending);
      HasStemIff(stem + ending, ending);
    }
  }

  lemma GuardedNamesBaseline(basename: string)
    requires IsBaselineName(basename)
    ensures exists mark, stem, ending :: NamesBaseline(basename, mark, stem, ending)
  {
    var marked := Unmarked(basename);
    var mark := if marked == basename then "" else "_";
    var ending :|
      && HasStem(marked, ending)
      && (mark == "_" || ending != "_baseline.py")
      && (ending == "_baseline.txt" || ending == "_baseline.json" || ending == "_baseline.py");
    HasStemIff(marked, ending);
    var stem :| Spelled(stem) && marked == stem + ending;
    assert basename == mark + marked;
    assert NamesBaseline(basename, mark, stem, ending);
  }

  // ---------- counting ----------

  /** A line that is neither blank nor a comment. */
  predicate IsCounted(line: string) {
    Strip(line) != "" && !(StripLeft(line) != "" && StripLeft(line)[0] == '#')
  }

  /** Its first character that is no whitespace exists and is no hash. */
  ghost predicate BearsText(line: string, i: nat) {
    i < |line| && !IsSpace(line[i]) && line[i] != '#' && forall j :: 0 <= j < i ==> IsSpace(line[j])
  }

  lemma {:induction false} StripRightBlank(s: string)
    ensures StripRight(s) == "" <==> forall j :: 0 <= j < |s| ==> IsSpace(s[j])
  {
    if s != "" {
      var k := |s| - 1;
      if IsSpace(s[k]) {
        StripRightBlank(s[..k]);
        assert forall j :: 0 <= j < k ==> s[..k][j] == s[j];
      }
    }
  }

  /** A line counts exactly when it bears text somewhere. */
  lemma {:induction false} CountedIffBearsText(line: string)
    ensures IsCounted(line) <==> exists i :: BearsText(line, i)
  {
    if line != "" && IsSpace(line[0]) {
      CountedIffBearsText(line[1..]);
      if i: nat :| BearsText(line[1..], i) {
        assert forall j :: 0 < j <= i ==> line[j] == line[1..][j - 1];
        assert BearsText(line, i + 1);
      }
      if i: nat :| BearsText(line, i) {
        assert forall j :: 0 <= j < i - 1 ==> line[1..][j] == line[j + 1];
        assert BearsText(line[1..], i - 1);
      }
    } else {
      StripRightBlank(line);
      if IsCounted(line) {
        assert BearsText(line, 0);
      }
    }
  }

  function CountTextEntries(lines: seq<string>): nat {
    if lines == [] then 0
    else CountTextEntries(lines[..|lines| - 1]) + if IsCounted(lines[|lines| - 1]) then 1 else 0
  }

  /** A parsed JSON value; strings, booleans, fractions and null are atoms. */
  datatype Json = Object(members: seq<(string, Json)>) | List(items: seq<Json>) | Number(n: int) | Atom

  /** The text of a file: its lines, and the value it parses to, if it parses. */
  datatype Content = Content(lines: seq<string>, json: Option<Json>)

  /** Keys and findings. */
  datatype Metrics = Metrics(keys: nat, findings: nat)

  const NOTHING := Metrics(0, 0)

  function Lookup(members: seq<(string, Json)>, name: string): Option<Json> {
    if members == [] then None
    else if members[0].0 == name then Some(members[0].1)
    else Lookup(members[1..], name)
  }

  predicate AllCounts(members: seq<(string, Json)>) {
    forall i :: 0 <= i < |members| ==> members[i].1.Number? && members[i].1.n >= 0
  }

  function Total(members: seq<(string, Json)>): nat
    requires AllCounts(members)
  {
    if members == [] then 0 else members[0].1.n + Total(members[1..])
  }

  function CountJson(payload: Json): Metrics {
    match payload
    case List(items) => Metrics(|items|, |items|)
    case Object(members) =>
      (match Lookup(members, "locations")
       case Some(Object(inner)) => Metrics(|inner|, |inner|)
       case Some(List(items)) => Metrics(|items|, |items|)
       case _ => Metrics(|members|, if AllCounts(members) then Total(members) else |members|))
    case _ => NOTHING
  }

  lemma {:induction false} CountsNameNoLocations(members: seq<(string, Json)>)
    requires AllCounts(members)
    ensures var found := Lookup(members, "locations");
            found.Some? ==> found.value.Number?
  {
    if members != [] && members[0].0 != "locations" {
      CountsNameNoLocations(members[1..]);
    }
  }

  lemma {:induction false} RaisingRaisesTotal(members: seq<(string, Json)>, i: nat, more: nat)
    requires AllCounts(members) && i < |members|
    ensures var raised := members[i := (members[i].0, Number(members[i].1.n + more))];
            AllCounts(raised) && Total(raised) == Total(members) + more
  {
    var raised := members[i := (members[i].0, Number(members[i].1.n + more))];
    if i == 0 {
      assert raised[1..] == members[1..];
    } else {
      RaisingRaisesTotal(members[1..], i - 1, more);
      assert raised[1..] == members[1..][i - 1 := (members[i].0, Number(members[i].1.n + more))];
    }
  }

  /** In a payload of counts, raising one of them raises the findings by as much and
      leaves the keys, so the gate sees it. */
  lemma RaisedCountIsSeen(members: seq<(string, Json)>, i: nat, more: nat)
    requires i < |members| && forall m :: m in members ==> m.1.Number? && m.1.n >= 0
    ensures var before := CountJson(Object(members));
            var after := CountJson(Object(members[i := (members[i].0, Number(members[i].1.n + more))]));
            after.keys == before.keys == |members| && after.findings == before.findings + more
    ensures more > 0 ==>
              Exceeds(CountJson(Object(members[i := (members[i].0, Number(members[i].1.n + more))])), CountJson(Object(members)))
  {
    assert AllCounts(members);
    RaisingRaisesTotal(members, i, more);
    CountsNameNoLocations(members);
    CountsNameNoLocations(members[i := (members[i].0, Number(members[i].1.n + more))]);
  }

  lemma {:induction false} TotalAppend(members: seq<(string, Json)>, key: string, n: nat)
    requires AllCounts(members)
    ensures AllCounts(members + [(key, Number(n))]) && Total(members + [(key, Number(n))]) == Total(members) + n
  {
    if members == [] {
      assert members + [(key, Number(n))] == [(key, Number(n))] && [(key, Number(n))][1..] == [];
    } else {
      Uncons(members, [(key, Number(n))]);
      TotalAppend(members[1..], key, n);
    }
  }

  /** An empty mapping has no findings, and one more count adds itself to them. */
  lemma OneMoreCountIsSeen(members: seq<(string, Json)>, key: string, n: nat)
    requires forall m :: m in members ==> m.1.Number? && m.1.n >= 0
    ensures CountJson(Object([])) == Metrics(0, 0)
    ensures CountJson(Object(members + [(key, Number(n))])) ==
            Metrics(|members| + 1, CountJson(Object(members)).findings + n)
  {
    assert AllCounts(members) && Total([]) == 0;
    TotalAppend(members, key, n);
    CountsNameNoLocations(members);
    CountsNameNoLocations(members + [(key, Number(n))]);
  }

  /** A mapping without locations that holds anything but counts has one finding a key,
      and what is neither a list nor a mapping has no entries. */
  lemma OtherPayloads(payload: Json)
    ensures payload.Object? && Lookup(payload.members, "locations") == None
            && (exists m :: m in payload.members && (m.1.Number? ==> m.1.n < 0)) ==>
              CountJson(payload) == Metrics(|payload.members|, |payload.members|)
    ensures !payload.Object? && !payload.List? ==> CountJson(payload) == Metrics(0, 0)
  {
    if payload.Object? && exists m :: m in payload.members && (m.1.Number? ==> m.1.n < 0) {
      var m :| m in payload.members && (m.1.Number? ==> m.1.n < 0);
      var i :| 0 <= i < |payload.members| && payload.members[i] == m;
      assert !AllCounts(payload.members);
    }
  }

  /** One more entry, of whatever kind, raises the keys of a list or of a mapping
      without locations, and both counts of the locations of a mapping that has them. */
  lemma {:induction false} OneMoreEntryIsSeen(items: seq<Json>, members: seq<(string, Json)>, key: string, value: Json)
    requires key != "locations" && Lookup(members, "locations") == None
    ensures CountJson(List(items + [value])) == Metrics(|items| + 1, |items| + 1)
    ensures CountJson(Object(members + [(key, value)])).keys == CountJson(Object(members)).keys + 1
    ensures CountJson(Object(members + [("locations", List(items))])) == Metrics(|items|, |items|)
    ensures CountJson(Object(members + [("locations", Object(members))])) == Metrics(|members|, |members|)
  {
    LookupAppend(members, key, value, "locations");
    LookupAppend(members, "locations", List(items), "locations");
    LookupAppend(members, "locations", Object(members), "locations");
  }

  lemma {:induction false} LookupAppend(members: seq<(string, Json)>, key: string, value: Json, name: string)
    requires Lookup(members, name) == None
    ensures Lookup(members + [(key, value)], name) == if key == name then Some(value) else None
  {
    if members != [] {
      Uncons(members, [(key, value)]);
      LookupAppend(members[1..], key, value, name);
    } else {
      assert members + [(key, value)] == [(key, value)] && [(key, value)][1..] == [];
    }
  }

  /** The counts of a baseline; `None` for JSON that does not parse. */
  function EntriesOf(content: Content, path: string): Option<Metrics> {
    if EndsWith(path, ".json") then
      if content.json.None? then None else Some(CountJson(content.json.value))
    else
      var n := CountTextEntries(content.lines);
      Some(Metrics(n, n))
  }

  /** The counts at HEAD: none for a file that is absent or does not parse. */
  function Measured(content: Option<Content>, path: string): Metrics {
    if content.None? then NOTHING
    else match EntriesOf(content.value, path)
      case None => NOTHING
      case Some(m) => m
  }

  lemma LastDecides(head: string, ending: string)
    requires ending != "" && ending[|ending| - 1] != 'n'
    ensures !EndsWith(head + ending, ".json")
  {
    assert (head + ending)[|head + ending| - 1] == ending[|ending| - 1];
  }

  /** A text or Python baseline counts its lines, a JSON one its payload, and a JSON one
      that does not parse is corrupt. */
  lemma MeasuredByEnding(name: string, content: Content)
    ensures EntriesOf(content, name + ".txt") == Some(Metrics(CountTextEntries(content.lines), CountTextEntries(content.lines)))
    ensures EntriesOf(content, name + ".py") == Some(Metrics(CountTextEntries(content.lines), CountTextEntries(content.lines)))
    ensures content.json.Some? ==> EntriesOf(content, name + ".json") == Some(CountJson(content.json.value))
    ensures content.json.None? ==> EntriesOf(content, name + ".json") == None
  {
    LastDecides(name, ".txt");
    LastDecides(name, ".py");
    assert EndsWith(name + ".json", ".json");
  }

  lemma TextNameIsGuarded(stem: string, ending: string)
    requires Spelled(stem) && ending == "_baseline.txt"
    ensures IsBaselinePath("scripts/" + (stem + ending))
  {
    assert "" + (stem + ending) == stem + ending;
    assert NamesBaseline(stem + ending, "", stem, ending);
    GuardedIffNamesBaseline(stem + ending);
  }

  lemma TextNameIsNoJson(stem: string, ending: string)
    requires ending == "_baseline.txt"
    ensures !EndsWith("scripts/" + (stem + ending), ".json")
  {
    assert (stem + ending)[|stem + ending| - 1] == 't';
    LastDecides("scripts/", stem + ending);
  }

  // ---------- the gate ----------

  /** A staged file the gate was handed: its content in the index and at HEAD. */
  datatype Change = Change(path: string, staged: Option<Content>, head: Option<Content>)

  predicate IsCorrupt(c: Change) {
    c.staged.Some? && EntriesOf(c.staged.value, c.path).None?
  }

  predicate Exceeds(a: Metrics, b: Metrics) {
    a.keys > b.keys || a.findings > b.findings
  }

  predicate Grew(c: Change) {
    Exceeds(Measured(c.staged, c.path), Measured(c.head, c.path))
  }

  ghost predicate NoneCorrupt(changes: seq<Change>) {
    forall c :: c in changes && IsBaselinePath(c.path) ==> !IsCorrupt(c)
  }

  ghost predicate NoneGrew(changes: seq<Change>) {
    forall c :: c in changes && IsBaselinePath(c.path) ==> !Grew(c)
  }

  const EXIT_OK := 0
  const EXIT_GROWTH_DETECTED := 1
  const EXIT_INVALID_BASELINE := 2

  /** One staged baseline against HEAD. */
  method InspectPath(c: Change) returns (grew: bool, invalid: bool)
    ensures grew <==> !IsCorrupt(c) && Grew(c)
    ensures invalid <==> IsCorrupt(c)
  {
    if c.staged.None? {
      return false, false;
    }
    var staged := EntriesOf(c.staged.value, c.path);
    if staged.None? {
      return false, true;
    }
    var head := NOTHING;
    if c.head.Some? {
      var parsed := EntriesOf(c.head.value, c.path);
      if parsed.Some? {
        head := parsed.value;
      }
    }
    return staged.value.keys > head.keys || staged.value.findings > head.findings, false;
  }

  lemma OneMoreChange(changes: seq<Change>, i: nat)
    requires i < |changes|
    ensures NoneCorrupt(changes[..i + 1]) <==>
              NoneCorrupt(changes[..i]) && (IsBaselinePath(changes[i].path) ==> !IsCorrupt(changes[i]))
    ensures NoneGrew(changes[..i + 1]) <==>
              NoneGrew(changes[..i]) && (IsBaselinePath(changes[i].path) ==> !Grew(changes[i]))
  {
    assert changes[..i + 1] == changes[..i] + [changes[i]];
  }

  /** Without the bypass the gate passes exactly when every guarded file it was handed
      parses and none rose in either count; what does not parse is reported first. */
  method GrowthGate(changes: seq<Change>, bypass: bool) returns (code: int)
    ensures bypass ==> code == EXIT_OK
    ensures !bypass ==> (code == EXIT_OK <==> NoneCorrupt(changes) && NoneGrew(changes))
    ensures !bypass ==> (code == EXIT_INVALID_BASELINE <==> !NoneCorrupt(changes))
    ensures code == EXIT_OK || code == EXIT_GROWTH_DETECTED || code == EXIT_INVALID_BASELINE
  {
    if bypass {
      return EXIT_OK;
    }
    var grown, invalid := 0, 0;
    for i := 0 to |changes|
      invariant grown >= 0 && invalid >= 0 && (invalid == 0 <==> NoneCorrupt(changes[..i]))
      invariant invalid == 0 ==> (grown == 0 <==> NoneGrew(changes[..i]))
    {
      OneMoreChange(changes, i);
      if IsBaselinePath(changes[i].path) {
        var grew, corrupt := InspectPath(changes[i]);
        if grew {
          grown := grown + 1;
        }
        if corrupt {
          invalid := invalid + 1;
        }
      }
    }
    assert changes[..|changes|] == changes;
    if invalid > 0 {
      return EXIT_INVALID_BASELINE;
    }
    code := if grown == 0 then EXIT_OK else EXIT_GROWTH_DETECTED;
  }

  // ---------- one baseline over many commits ----------

  /** A step from one commit to the next that leaves the file alone, or whose gate run
      was handed the change and passed. */
  ghost predicate StepAccepted(path: string, before: Option<Content>, after: Option<Content>) {
    before == after || exists changes :: Passed(changes, Change(path, after, before))
  }

  ghost predicate Passed(changes: seq<Change>, c: Change) {
    c in changes && NoneCorrupt(changes) && NoneGrew(changes)
  }

  ghost predicate AcceptedStates(path: string, states: seq<Option<Content>>) {
    forall i: nat :: i + 1 < |states| ==> StepAccepted(path, states[i], states[i + 1])
  }

  lemma StepNeverGrows(path: string, before: Option<Content>, after: Option<Content>)
    requires IsBaselinePath(path) && StepAccepted(path, before, after)
    ensures Measured(after, path).keys <= Measured(before, path).keys
    ensures Measured(after, path).findings <= Measured(before, path).findings
  {
    if before != after {
      var changes :| Passed(changes, Change(path, after, before));
      assert !Grew(Change(path, after, before));
    }
  }

  /** A guarded baseline shrinks monotonically: neither count ever rises, whatever
      shapes its payload goes through, also when the file is deleted and comes back. */
  lemma {:induction false} BaselineNeverGrows(path: string, states: seq<Option<Content>>, i: nat, j: nat)
    requires IsBaselinePath(path) && AcceptedStates(path, states) && i <= j < |states|
    ensures Measured(states[j], path).keys <= Measured(states[i], path).keys
    ensures Measured(states[j], path).findings <= Measured(states[i], path).findings
    decreases j
  {
    if i < j {
      var k := j - 1;
      BaselineNeverGrows(path, states, i, k);
      assert k + 1 == j;
      StepNeverGrows(path, states[k], states[k + 1]);
    }
  }
}
