/** The closed list of over-cap functions: the scan that demands the list equals
    the tree (`scripts/check_argument_count_suppression.py`), joined to the walk that
    finds the functions and to the gate that stops the list growing, and what they
    keep together over whole commit histories. */
module ArgumentLedger {
  import opened Prelude
  import opened CandidateWalk
  import opened BaselineGrowth

  // ---------- the tree ----------

  /** A tracked Python file: its module, whether its bytes mention the exempting
      decorator, a file-level blanket, and the lines carrying a per-line marker. */
  datatype File = File(rel: string, tree: Suite, mentionsOverride: bool, hasBlanket: bool, markerLines: set<nat>)

  datatype Caps = Caps(args: nat, positional: nat)

  type Coordinate = (string, nat)

  /** What ruff answered: the files it walked, and the sites of its two passes. */
  datatype Ruff = Ruff(visited: set<string>, reported: set<Coordinate>, unsuppressed: set<Coordinate>)

  const MODULE_SCOPE := Scope([], false)

  function SettingsFor(file: File, caps: Caps): Settings {
    Settings(file.rel, caps.args, caps.positional)
  }

  /** The over-cap definitions of a file, as the walk lists them. */
  function OverCapEntries(file: File, caps: Caps): seq<Entry> {
    Listing(file.tree.stmts, MODULE_SCOPE, SettingsFor(file, caps))
  }

  /** Whether an over-cap definition stands at this place of the file. */
  ghost predicate IsOverCapAt(file: File, caps: Caps, at: Address) {
    && IsDefinition(file.tree.stmts, at)
    && IsOver(DefinitionAt(file.tree.stmts, at), ScopeAt(file.tree.stmts, at, MODULE_SCOPE).inClass, SettingsFor(file, caps))
  }

  /** The places of all of them. */
  ghost function OverCapPlaces(file: File, caps: Caps): set<Address> {
    set e | e in OverCapEntries(file, caps) :: e.at
  }

  lemma EntryIsOverCap(file: File, caps: Caps, e: Entry)
    requires e in OverCapEntries(file, caps)
    ensures Describes(e, file.tree.stmts, MODULE_SCOPE, SettingsFor(file, caps)) && IsOverCapAt(file, caps, e.at)
  {
    ListingDescribes(file.tree.stmts, MODULE_SCOPE, SettingsFor(file, caps), e);
  }

  lemma PlacesAreOverCap(file: File, caps: Caps, at: Address)
    ensures at in OverCapPlaces(file, caps) <==> IsOverCapAt(file, caps, at)
  {
    var entries := OverCapEntries(file, caps);
    if at in OverCapPlaces(file, caps) {
      var e :| e in entries && e.at == at;
      EntryIsOverCap(file, caps, e);
    }
    if IsOverCapAt(file, caps, at) {
      ListingIsComplete(file.tree.stmts, MODULE_SCOPE, SettingsFor(file, caps), at);
      var i :| 0 <= i < |entries| && entries[i].at == at;
      assert entries[i] in entries;
    }
  }

  lemma {:induction false} OrderedPlacesDiffer(entries: seq<Entry>)
    requires Ordered(entries)
    ensures |set e | e in entries :: e.at| == |entries|
  {
    if entries == [] {
      assert (set e | e in entries :: e.at) == {};
    } else {
      var k := |entries| - 1;
      var before := set e | e in entries[..k] :: e.at;
      OrderedPlacesDiffer(entries[..k]);
      BeforeIsStrict(entries[k].at);
      assert entries == entries[..k] + [entries[k]];
      assert (set e | e in entries :: e.at) == before + {entries[k].at};
    }
  }

  lemma OnePlaceEach(file: File, caps: Caps)
    ensures |OverCapPlaces(file, caps)| == |OverCapEntries(file, caps)|
  {
    ListingIsOrdered(file.tree.stmts, MODULE_SCOPE, SettingsFor(file, caps));
    OrderedPlacesDiffer(OverCapEntries(file, caps));
  }

  /** How many over-cap definitions the files hold. */
  ghost function OverCapCount(files: seq<File>, caps: Caps): nat {
    if files == [] then 0
    else OverCapCount(files[..|files| - 1], caps) + |OverCapPlaces(files[|files| - 1], caps)|
  }

  /** How many too wide definitions the files hold, counted field by field. */
  ghost function WideCount(files: seq<File>, caps: Caps): nat {
    if files == [] then 0
    else
      var k := |files| - 1;
      WideCount(files[..k], caps) + WideIn(files[k].tree.stmts, false, SettingsFor(files[k], caps))
  }

  lemma {:induction false} OverCapIsWide(files: seq<File>, caps: Caps)
    ensures OverCapCount(files, caps) == WideCount(files, caps)
  {
    if files != [] {
      var k := |files| - 1;
      OverCapIsWide(files[..k], caps);
      OnePlaceEach(files[k], caps);
      ListingCountsTheTree(files[k].tree.stmts, MODULE_SCOPE, SettingsFor(files[k], caps));
    }
  }

  // ---------- discovering the sites ----------

  /** The contract the gate relies on: a file ruff walked has each of its over-cap
      definitions reported by the neutralised pass, unless a decorator exempts it,
      and then the bytes spell that decorator somewhere. */
  ghost predicate FileAnswered(file: File, caps: Caps, ruff: Ruff) {
    forall at :: IsOverCapAt(file, caps, at) ==> Answered(file, DefinitionAt(file.tree.stmts, at).lineno, ruff)
  }

  predicate Answered(file: File, lineno: nat, ruff: Ruff) {
    file.rel in ruff.visited ==> file.mentionsOverride || (file.rel, lineno) in ruff.reported
  }

  ghost predicate RuffAnswers(files: seq<File>, caps: Caps, ruff: Ruff) {
    forall i :: 0 <= i < |files| ==> FileAnswered(files[i], caps, ruff)
  }

  function ReportedFiles(ruff: Ruff): set<string> {
    set c | c in ruff.reported :: c.0
  }

  predicate NeedsParse(file: File, reportedFiles: set<string>, visited: set<string>) {
    file.rel in reportedFiles || file.rel !in visited || file.mentionsOverride
  }

  /** A file holding an over-cap definition anywhere in its tree is always parsed. */
  lemma OverCapNeedsParse(file: File, at: Address, caps: Caps, ruff: Ruff)
    requires FileAnswered(file, caps, ruff) && IsOverCapAt(file, caps, at)
    ensures NeedsParse(file, ReportedFiles(ruff), ruff.visited)
  {
    var lineno := DefinitionAt(file.tree.stmts, at).lineno;
    assert Answered(file, lineno, ruff);
    assert (file.rel, lineno) in ruff.reported ==> (file.rel, lineno).0 in ReportedFiles(ruff);
  }

  /** A file left unparsed holds none. */
  lemma SkippedFileIsClean(file: File, caps: Caps, ruff: Ruff)
    requires FileAnswered(file, caps, ruff) && !NeedsParse(file, ReportedFiles(ruff), ruff.visited)
    ensures OverCapEntries(file, caps) == []
  {
    var entries := OverCapEntries(file, caps);
    if entries != [] {
      EntryIsOverCap(file, caps, entries[0]);
      OverCapNeedsParse(file, entries[0].at, caps, ruff);
    }
  }

  datatype Status = Unsuppressed | PerLine | Blanket | RuleExempt

  /** An over-cap function and how ruff treats it. */
  datatype Site = Site(key: string, status: Status)

  predicate Baselineable(s: Site) {
    s.status == PerLine || s.status == RuleExempt
  }

  function StatusOf(file: File, lineno: nat, ruff: Ruff): Status {
    if (file.rel, lineno) in ruff.unsuppressed then Unsuppressed
    else if file.hasBlanket then Blanket
    else if (file.rel, lineno) in ruff.reported && lineno in file.markerLines then PerLine
    else RuleExempt
  }

  /** The status as the docstring of the classifier has it. */
  function DocumentedStatus(file: File, lineno: nat, ruff: Ruff): Status {
    var at := (file.rel, lineno);
    if at in ruff.unsuppressed then Unsuppressed
    else if at !in ruff.reported then RuleExempt
    else if lineno in file.markerLines then PerLine
    else Blanket
  }

  /** The classifier does what its docstring says exactly when ruff reports the function
      on its own, or the file has a blanket just where the docstring infers one: at a
      function that only the neutralised pass reports and no marker covers. */
  lemma StatusIsDocumentedIff(file: File, lineno: nat, ruff: Ruff)
    ensures StatusOf(file, lineno, ruff) == DocumentedStatus(file, lineno, ruff) <==>
            || (file.rel, lineno) in ruff.unsuppressed
            || (file.hasBlanket <==> (file.rel, lineno) in ruff.reported && lineno !in file.markerLines)
  {
  }

  /** Without a file-level blanket, everything ruff does not report on its own may stand
      on the ledger, marked or not; with one, nothing may. */
  lemma BaselineableIff(file: File, c: Candidate, ruff: Ruff)
    ensures Baselineable(SiteOf(file, c, ruff)) <==> (file.rel, c.lineno) !in ruff.unsuppressed && !file.hasBlanket
  {
  }

  function SiteOf(file: File, c: Candidate, ruff: Ruff): Site {
    Site(Key(c.rel, c.qualname, c.argCount), StatusOf(file, c.lineno, ruff))
  }

  function SitesFrom(file: File, found: seq<Candidate>, ruff: Ruff): seq<Site> {
    seq(|found|, i requires 0 <= i < |found| => SiteOf(file, found[i], ruff))
  }

  function FileSites(file: File, caps: Caps, ruff: Ruff): seq<Site> {
    SitesFrom(file, Candidates(OverCapEntries(file, caps)), ruff)
  }

  /** One site per over-cap definition of the tree, file by file in walk order. */
  function AllSites(files: seq<File>, caps: Caps, ruff: Ruff): seq<Site> {
    if files == [] then []
    else
      var k := |files| - 1;
      AllSites(files[..k], caps, ruff) + FileSites(files[k], caps, ruff)
  }

  lemma {:induction false} OneSiteEach(files: seq<File>, caps: Caps, ruff: Ruff)
    ensures |AllSites(files, caps, ruff)| == OverCapCount(files, caps)
  {
    if files != [] {
      OneSiteEach(files[..|files| - 1], caps, ruff);
      OnePlaceEach(files[|files| - 1], caps);
    }
  }

  /** One parsed file. */
  method ScanFile(file: File, caps: Caps) returns (found: seq<Candidate>)
    ensures found == Candidates(OverCapEntries(file, caps))
  {
    var walker := new CandidateWalker(SettingsFor(file, caps));
    walker.Walk(file.tree);
    found := walker.candidates;
    assert found == Candidates(OverCapEntries(file, caps));
  }

  lemma AllSitesStep(files: seq<File>, caps: Caps, ruff: Ruff, i: nat)
    requires i < |files|
    ensures AllSites(files[..i + 1], caps, ruff) == AllSites(files[..i], caps, ruff) + FileSites(files[i], caps, ruff)
  {
    assert files[..i + 1][..i] == files[..i];
  }

  /** The scan walks only the files that can hold a candidate and still finds every
      over-cap definition of the tree. */
  method ScanTree(files: seq<File>, caps: Caps, ruff: Ruff) returns (sites: seq<Site>)
    requires RuffAnswers(files, caps, ruff)
    ensures sites == AllSites(files, caps, ruff)
  {
    var reportedFiles := ReportedFiles(ruff);
    sites := [];
    for i := 0 to |files|
      invariant sites == AllSites(files[..i], caps, ruff)
    {
      AllSitesStep(files, caps, ruff, i);
      if NeedsParse(files[i], reportedFiles, ruff.visited) {
        var found := ScanFile(files[i], caps);
        sites := sites + SitesFrom(files[i], found, ruff);
      } else {
        SkippedFileIsClean(files[i], caps, ruff);
        assert FileSites(files[i], caps, ruff) == [];
      }
    }
    assert files[..|files|] == files;
  }

  // ---------- the ledger file ----------

  /** A line that is neither blank nor a comment, as the loader strips it. */
  predicate IsEntry(line: string) {
    Strip(line) != "" && Strip(line)[0] != '#'
  }

  function Entries(lines: seq<string>): seq<string> {
    if lines == [] then []
    else
      var k := |lines| - 1;
      Entries(lines[..k]) + if IsEntry(lines[k]) then [Strip(lines[k])] else []
  }

  lemma {:induction false} StripRightKeepsHead(s: string)
    ensures StripRight(s) != "" ==> s != "" && StripRight(s)[0] == s[0]
  {
    if s != "" && IsSpace(s[|s| - 1]) {
      StripRightKeepsHead(s[..|s| - 1]);
    }
  }

  /** The two files count the same lines. */
  lemma {:induction false} BothCountTheSameLines(lines: seq<string>)
    ensures CountTextEntries(lines) == |Entries(lines)|
  {
    if lines != [] {
      BothCountTheSameLines(lines[..|lines| - 1]);
      StripRightKeepsHead(StripLeft(lines[|lines| - 1]));
    }
  }

  predicate Distinct(s: seq<string>) {
    forall i, j :: 0 <= i < j < |s| ==> s[i] != s[j]
  }

  ghost predicate Loadable(entries: seq<string>, wellFormed: string -> bool) {
    Distinct(entries) && forall i :: 0 <= i < |entries| ==> wellFormed(entries[i])
  }

  function Lines(file: Option<Content>): seq<string> {
    if file.Some? then file.value.lines else []
  }

  /** The allowlist; an absent file is empty, a malformed or repeated entry fails. */
  method LoadBaseline(file: Option<Content>, wellFormed: string -> bool) returns (loaded: Option<set<string>>)
    ensures loaded.Some? <==> Loadable(Entries(Lines(file)), wellFormed)
    ensures loaded.Some? ==> forall e :: e in loaded.value <==> e in Entries(Lines(file))
  {
    var lines := Lines(file);
    var entries: set<string> := {};
    var errors := 0;
    for i := 0 to |lines|
      invariant errors >= 0 && (errors == 0 <==> Loadable(Entries(lines[..i]), wellFormed))
      invariant errors == 0 ==> forall e :: e in entries <==> e in Entries(lines[..i])
    {
      EntriesStep(lines, i);
      var stripped := Strip(lines[i]);
      if stripped != "" && stripped[0] != '#' {
        ExtendedIsLoadable(Entries(lines[..i]), stripped, wellFormed);
        if !wellFormed(stripped) || stripped in entries {
          errors := errors + 1;
        } else {
          entries := entries + {stripped};
        }
      }
    }
    assert lines[..|lines|] == lines;
    loaded := if errors == 0 then Some(entries) else None;
  }

  lemma EntriesStep(lines: seq<string>, i: nat)
    requires i < |lines|
    ensures Entries(lines[..i + 1]) == if IsEntry(lines[i]) then Entries(lines[..i]) + [Strip(lines[i])] else Entries(lines[..i])
  {
    assert lines[..i + 1][..i] == lines[..i];
  }

  lemma ExtendedIsLoadable(entries: seq<string>, e: string, wellFormed: string -> bool)
    ensures Loadable(entries + [e], wellFormed) <==> Loadable(entries, wellFormed) && wellFormed(e) && e !in entries
  {
    var more := entries + [e];
    assert more[|entries|] == e;
    if Loadable(more, wellFormed) {
      forall i, j | 0 <= i < j < |entries| ensures entries[i] != entries[j] {
        assert more[i] != more[j];
      }
      forall i | 0 <= i < |entries| ensures wellFormed(entries[i]) && entries[i] != e {
        assert more[i] == entries[i] && more[i] != more[|entries|];
      }
    }
  }

  // ---------- the scan command ----------

  function Keys(sites: seq<Site>): seq<string> {
    seq(|sites|, i requires 0 <= i < |sites| => sites[i].key)
  }

  ghost predicate AllBaselineable(sites: seq<Site>) {
    forall i :: 0 <= i < |sites| ==> Baselineable(sites[i])
  }

  /** The ledger lists exactly the over-cap functions, each once. */
  ghost predicate LedgerIsExact(sites: seq<Site>, file: Option<Content>, wellFormed: string -> bool) {
    && AllBaselineable(sites)
    && Loadable(Entries(Lines(file)), wellFormed)
    && multiset(Keys(sites)) == multiset(Entries(Lines(file)))
  }

  ghost predicate Collides(sites: seq<Site>) {
    exists i, j :: 0 <= i < j < |sites| && SameKey(sites[i], sites[j])
  }

  predicate SameKey(a: Site, b: Site) {
    Baselineable(a) && Baselineable(b) && a.key == b.key
  }

  /** Whether two baselineable sites claim one key. */
  method FindCollision(sites: seq<Site>) returns (collide: bool)
    ensures collide <==> Collides(sites)
  {
    var claimed: set<string> := {};
    collide := false;
    for i := 0 to |sites|
      invariant forall k :: k in claimed <==> exists j :: 0 <= j < i && Baselineable(sites[j]) && sites[j].key == k
      invariant collide <==> exists p, q :: 0 <= p < q < i && SameKey(sites[p], sites[q])
    {
      if Baselineable(sites[i]) {
        if sites[i].key in claimed {
          var j :| 0 <= j < i && Baselineable(sites[j]) && sites[j].key == sites[i].key;
          assert SameKey(sites[j], sites[i]);
          collide := true;
        }
        claimed := claimed + {sites[i].key};
      }
    }
  }

  function LiveKeys(sites: seq<Site>): set<string> {
    set i | 0 <= i < |sites| && Baselineable(sites[i]) :: sites[i].key
  }

  predicate Violates(sites: seq<Site>, baseline: set<string>) {
    exists i :: 0 <= i < |sites| && (!Baselineable(sites[i]) || sites[i].key !in baseline)
  }

  lemma {:induction false} DistinctWithSameMembers(a: seq<string>, b: seq<string>)
    requires Distinct(a) && Distinct(b) && forall x :: x in a <==> x in b
    ensures multiset(a) == multiset(b)
  {
    forall x ensures multiset(a)[x] == multiset(b)[x] {
      DistinctMultiplicity(a, x);
      DistinctMultiplicity(b, x);
    }
  }

  lemma {:induction false} DistinctMultiplicity(a: seq<string>, x: string)
    requires Distinct(a)
    ensures multiset(a)[x] == if x in a then 1 else 0
  {
    if a != [] {
      var k := |a| - 1;
      DistinctMultiplicity(a[..k], x);
      assert a == a[..k] + [a[k]];
    }
  }

  lemma {:induction false} MultiplicityOneIsDistinct(a: seq<string>)
    requires forall x :: multiset(a)[x] <= 1
    ensures Distinct(a)
  {
    forall i, j | 0 <= i < j < |a| ensures a[i] != a[j] {
      assert a == a[..j] + [a[j]] + a[j + 1..];
      assert a[i] in a[..j];
      assert multiset(a)[a[j]] == multiset(a[..j])[a[j]] + 1 + multiset(a[j + 1..])[a[j]];
    }
  }

  /** A ledger line that no over-cap function stands behind any more, or only one that
      may not be on the ledger. */
  ghost predicate IsStale(sites: seq<Site>, entry: string) {
    forall s :: s in sites && s.key == entry ==> s.status == Unsuppressed || s.status == Blanket
  }

  lemma StaleIffNotLive(sites: seq<Site>, entry: string)
    ensures IsStale(sites, entry) <==> entry !in LiveKeys(sites)
  {
    if entry in LiveKeys(sites) {
      var i :| 0 <= i < |sites| && Baselineable(sites[i]) && sites[i].key == entry;
      assert sites[i] in sites;
    }
  }

  /** Exit code zero exactly when the configuration pins hold and the ledger is exact;
      exit code two exactly when the scan cannot be trusted: a ledger that does not
      load, a key two functions claim, or a stale line. */
  method CmdScan(sites: seq<Site>, file: Option<Content>, pinsHold: bool, wellFormed: string -> bool) returns (code: int)
    ensures code == 0 <==> pinsHold && LedgerIsExact(sites, file, wellFormed)
    ensures code == 2 <==>
            || !Loadable(Entries(Lines(file)), wellFormed) || Collides(sites)
            || exists e :: e in Entries(Lines(file)) && IsStale(sites, e)
    ensures 0 <= code <= 2
  {
    var baseline := LoadBaseline(file, wellFormed);
    if baseline.None? {
      return 2;
    }
    var collide := FindCollision(sites);
    var stale := baseline.value - LiveKeys(sites);
    CleanIffExact(sites, Entries(Lines(file)), baseline.value);
    forall e ensures e in stale <==> e in Entries(Lines(file)) && IsStale(sites, e) {
      StaleIffNotLive(sites, e);
    }
    if collide || stale != {} {
      return 2;
    }
    if pinsHold && !Violates(sites, baseline.value) {
      return 0;
    }
    return 1;
  }

  lemma CleanIffExact(sites: seq<Site>, entries: seq<string>, baseline: set<string>)
    requires Distinct(entries) && forall e :: e in baseline <==> e in entries
    ensures !Collides(sites) && baseline - LiveKeys(sites) == {} && !Violates(sites, baseline) <==>
            AllBaselineable(sites) && multiset(Keys(sites)) == multiset(entries)
  {
    if !Collides(sites) && baseline - LiveKeys(sites) == {} && !Violates(sites, baseline) {
      CleanIsExact(sites, entries, baseline);
    }
    if AllBaselineable(sites) && multiset(Keys(sites)) == multiset(entries) {
      ExactIsClean(sites, entries, baseline);
    }
  }

  lemma CleanIsExact(sites: seq<Site>, entries: seq<string>, baseline: set<string>)
    requires Distinct(entries) && forall e :: e in baseline <==> e in entries
    requires !Collides(sites) && baseline - LiveKeys(sites) == {} && !Violates(sites, baseline)
    ensures AllBaselineable(sites) && multiset(Keys(sites)) == multiset(entries)
  {
    var keys := Keys(sites);
    assert AllBaselineable(sites);
    forall i, j | 0 <= i < j < |keys| ensures keys[i] != keys[j] {
      assert !SameKey(sites[i], sites[j]);
    }
    forall x ensures x in keys <==> x in entries {
      if x in keys {
        var i :| 0 <= i < |sites| && keys[i] == x;
        assert sites[i].key in baseline;
      }
      if x in entries {
        assert x in baseline && x !in baseline - LiveKeys(sites);
        var i :| 0 <= i < |sites| && Baselineable(sites[i]) && sites[i].key == x;
        assert keys[i] == x;
      }
    }
    DistinctWithSameMembers(keys, entries);
  }

  lemma ExactIsClean(sites: seq<Site>, entries: seq<string>, baseline: set<string>)
    requires Distinct(entries) && forall e :: e in baseline <==> e in entries
    requires AllBaselineable(sites) && multiset(Keys(sites)) == multiset(entries)
    ensures !Collides(sites) && baseline - LiveKeys(sites) == {} && !Violates(sites, baseline)
  {
    var keys := Keys(sites);
    forall x ensures multiset(keys)[x] <= 1 && (x in keys <==> x in entries) {
      DistinctMultiplicity(entries, x);
      assert x in keys <==> x in multiset(keys);
    }
    MultiplicityOneIsDistinct(keys);
    forall i, j | 0 <= i < j < |sites| ensures !SameKey(sites[i], sites[j]) {
      assert keys[i] != keys[j];
    }
    forall i | 0 <= i < |sites| ensures sites[i].key in baseline {
      assert keys[i] in keys;
    }
    forall e | e in baseline ensures e in LiveKeys(sites) {
      assert e in keys;
      var i :| 0 <= i < |keys| && keys[i] == e;
      assert Baselineable(sites[i]) && sites[i].key == e;
    }
  }

  // ---------- what a collision means ----------

  /** The classes and functions around a definition, then its own name. */
  ghost function ChainAt(file: File, at: Address): seq<string>
    requires IsDefinition(file.tree.stmts, at)
  {
    ScopeAt(file.tree.stmts, at, MODULE_SCOPE).names + [DefinitionAt(file.tree.stmts, at).name]
  }

  /** The parser only makes names that are identifiers. */
  ghost predicate NamesAreIdentifiers(file: File, caps: Caps) {
    forall at :: IsOverCapAt(file, caps, at) ==> AreIdentifiers(ChainAt(file, at))
  }

  ghost predicate SameDefinition(file: File, caps: Caps, a: Entry, b: Entry)
    requires a in OverCapEntries(file, caps) && b in OverCapEntries(file, caps)
  {
    EntryIsOverCap(file, caps, a);
    EntryIsOverCap(file, caps, b);
    ChainAt(file, a.at) == ChainAt(file, b.at) && a.candidate.argCount == b.candidate.argCount
  }

  /** Keys agree only for one file, one chain of names and one arity. */
  lemma KeysAgreeIff(file: File, file': File, caps: Caps, ruff: Ruff, a: Entry, b: Entry)
    requires a in OverCapEntries(file, caps) && b in OverCapEntries(file', caps)
    requires NamesAreIdentifiers(file, caps) && NamesAreIdentifiers(file', caps)
    ensures IsOverCapAt(file, caps, a.at) && IsOverCapAt(file', caps, b.at)
    ensures SiteOf(file, a.candidate, ruff).key == SiteOf(file', b.candidate, ruff).key <==>
            file.rel == file'.rel && ChainAt(file, a.at) == ChainAt(file', b.at) && a.candidate.argCount == b.candidate.argCount
  {
    EntryIsOverCap(file, caps, a);
    EntryIsOverCap(file', caps, b);
    var chain, chain' := ChainAt(file, a.at), ChainAt(file', b.at);
    if SiteOf(file, a.candidate, ruff).key == SiteOf(file', b.candidate, ruff).key {
      KeyIsInjective(file.rel, chain, a.candidate.argCount, file'.rel, chain', b.candidate.argCount);
    }
  }

  /** Two baselineable definitions of one name and arity in one file. */
  ghost predicate Redefines(file: File, caps: Caps, ruff: Ruff) {
    var entries := OverCapEntries(file, caps);
    exists p, q :: 0 <= p < q < |entries| && Twins(file, caps, ruff, entries[p], entries[q])
  }

  ghost predicate Twins(file: File, caps: Caps, ruff: Ruff, a: Entry, b: Entry)
    requires a in OverCapEntries(file, caps) && b in OverCapEntries(file, caps)
  {
    && Baselineable(SiteOf(file, a.candidate, ruff)) && Baselineable(SiteOf(file, b.candidate, ruff))
    && SameDefinition(file, caps, a, b)
  }

  lemma TwinsCollide(file: File, caps: Caps, ruff: Ruff, p: nat, q: nat)
    requires NamesAreIdentifiers(file, caps) && p < |OverCapEntries(file, caps)| && q < |OverCapEntries(file, caps)|
    ensures var entries, sites := OverCapEntries(file, caps), FileSites(file, caps, ruff);
            Twins(file, caps, ruff, entries[p], entries[q]) <==> SameKey(sites[p], sites[q])
  {
    KeysAgreeIff(file, file, caps, ruff, OverCapEntries(file, caps)[p], OverCapEntries(file, caps)[q]);
  }

  lemma FileCollidesIff(file: File, caps: Caps, ruff: Ruff)
    requires NamesAreIdentifiers(file, caps)
    ensures Collides(FileSites(file, caps, ruff)) <==> Redefines(file, caps, ruff)
  {
    var entries, sites := OverCapEntries(file, caps), FileSites(file, caps, ruff);
    forall p, q | 0 <= p < q < |entries|
      ensures Twins(file, caps, ruff, entries[p], entries[q]) <==> SameKey(sites[p], sites[q])
    {
      TwinsCollide(file, caps, ruff, p, q);
    }
  }

  lemma FilesDoNotShareKeys(file: File, file': File, caps: Caps, ruff: Ruff, s: Site, t: Site)
    requires file.rel != file'.rel && NamesAreIdentifiers(file, caps) && NamesAreIdentifiers(file', caps)
    requires s in FileSites(file, caps, ruff) && t in FileSites(file', caps, ruff)
    ensures s.key != t.key
  {
    var p :| 0 <= p < |OverCapEntries(file, caps)| && FileSites(file, caps, ruff)[p] == s;
    var q :| 0 <= q < |OverCapEntries(file', caps)| && FileSites(file', caps, ruff)[q] == t;
    KeysAgreeIff(file, file', caps, ruff, OverCapEntries(file, caps)[p], OverCapEntries(file', caps)[q]);
  }

  lemma {:induction false} SiteHasFile(files: seq<File>, caps: Caps, ruff: Ruff, s: Site) returns (i: nat)
    requires s in AllSites(files, caps, ruff)
    ensures i < |files| && s in FileSites(files[i], caps, ruff)
  {
    i := |files| - 1;
    if s !in FileSites(files[i], caps, ruff) {
      i := SiteHasFile(files[..i], caps, ruff, s);
    }
  }

  ghost predicate ShareNoKey(a: seq<Site>, b: seq<Site>) {
    forall s, t :: s in a && t in b ==> s.key != t.key
  }

  lemma CollidesAppend(a: seq<Site>, b: seq<Site>)
    requires ShareNoKey(a, b)
    ensures Collides(a + b) <==> Collides(a) || Collides(b)
  {
    if Collides(a + b) {
      var i, j :| 0 <= i < j < |a + b| && SameKey((a + b)[i], (a + b)[j]);
      if j < |a| {
        assert SameKey(a[i], a[j]);
      } else if i >= |a| {
        assert SameKey(b[i - |a|], b[j - |a|]);
      }
    }
    if Collides(a) {
      var i, j :| 0 <= i < j < |a| && SameKey(a[i], a[j]);
      assert SameKey((a + b)[i], (a + b)[j]);
    }
    if Collides(b) {
      var i, j :| 0 <= i < j < |b| && SameKey(b[i], b[j]);
      assert SameKey((a + b)[|a| + i], (a + b)[|a| + j]);
    }
  }

  ghost predicate DistinctFiles(files: seq<File>) {
    forall i, j :: 0 <= i < j < |files| ==> files[i].rel != files[j].rel
  }

  ghost predicate AllNamesAreIdentifiers(files: seq<File>, caps: Caps) {
    forall i :: 0 <= i < |files| ==> NamesAreIdentifiers(files[i], caps)
  }

  ghost predicate SomeRedefines(files: seq<File>, caps: Caps, ruff: Ruff) {
    exists i :: 0 <= i < |files| && Redefines(files[i], caps, ruff)
  }

  lemma SomeRedefinesStep(files: seq<File>, caps: Caps, ruff: Ruff)
    requires files != []
    ensures SomeRedefines(files, caps, ruff) <==>
            SomeRedefines(files[..|files| - 1], caps, ruff) || Redefines(files[|files| - 1], caps, ruff)
  {
    var k := |files| - 1;
    if i :| 0 <= i < k && Redefines(files[..k][i], caps, ruff) {
      assert files[i] == files[..k][i];
    }
    if i :| 0 <= i < |files| && Redefines(files[i], caps, ruff) && i < k {
      assert files[i] == files[..k][i];
    }
  }

  /** The scan refuses a key space exactly when one file defines two over-cap functions
      under one chain of names with one arity; different files never collide. */
  lemma {:induction false} CollisionIffRedefinition(files: seq<File>, caps: Caps, ruff: Ruff)
    requires DistinctFiles(files) && AllNamesAreIdentifiers(files, caps)
    ensures Collides(AllSites(files, caps, ruff)) <==> SomeRedefines(files, caps, ruff)
  {
    if files != [] {
      var k := |files| - 1;
      var before, last := AllSites(files[..k], caps, ruff), FileSites(files[k], caps, ruff);
      CollisionIffRedefinition(files[..k], caps, ruff);
      forall s, t | s in before && t in last ensures s.key != t.key {
        var i := SiteHasFile(files[..k], caps, ruff, s);
        FilesDoNotShareKeys(files[i], files[k], caps, ruff, s, t);
      }
      CollidesAppend(before, last);
      FileCollidesIff(files[k], caps, ruff);
      SomeRedefinesStep(files, caps, ruff);
    }
  }

  // ---------- histories ----------

  const LEDGER_STEM := "argument_count_suppression"

  const LEDGER_PATH := "scripts/" + (LEDGER_STEM + "_baseline.txt")

  lemma LedgerStemIsSpelled()
    ensures Spelled(LEDGER_STEM)
  {
    assert IsStem(LEDGER_STEM);
    SpelledIsStem(LEDGER_STEM);
  }

  /** The growth gate guards the ledger, and counts its lines. */
  lemma LedgerIsGuarded(ledger: Option<Content>)
    ensures IsBaselinePath(LEDGER_PATH)
    ensures Measured(ledger, LEDGER_PATH).keys == CountTextEntries(Lines(ledger))
  {
    LedgerStemIsSpelled();
    TextNameIsGuarded(LEDGER_STEM, "_baseline.txt");
    TextNameIsNoJson(LEDGER_STEM, "_baseline.txt");
    assert CountTextEntries([]) == 0;
  }

  /** A commit: its tree, its caps, ruff's answers, and its ledger file. */
  datatype Commit = Commit(files: seq<File>, caps: Caps, ruff: Ruff, ledger: Option<Content>, pinsHold: bool)

  /** What the scan's exit code zero means for a commit. */
  ghost predicate ScanAccepts(c: Commit, wellFormed: string -> bool) {
    && RuffAnswers(c.files, c.caps, c.ruff)
    && c.pinsHold && LedgerIsExact(AllSites(c.files, c.caps, c.ruff), c.ledger, wellFormed)
  }

  /** An accepted commit has as many ledger lines as over-cap definitions. */
  lemma LedgerCountsTheTree(c: Commit, wellFormed: string -> bool)
    requires ScanAccepts(c, wellFormed)
    ensures CountTextEntries(Lines(c.ledger)) == OverCapCount(c.files, c.caps) == WideCount(c.files, c.caps)
  {
    OverCapIsWide(c.files, c.caps);
    var sites := AllSites(c.files, c.caps, c.ruff);
    OneSiteEach(c.files, c.caps, c.ruff);
    BothCountTheSameLines(Lines(c.ledger));
    assert |multiset(Keys(sites))| == |Keys(sites)|;
    assert |multiset(Entries(Lines(c.ledger)))| == |Entries(Lines(c.ledger))|;
  }

  ghost function Ledgers(h: seq<Commit>): seq<Option<Content>> {
    seq(|h|, i requires 0 <= i < |h| => h[i].ledger)
  }

  /** Every commit passes the scan, and every change of the ledger a growth gate run. */
  ghost predicate AcceptedHistory(h: seq<Commit>, wellFormed: string -> bool) {
    && (forall i :: 0 <= i < |h| ==> ScanAccepts(h[i], wellFormed))
    && AcceptedStates(LEDGER_PATH, Ledgers(h))
  }

  /** The cap is closed: along any accepted history the number of over-cap definitions
      never increases. */
  lemma OverCapNeverGrows(h: seq<Commit>, wellFormed: string -> bool, i: nat, j: nat)
    requires AcceptedHistory(h, wellFormed) && i <= j < |h|
    ensures OverCapCount(h[j].files, h[j].caps) <= OverCapCount(h[i].files, h[i].caps)
  {
    LedgerIsGuarded(h[i].ledger);
    LedgerIsGuarded(h[j].ledger);
    BaselineNeverGrows(LEDGER_PATH, Ledgers(h), i, j);
    LedgerCountsTheTree(h[i], wellFormed);
    LedgerCountsTheTree(h[j], wellFormed);
  }
}
