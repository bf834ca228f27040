/** The exported schema and the check that lets a second consumer reuse it
    (`scripts/_openapi_export_shared.py`): the fingerprint of the sources can be read
    back, so over any run of edits, exports and damage a reused schema is the one
    the last export wrote, for the sources there are now. */
module SchemaCache {
  import opened Prelude
  import opened Decimals

  // ---------- the fingerprint ----------

  /** A source file: its path and its contents, both as bytes. */
  datatype Source = Source(rel: string, bytes: string)

  function Header(s: Source): string {
    s.rel + ":" + Decimal(|s.bytes|) + "\n"
  }

  /** Everything the digest is fed, one file after the other. */
  function Stream(sources: seq<Source>): string {
    if sources == [] then "" else Header(sources[0]) + sources[0].bytes + Stream(sources[1..])
  }

  ghost predicate NewlineFree(sources: seq<Source>) {
    forall i :: 0 <= i < |sources| ==> '\n' !in sources[i].rel
  }

  lemma HeaderHasNoNewline(s: Source)
    requires '\n' !in s.rel
    ensures '\n' !in s.rel + ":" + Decimal(|s.bytes|)
  {
    DecimalRoundTrip(|s.bytes|);
  }

  lemma {:induction false} HeaderIsInjective(a: Source, b: Source)
    requires a.rel + ":" + Decimal(|a.bytes|) == b.rel + ":" + Decimal(|b.bytes|)
    ensures a.rel == b.rel && |a.bytes| == |b.bytes|
  {
    DecimalRoundTrip(|a.bytes|);
    DecimalRoundTrip(|b.bytes|);
    SplitAtLast(a.rel, Decimal(|a.bytes|), b.rel, Decimal(|b.bytes|), ':');
    DecimalIsInjective(|a.bytes|, |b.bytes|);
  }

  lemma StreamStep(sources: seq<Source>)
    requires sources != []
    ensures var s := sources[0];
            Stream(sources) == (s.rel + ":" + Decimal(|s.bytes|)) + ['\n'] + (s.bytes + Stream(sources[1..]))
  {
  }

  /** The stream tells the files apart: paths may hold colons and digits, and contents
      anything at all, as long as no path holds a newline. */
  lemma {:induction false} StreamIsInjective(a: seq<Source>, b: seq<Source>)
    requires NewlineFree(a) && NewlineFree(b) && Stream(a) == Stream(b)
    ensures a == b
    decreases |a|
  {
    if a != [] && b != [] {
      StreamStep(a);
      StreamStep(b);
      HeaderHasNoNewline(a[0]);
      HeaderHasNoNewline(b[0]);
      var restA, restB := a[0].bytes + Stream(a[1..]), b[0].bytes + Stream(b[1..]);
      SplitAtFirst(a[0].rel + ":" + Decimal(|a[0].bytes|), restA, b[0].rel + ":" + Decimal(|b[0].bytes|), restB, '\n');
      HeaderIsInjective(a[0], b[0]);
      var n := |a[0].bytes|;
      assert a[0].bytes == restA[..n] && b[0].bytes == restB[..n];
      assert Stream(a[1..]) == restA[n..] && Stream(b[1..]) == restB[n..];
      StreamIsInjective(a[1..], b[1..]);
      assert a == [a[0]] + a[1..] && b == [b[0]] + b[1..];
    } else {
      StreamIsEmptyIff(a);
      StreamIsEmptyIff(b);
    }
  }

  lemma StreamIsEmptyIff(sources: seq<Source>)
    ensures Stream(sources) == "" <==> sources == []
  {
    if sources != [] {
      StreamStep(sources);
    }
  }

  /** A path with a newline can read as the header of another file: these two trees
      feed the digest the same bytes. */
  lemma NewlineInPathIsAmbiguous()
    ensures var a, b := [Source("a", "b:0\n")], [Source("a:4\nb", "")];
            a != b && Stream(a) == Stream(b)
  {
    var a, b := Source("a", "b:0\n"), Source("a:4\nb", "");
    assert Decimal(4) == "4" && Decimal(0) == "0";
    assert Header(a) == "a:4\n" && Header(b) == "a:4\nb:0\n";
    assert Stream([a][1..]) == "" && Stream([b][1..]) == "";
    assert Stream([a]) == "a:4\n" + "b:0\n" && Stream([b]) == "a:4\nb:0\n";
    assert "a:4\n" + "b:0\n" == "a:4\nb:0\n";
  }

  /** A hash in progress: the bytes it was given so far. */
  class Digest {
    var fed: string

    constructor ()
      ensures fed == ""
    {
      fed := "";
    }

    method Update(bytes: string)
      modifies this
      ensures fed == old(fed) + bytes
    {
      fed := fed + bytes;
    }
  }

  method SourceFingerprint(sources: seq<Source>, blake: string -> string) returns (hex: string)
    ensures hex == blake(Stream(sources))
  {
    var digest := new Digest();
    ghost var left := Stream(sources);
    assert sources[0..] == sources;
    for i := 0 to |sources|
      invariant left == Stream(sources[i..]) && digest.fed + left == Stream(sources)
    {
      assert sources[i..][0] == sources[i] && sources[i..][1..] == sources[i + 1..];
      ghost var before := digest.fed;
      digest.Update(Header(sources[i]));
      digest.Update(sources[i].bytes);
      left := Stream(sources[i + 1..]);
      FedStep(before, Header(sources[i]), sources[i].bytes, left);
    }
    assert sources[|sources|..] == [];
    assert digest.fed + "" == digest.fed;
    hex := blake(digest.fed);
  }

  lemma FedStep(before: string, header: string, bytes: string, left: string)
    ensures before + header + bytes + left == before + (header + bytes + left)
  {
  }

  // ---------- the files ----------

  datatype Json = Object(members: map<string, string>) | OtherJson

  /** The state file: absent, not a JSON object, or an object with these members. */
  datatype StateFile = Absent | Unusable | Recorded(version: Option<int>, sources: Option<string>, schemaSha: Option<string>)

  const STATE_VERSION := 1

  /** What the repository leaves to libraries: booting the app on the sources, the two
      hashes, and the JSON reader. */
  datatype Env = Env(build: seq<Source> -> string, blake: string -> string, sha: string -> string,
                     parse: string -> Option<Json>)

  datatype Disk = Disk(sources: seq<Source>, schemaFile: Option<string>, stateFile: StateFile)

  function StateOf(env: Env, sources: seq<Source>, text: string): StateFile {
    Recorded(Some(STATE_VERSION), Some(env.blake(Stream(sources))), Some(env.sha(text)))
  }

  /** The state file vouches for the schema file and for the sources as they are. */
  predicate Vouched(env: Env, disk: Disk) {
    disk.schemaFile.Some? && disk.stateFile == StateOf(env, disk.sources, disk.schemaFile.value)
  }

  /** What the check hands to a consumer: the schema when it is vouched for. */
  function Load(env: Env, disk: Disk): Option<Json> {
    if Vouched(env, disk) then
      var schema := env.parse(disk.schemaFile.value);
      if schema.Some? && schema.value.Object? then schema else None
    else None
  }

  class Checkout {
    var sources: seq<Source>
    var schemaFile: Option<string>
    var stateFile: StateFile

    constructor (sources: seq<Source>)
      ensures Contents() == Disk(sources, None, Absent)
    {
      this.sources, schemaFile, stateFile := sources, None, Absent;
    }

    function Contents(): Disk
      reads this
    {
      Disk(sources, schemaFile, stateFile)
    }

    method WriteSchema(text: string)
      modifies `schemaFile
      ensures schemaFile == Some(text)
    {
      schemaFile := Some(text);
    }

    /** Records what the schema just written was derived from. */
    method WriteExportState(env: Env, schemaJson: string)
      modifies `stateFile
      ensures stateFile == StateOf(env, sources, schemaJson)
    {
      var fingerprint := SourceFingerprint(sources, env.blake);
      stateFile := Recorded(Some(STATE_VERSION), Some(fingerprint), Some(env.sha(schemaJson)));
    }

    /** The two writes of an export, the state last. */
    method ExportSchema(env: Env, schemaJson: string)
      modifies `schemaFile, `stateFile
      ensures Contents() == Disk(old(sources), Some(schemaJson), StateOf(env, old(sources), schemaJson))
      ensures Vouched(env, Contents())
    {
      WriteSchema(schemaJson);
      WriteExportState(env, schemaJson);
    }

    /** The chain of checks a consumer runs; it touches nothing. */
    method LoadVerifiedSchema(env: Env) returns (schema: Option<Json>)
      ensures schema == Load(env, Contents())
    {
      if schemaFile.None? || stateFile.Absent? {
        return None;
      }
      if stateFile.Unusable? || stateFile.version != Some(STATE_VERSION) {
        return None;
      }
      var fingerprint := SourceFingerprint(sources, env.blake);
      if stateFile.sources != Some(fingerprint) {
        return None;
      }
      if stateFile.schemaSha != Some(env.sha(schemaFile.value)) {
        return None;
      }
      schema := env.parse(schemaFile.value);
      if schema.Some? && !schema.value.Object? {
        return None;
      }
    }
  }

  // ---------- runs ----------

  /** An export that was started: the sources it was built from, and its text. */
  datatype Build = Build(from: seq<Source>, text: string)

  /** An export that recorded its state, and the sources there were by then. */
  datatype Export = Export(build: Build, recordedFrom: seq<Source>)

  /** A checkout with its history: exports started, and the last one to finish. */
  datatype World = World(disk: Disk, started: set<Build>, last: Option<Export>)

  /** What can happen. An export writes the schema first and its state last, and may
      die, or be overtaken, in between. */
  datatype Step =
    | Edit(sources: seq<Source>)
    | StartExport
    | FinishExport(build: Build)
    | DamageSchema(file: Option<string>)
    | SpoilState(state: StateFile)

  /** A state some export could have recorded. */
  ghost predicate Genuine(env: Env, state: StateFile) {
    exists sources, text :: NewlineFree(sources) && state == StateOf(env, sources, text)
  }

  /** Damage to the state file may be of any kind that does not spell a genuine state. */
  ghost predicate Possible(env: Env, w: World, step: Step) {
    match step
    case Edit(sources) => NewlineFree(sources)
    case FinishExport(build) => build in w.started
    case SpoilState(state) => !Genuine(env, state)
    case _ => true
  }

  function After(env: Env, w: World, step: Step): World {
    match step
    case Edit(sources) => w.(disk := w.disk.(sources := sources))
    case StartExport =>
      var text := env.build(w.disk.sources);
      w.(disk := w.disk.(schemaFile := Some(text)), started := w.started + {Build(w.disk.sources, text)})
    case FinishExport(build) =>
      w.(disk := w.disk.(stateFile := StateOf(env, w.disk.sources, build.text)), last := Some(Export(build, w.disk.sources)))
    case DamageSchema(file) => w.(disk := w.disk.(schemaFile := file))
    case SpoilState(state) => w.(disk := w.disk.(stateFile := state))
  }

  /** An export that has built can write its state at any later time, also behind
      exports that started after it. */
  lemma BuiltExportCanFinish(env: Env, w: World, build: Build, step: Step)
    requires build in w.started
    ensures Possible(env, After(env, w, step), FinishExport(build))
  {
  }

  ghost predicate IsRun(env: Env, w: World, steps: seq<Step>)
    decreases |steps|
  {
    steps == [] || (Possible(env, w, steps[0]) && IsRun(env, After(env, w, steps[0]), steps[1..]))
  }

  ghost function End(env: Env, w: World, steps: seq<Step>): World
    decreases |steps|
  {
    if steps == [] then w else End(env, After(env, w, steps[0]), steps[1..])
  }

  ghost predicate Initial(w: World) {
    NewlineFree(w.disk.sources) && w == World(Disk(w.disk.sources, w.disk.schemaFile, Absent), {}, None)
  }

  /** What every step keeps: a genuine state file is the one the last finished export
      wrote, and every export was built from newline-free paths. */
  ghost predicate Coherent(env: Env, w: World) {
    && NewlineFree(w.disk.sources)
    && (forall b :: b in w.started ==> b.text == env.build(b.from))
    && (w.last.Some? ==> IsBuilt(env, w.last.value))
    && (Genuine(env, w.disk.stateFile) ==> LastIsRecorded(env, w))
  }

  ghost predicate LastIsRecorded(env: Env, w: World) {
    w.last.Some? && w.disk.stateFile == StateOf(env, w.last.value.recordedFrom, w.last.value.build.text)
  }

  ghost predicate IsBuilt(env: Env, e: Export) {
    NewlineFree(e.recordedFrom) && e.build.text == env.build(e.build.from)
  }

  lemma StepKeepsCoherent(env: Env, w: World, step: Step)
    requires Coherent(env, w) && Possible(env, w, step)
    ensures Coherent(env, After(env, w, step))
  {
    var after := After(env, w, step);
    match step {
      case StartExport =>
        forall b | b in after.started ensures b.text == env.build(b.from) {
        }
      case _ =>
    }
  }

  lemma {:induction false} RunKeepsCoherent(env: Env, w: World, steps: seq<Step>)
    requires Coherent(env, w) && IsRun(env, w, steps)
    ensures Coherent(env, End(env, w, steps))
    decreases |steps|
  {
    if steps != [] {
      StepKeepsCoherent(env, w, steps[0]);
      RunKeepsCoherent(env, After(env, w, steps[0]), steps[1..]);
    }
  }

  ghost predicate Injective(f: string -> string) {
    forall x, y :: f(x) == f(y) ==> x == y
  }

  lemma VouchedIsLastExport(env: Env, w: World)
    requires Coherent(env, w) && Vouched(env, w.disk) && Injective(env.blake) && Injective(env.sha)
    ensures w.last.Some? && w.disk.schemaFile == Some(w.last.value.build.text) && w.disk.sources == w.last.value.recordedFrom
  {
    assert Genuine(env, w.disk.stateFile);
    var e := w.last.value;
    assert env.blake(Stream(w.disk.sources)) == env.blake(Stream(e.recordedFrom));
    assert env.sha(w.disk.schemaFile.value) == env.sha(e.build.text);
    StreamIsInjective(w.disk.sources, e.recordedFrom);
  }

  /** After any run, a schema the check hands out is the one the last finished export
      wrote, and the sources are the ones that export recorded. */
  lemma LoadedIsLastExport(env: Env, start: World, steps: seq<Step>)
    requires Initial(start) && IsRun(env, start, steps) && Injective(env.blake) && Injective(env.sha)
    ensures var w := End(env, start, steps);
            Load(env, w.disk).Some? ==>
              && w.last.Some? && w.disk.schemaFile == Some(w.last.value.build.text)
              && w.disk.sources == w.last.value.recordedFrom
              && Load(env, w.disk) == env.parse(w.last.value.build.text)
  {
    RunKeepsCoherent(env, start, steps);
    var w := End(env, start, steps);
    if Load(env, w.disk).Some? {
      VouchedIsLastExport(env, w);
    }
  }

  ghost predicate BuildsApart(env: Env) {
    forall a, b :: env.build(a) == env.build(b) ==> a == b
  }

  /** A schema handed out is the text a rebuild would give exactly when the sources
      the last export was built from, and those it recorded, build alike; where
      different sources build differently, exactly when that export was not overtaken. */
  lemma LoadedIsRebuildIff(env: Env, start: World, steps: seq<Step>)
    requires Initial(start) && IsRun(env, start, steps) && Injective(env.blake) && Injective(env.sha)
    ensures var w := End(env, start, steps);
            Load(env, w.disk).Some? ==>
              && w.last.Some?
              && (w.disk.schemaFile == Some(env.build(w.disk.sources)) <==>
                  env.build(w.last.value.build.from) == env.build(w.last.value.recordedFrom))
              && (BuildsApart(env) ==>
                   (w.disk.schemaFile == Some(env.build(w.disk.sources)) <==> w.last.value.build.from == w.last.value.recordedFrom))
  {
    LoadedIsLastExport(env, start, steps);
    RunKeepsCoherent(env, start, steps);
  }

  /** No export is overtaken by an edit: each finishes on the sources it was built from. */
  ghost predicate IsQuietRun(env: Env, w: World, steps: seq<Step>)
    decreases |steps|
  {
    steps == [] || (Quiet(w, steps[0]) && IsQuietRun(env, After(env, w, steps[0]), steps[1..]))
  }

  ghost predicate Quiet(w: World, step: Step) {
    step.FinishExport? ==> step.build.from == w.disk.sources
  }

  lemma {:induction false} QuietRunRecordsWhatItBuilt(env: Env, w: World, steps: seq<Step>)
    requires IsQuietRun(env, w, steps)
    requires w.last.Some? ==> w.last.value.build.from == w.last.value.recordedFrom
    ensures var e := End(env, w, steps).last;
            e.Some? ==> e.value.build.from == e.value.recordedFrom
    decreases |steps|
  {
    if steps != [] {
      QuietRunRecordsWhatItBuilt(env, After(env, w, steps[0]), steps[1..]);
    }
  }

  /** On such runs a reused schema is always the one a rebuild would parse to,
      whatever was damaged, dropped or edited in between. */
  lemma LoadAgreesWithRebuild(env: Env, start: World, steps: seq<Step>)
    requires Initial(start) && IsRun(env, start, steps) && Injective(env.blake) && Injective(env.sha)
    requires IsQuietRun(env, start, steps)
    ensures var w := End(env, start, steps);
            Load(env, w.disk).Some? ==> Load(env, w.disk) == env.parse(env.build(w.disk.sources))
  {
    LoadedIsLastExport(env, start, steps);
    RunKeepsCoherent(env, start, steps);
    QuietRunRecordsWhatItBuilt(env, start, steps);
  }

  /** An edit between the build and the state write is vouched for: the schema of the
      old sources is handed out for the new ones, and it is not what a rebuild would
      write whenever the edit changes the schema. */
  lemma EditDuringExportIsTrusted(env: Env, start: World, edited: seq<Source>)
    requires Initial(start) && NewlineFree(edited)
    requires env.parse(env.build(start.disk.sources)).Some? && env.parse(env.build(start.disk.sources)).value.Object?
    ensures var build := Build(start.disk.sources, env.build(start.disk.sources));
            var steps := [StartExport, Edit(edited), FinishExport(build)];
            var w := End(env, start, steps);
            && IsRun(env, start, steps) && w.disk.sources == edited
            && Load(env, w.disk) == env.parse(env.build(start.disk.sources))
            && (w.disk.schemaFile == Some(env.build(w.disk.sources)) <==>
                env.build(edited) == env.build(start.disk.sources))
  {
    var build := Build(start.disk.sources, env.build(start.disk.sources));
    var w1 := After(env, start, StartExport);
    var w2 := After(env, w1, Edit(edited));
    var w3 := After(env, w2, FinishExport(build));
    ThreeSteps(env, start, StartExport, Edit(edited), FinishExport(build));
    assert build in w2.started;
    assert w3.disk == Disk(edited, Some(build.text), StateOf(env, edited, build.text));
  }

  lemma ThreeSteps(env: Env, w: World, a: Step, b: Step, c: Step)
    ensures var w1 := After(env, w, a);
            var w2 := After(env, w1, b);
            && End(env, w, [a, b, c]) == After(env, w2, c)
            && (Possible(env, w, a) && Possible(env, w1, b) && Possible(env, w2, c) ==> IsRun(env, w, [a, b, c]))
  {
    var w1 := After(env, w, a);
    var w2 := After(env, w1, b);
    assert [a, b, c][1..] == [b, c] && [b, c][1..] == [c] && [c][1..] == [];
    assert End(env, w2, [c]) == End(env, After(env, w2, c), []);
    assert End(env, w1, [b, c]) == End(env, w2, [c]);
    assert IsRun(env, After(env, w2, c), []);
  }

  /** Between its schema write and its state write, or for ever when it dies there, an
      export is trusted exactly when the last finished one recorded these very sources
      and this very text. */
  lemma UnfinishedExportIsNotTrusted(env: Env, w: World)
    requires Coherent(env, w) && Injective(env.blake) && Injective(env.sha)
    ensures Vouched(env, After(env, w, StartExport).disk) <==>
            LastIsRecorded(env, w) && w.last.value.recordedFrom == w.disk.sources
            && w.last.value.build.text == env.build(w.disk.sources)
  {
    var after := After(env, w, StartExport);
    StepKeepsCoherent(env, w, StartExport);
    if Vouched(env, after.disk) {
      assert Genuine(env, after.disk.stateFile);
      VouchedIsLastExport(env, after);
    }
  }

  /** An export that finished undisturbed is reused, not rebuilt. */
  lemma FinishedExportIsReused(env: Env, w: World)
    requires env.parse(env.build(w.disk.sources)).Some? && env.parse(env.build(w.disk.sources)).value.Object?
    ensures var started := After(env, w, StartExport);
            var finished := After(env, started, FinishExport(Build(w.disk.sources, env.build(w.disk.sources))));
            Load(env, finished.disk) == env.parse(env.build(finished.disk.sources))
  {
  }
}
