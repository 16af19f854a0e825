/** The decisions of the `__main__` block of build.py once argument parsing,
    subprocesses, threads and file contents are taken away: whether files are
    written, which background variant and which sub-builds are launched, the
    gate that drains the build results, the copy steps and where they stop,
    and the archive `zip` names. */
module Driver {
  import opened Wrappers
  import opened Dicts
  import opened Values
  import opened Config
  import opened Writer

  // ---------------------------------------------------------------------------
  // Background build variant and sub-builds

  datatype Variant = Prod | Dev | Support

  function VariantName(v: Variant): string
  {
    match v
    case Prod => "prod"
    case Dev => "dev"
    case Support => "support"
  }

  /** Support mode wins over dev mode, which wins over the production build. */
  function BackgroundVariant(support: bool, dev: bool): (v: Variant)
    ensures v == Support <==> support
    ensures v == Dev <==> !support && dev
    ensures v == Prod <==> !support && !dev
  {
    if support then Support else if dev then Dev else Prod
  }

  /** The npm script the background build runs for a variant. */
  function BackgroundCommand(v: Variant): string
  {
    "npm run build-" + VariantName(v)
  }

  /** Different variants run different background scripts. */
  lemma BackgroundCommandInjective(v1: Variant, v2: Variant)
    requires BackgroundCommand(v1) == BackgroundCommand(v2)
    ensures v1 == v2
  {
    var n := |"npm run build-"|;
    assert BackgroundCommand(v1)[n..] == VariantName(v1);
    assert BackgroundCommand(v2)[n..] == VariantName(v2);
  }

  /** The sub-builds, one per tag they put on the result queue (`UI`, `BG`,
      `UI_UTILS_LOGIN`, `UI_UTILS_SETTINGS`). */
  datatype SubBuild = UI | BG | UiUtilsLogin | UiUtilsSettings

  /** The threads started, in start order: the UI and background builds always,
      the login and settings builds in support mode only; each once. */
  function Launched(support: bool): (bs: seq<SubBuild>)
    ensures |bs| == if support then 4 else 2
    ensures bs[0] == UI && bs[1] == BG
    ensures UiUtilsLogin in bs <==> support
    ensures UiUtilsSettings in bs <==> support
    ensures forall i, j | 0 <= i < j < |bs| :: bs[i] != bs[j]
  {
    [UI, BG] + (if support then [UiUtilsLogin, UiUtilsSettings] else [])
  }

  // ---------------------------------------------------------------------------
  // Draining the result queue

  /** One queue entry: the tag, the exit code and the captured output. */
  datatype BuildResult = BuildResult(build: SubBuild, code: int, output: string)

  predicate AllSucceeded(rs: seq<BuildResult>)
  {
    forall i | 0 <= i < |rs| :: rs[i].code == 0
  }

  /** The loop that empties the queue, clearing `zip_run` on any non-zero
      exit code. */
  method Drain(queue: seq<BuildResult>) returns (zipRun: bool)
    ensures zipRun <==> AllSucceeded(queue)
  {
    zipRun := true;
    var q := queue;
    while q != []
      invariant |q| <= |queue| && q == queue[|queue| - |q|..]
      invariant zipRun <==> AllSucceeded(queue[..|queue| - |q|])
      decreases |q|
    {
      var r := q[0];
      var done := |queue| - |q|;
      assert queue[..done + 1] == queue[..done] + [r];
      if r.code != 0 {
        zipRun := false;
      }
      q := q[1..];
    }
    assert queue[..|queue|] == queue;
  }

  /** The threads finish in any order; the gate does not depend on it. */
  lemma GateIgnoresOrder(rs1: seq<BuildResult>, rs2: seq<BuildResult>)
    requires multiset(rs1) == multiset(rs2)
    ensures AllSucceeded(rs1) <==> AllSucceeded(rs2)
  {
    if !AllSucceeded(rs1) {
      var i :| 0 <= i < |rs1| && rs1[i].code != 0;
      assert rs1[i] in multiset(rs2);
    }
    if !AllSucceeded(rs2) {
      var i :| 0 <= i < |rs2| && rs2[i].code != 0;
      assert rs2[i] in multiset(rs1);
    }
  }

  // ---------------------------------------------------------------------------
  // Archive name

  /** `name + '-' + version + '.zip'`. */
  function ArchiveFileName(name: string, version: string): string
  {
    name + "-" + version + ".zip"
  }

  /** For one extension name, the archive name determines the version. */
  lemma ArchiveFileNameInjective(name: string, v1: string, v2: string)
    requires ArchiveFileName(name, v1) == ArchiveFileName(name, v2)
    ensures v1 == v2
  {
    var a1, a2 := ArchiveFileName(name, v1), ArchiveFileName(name, v2);
    var n := |name| + 1;
    assert a1[n..|a1| - 4] == v1;
    assert a2[n..|a2| - 4] == v2;
  }

  predicate IsString(j: Json)
  {
    j.Leaf? && j.scalar.Str?
  }

  /** The archive name read from a manifest: a KeyError when `name` or
      `version` is missing, a TypeError when either is not a string. */
  function ArchiveName(manifest: Dict<Json>): (r: Result<string, Failure>)
    ensures r.Ok? <==>
      (exists n: string, v: string :: Get(manifest, "name") == Some(Leaf(Str(n))) && Get(manifest, "version") == Some(Leaf(Str(v))))
    ensures r.Ok? ==>
      r.value == ArchiveFileName(Get(manifest, "name").value.scalar.s, Get(manifest, "version").value.scalar.s)
    ensures r.Err? ==> r.error.MissingKey? || r.error.NotAString?
    ensures r.Err? ==> (r.error.MissingKey? <==> "name" !in Keys(manifest) || "version" !in Keys(manifest))
    ensures "name" !in Keys(manifest) ==> r == Err(MissingKey(["name"]))
  {
    var name: Option<Json> := Get(manifest, "name");
    var version: Option<Json> := Get(manifest, "version");
    if name.None? then Err(MissingKey(["name"]))
    else if version.None? then Err(MissingKey(["version"]))
    else if !IsString(name.value) then Err(NotAString("name"))
    else if !IsString(version.value) then Err(NotAString("version"))
    else Ok(ArchiveFileName(name.value.scalar.s, version.value.scalar.s))
  }

  /** manifest.json as the run leaves it: the last manifest written, or the
      one already on disk when none is. */
  function ManifestOnDisk(writes: seq<Write>, before: Dict<Json>): Dict<Json>
  {
    if writes == [] then before
    else
      var w := writes[|writes| - 1];
      if w.file == ManifestJson && w.doc.JsonDoc? then w.doc.fields
      else ManifestOnDisk(writes[..|writes| - 1], before)
  }

  /** Writes to other files leave manifest.json as it was. */
  lemma {:induction false} ManifestOnDiskSkips(a: seq<Write>, b: seq<Write>, before: Dict<Json>)
    requires forall i | 0 <= i < |b| :: b[i].file != ManifestJson
    ensures ManifestOnDisk(a + b, before) == ManifestOnDisk(a, before)
    decreases |b|
  {
    if b != [] {
      var n := |b| - 1;
      assert (a + b)[..|a + b| - 1] == a + b[..n];
      assert (a + b)[|a + b| - 1] == b[n];
      ManifestOnDiskSkips(a, b[..n], before);
    } else {
      assert a + b == a;
    }
  }

  // ---------------------------------------------------------------------------
  // The whole run

  /** The copy steps of `copy_build_files`, in order. */
  datatype CopyStep = UiStatic | UiIndex | BackgroundBuild | LoginDist | SettingsDist

  function CopyPlan(support: bool): (cs: seq<CopyStep>)
    ensures |cs| == if support then 5 else 3
    ensures cs[..3] == [UiStatic, UiIndex, BackgroundBuild]
    ensures support ==> cs[3..] == [LoginDist, SettingsDist]
    ensures LoginDist in cs <==> support
    ensures SettingsDist in cs <==> support
  {
    [UiStatic, UiIndex, BackgroundBuild] + (if support then [LoginDist, SettingsDist] else [])
  }

  /** The copies carried out, in order, and the step that raised, if any: a
      step whose build output is missing raises (`copy_tree` or `shutil.copy`)
      and ends the run, so the steps after it never happen. */
  function CopyOutcome(plan: seq<CopyStep>, missing: set<CopyStep>): (r: (seq<CopyStep>, Option<CopyStep>))
    ensures |r.0| <= |plan| && forall i | 0 <= i < |r.0| :: r.0[i] == plan[i] && r.0[i] !in missing
    ensures r.1.None? <==> forall i | 0 <= i < |plan| :: plan[i] !in missing
    ensures r.1.None? ==> r.0 == plan
    ensures r.1.Some? ==> |r.0| < |plan| && plan[|r.0|] == r.1.value && r.1.value in missing
  {
    if plan == [] then ([], None)
    else if plan[0] in missing then ([], Some(plan[0]))
    else
      var rest := CopyOutcome(plan[1..], missing);
      ([plan[0]] + rest.0, rest.1)
  }

  datatype Packaging =
    | Skipped                    // zip not requested or a build failed
    | Zipped(archive: string)    // the archive written under releases/
    | ZipFailed(failure: Failure)  // the archive name could not be formed

  datatype RunReport =
    | Aborted(writes: seq<Write>, failure: Failure)
    | CopyFailed(writes: seq<Write>, variant: Variant, launched: seq<SubBuild>, copies: seq<CopyStep>,
                 missingOutput: CopyStep)
    | Completed(writes: seq<Write>, variant: Variant, launched: seq<SubBuild>, copies: seq<CopyStep>,
                packaging: Packaging)

  /** The process exit status: 1 for `exit(1)` and for an uncaught exception,
      0 otherwise, even when a build failed. */
  function ExitStatus(r: RunReport): int
  {
    match r
    case Aborted(_, _) => 1
    case CopyFailed(_, _, _, _, _) => 1
    case Completed(_, _, _, _, ZipFailed(_)) => 1
    case Completed(_, _, _, _, _) => 0
  }

  /** The run, given the flags, what `write_files` reads, the manifest already
      on disk, the results the builds put on the queue and the build outputs
      missing when `copy_build_files` runs. */
  function Run(args: Args, inp: Inputs, manifestBefore: Dict<Json>, results: seq<BuildResult>,
               missing: set<CopyStep>): RunReport
  {
    var m := if args.nowrite then Materialized([], None) else Materialize(args, inp);
    if m.failure.Some? then Aborted(m.writes, m.failure.value)
    else AfterWrite(args, m.writes, manifestBefore, results, missing)
  }

  /** The run once `write_files` has returned (or was skipped) with `writes`:
      the builds, the copies and the zip gate. */
  function AfterWrite(args: Args, writes: seq<Write>, manifestBefore: Dict<Json>, results: seq<BuildResult>,
                      missing: set<CopyStep>): RunReport
  {
    var variant := BackgroundVariant(args.support, args.dev);
    var copy := CopyOutcome(CopyPlan(args.support), missing);
    if copy.1.Some? then CopyFailed(writes, variant, Launched(args.support), copy.0, copy.1.value)
    else
      var packaging :=
        if AllSucceeded(results) && args.zip then
          match ArchiveName(ManifestOnDisk(writes, manifestBefore))
          case Ok(name) => Zipped(name)
          case Err(f) => ZipFailed(f)
        else Skipped;
      Completed(writes, variant, Launched(args.support), copy.0, packaging)
  }

  /** The `__main__` block step by step. */
  method Orchestrate(args: Args, inp: Inputs, manifestBefore: Dict<Json>, results: seq<BuildResult>,
                     missing: set<CopyStep>)
    returns (report: RunReport)
    ensures report == Run(args, inp, manifestBefore, results, missing)
  {
    var writes: seq<Write> := [];
    if !args.nowrite {
      var failure;
      writes, failure := WriteFiles(args, inp);
      if failure.Some? {
        return Aborted(writes, failure.value);
      }
    }
    var variant := BackgroundVariant(args.support, args.dev);
    var launched := Launched(args.support);
    var zipRun := Drain(results);
    var copy := CopyOutcome(CopyPlan(args.support), missing);
    if copy.1.Some? {
      return CopyFailed(writes, variant, launched, copy.0, copy.1.value);
    }
    var packaging := Skipped;
    if zipRun && args.zip {
      var name := ArchiveName(ManifestOnDisk(writes, manifestBefore));
      packaging := if name.Ok? then Zipped(name.value) else ZipFailed(name.error);
    }
    report := Completed(writes, variant, launched, copy.0, packaging);
  }

  // ---------------------------------------------------------------------------
  // Properties of the run

  /** A failing `write_files` ends the run before any build is launched, with
      exit status 1; `--nowrite` skips it and never aborts. */
  lemma AbortsExactlyOnWriteFailure(args: Args, inp: Inputs, manifestBefore: Dict<Json>, results: seq<BuildResult>,
                                     missing: set<CopyStep>)
    ensures var r := Run(args, inp, manifestBefore, results, missing);
      && (r.Aborted? <==> !args.nowrite && Materialize(args, inp).failure.Some?)
      && (r.Aborted? ==> ExitStatus(r) == 1 && r.failure == Materialize(args, inp).failure.value)
      && (args.nowrite ==> !r.Aborted? && r.writes == [])
  {
  }

  /** After `write_files`, the run stops with exit status 1 exactly when a
      planned build output is missing, after the copies before it and without
      packaging; otherwise every planned copy is made. */
  lemma CopyFailureStops(args: Args, writes: seq<Write>, manifestBefore: Dict<Json>, results: seq<BuildResult>,
                         missing: set<CopyStep>)
    ensures var r := AfterWrite(args, writes, manifestBefore, results, missing);
      var plan := CopyPlan(args.support);
      && !r.Aborted?
      && (r.CopyFailed? <==> exists i | 0 <= i < |plan| :: plan[i] in missing)
      && (r.CopyFailed? ==>
            && ExitStatus(r) == 1 && r.missingOutput in missing
            && |r.copies| < |plan| && r.copies + [r.missingOutput] == plan[..|r.copies| + 1])
      && (r.Completed? ==> r.copies == plan)
  {
    CopyStopPrefix(CopyPlan(args.support), missing);
  }

  /** The copies made followed by the step that raised are a prefix of the plan. */
  lemma CopyStopPrefix(plan: seq<CopyStep>, missing: set<CopyStep>)
    ensures var copy := CopyOutcome(plan, missing);
      copy.1.Some? ==> copy.0 + [copy.1.value] == plan[..|copy.0| + 1]
  {
    var copy := CopyOutcome(plan, missing);
    if copy.1.Some? {
      assert copy.0 + [copy.1.value] == plan[..|copy.0| + 1];
    }
  }

  /** A run gets past `write_files` exactly when it skips it or it succeeds,
      and then it is the rest of the run on the files written. */
  lemma RunAfterWrite(args: Args, inp: Inputs, manifestBefore: Dict<Json>, results: seq<BuildResult>,
                      missing: set<CopyStep>)
    requires args.nowrite || Materialize(args, inp).failure.None?
    ensures Run(args, inp, manifestBefore, results, missing)
      == AfterWrite(args, if args.nowrite then [] else Materialize(args, inp).writes, manifestBefore, results, missing)
  {
  }

  /** Packaging runs exactly when zip was requested and every build exited 0;
      a failed build only skips packaging, and when the copies succeed the run
      still exits 0. */
  lemma PackagingGate(args: Args, inp: Inputs, manifestBefore: Dict<Json>, results: seq<BuildResult>,
                                     missing: set<CopyStep>)
    ensures var r := Run(args, inp, manifestBefore, results, missing);
      && (r.Completed? ==> (r.packaging.Skipped? <==> !(args.zip && AllSucceeded(results))))
      && (r.Completed? && !AllSucceeded(results) ==> ExitStatus(r) == 0)
  {
  }

  /** Writing a manifest and then other files leaves that manifest on disk. */
  lemma LastManifestWins(ui: Write, bg: Write, m: Dict<Json>, later: seq<Write>, before: Dict<Json>)
    requires forall i | 0 <= i < |later| :: later[i].file != ManifestJson
    ensures ManifestOnDisk([ui, bg, Write(ManifestJson, JsonDoc(m))] + later, before) == m
  {
    var head := [ui, bg, Write(ManifestJson, JsonDoc(m))];
    ManifestOnDiskSkips(head, later, before);
    assert head[..|head| - 1] == [ui, bg];
  }

  /** No write after the manifest goes to manifest.json. */
  lemma LaterWritesSkipManifest(args: Args, inp: Inputs, version: string)
    ensures var later := LaterWrites(args, inp, version);
      forall i | 0 <= i < |later| :: later[i].file != ManifestJson
  {
    var later := LaterWrites(args, inp, version);
    LaterWritesFollowPlan(args, inp, version);
    forall i | 0 <= i < |later| ensures later[i].file != ManifestJson {
      assert later[i].file == LaterFiles(args)[i];
    }
  }

  /** Past validation, a complete run leaves the manifest record on disk. */
  lemma ProducedManifest(args: Args, sel: Selection, inp: Inputs, version: string, manifestBefore: Dict<Json>)
    requires Produce(args, sel, inp, version).failure.None?
    ensures var mr := ManifestRecord(inp.template, sel.extension, args.support, version);
      mr.Ok? && ManifestOnDisk(Produce(args, sel, inp, version).writes, manifestBefore) == mr.value
  {
    var t := inp.template;
    ProduceOutcomes(args, sel, inp, version);
    var b := BackgroundRecord(t, sel.genesys, sel.okta, args.dev, args.chromeStore, version);
    var mr := ManifestRecord(t, sel.extension, args.support, version);
    LaterWritesSkipManifest(args, inp, version);
    LastManifestWins(UiWrite(t, args.dev, version), Write(BackgroundEnvFile(args.dev), FlatJsonDoc(b.value)),
                     mr.value, LaterWrites(args, inp, version), manifestBefore);
  }

  /** After a complete write run, manifest.json holds the manifest record of
      the selected extension profile. */
  lemma WrittenManifest(args: Args, inp: Inputs, manifestBefore: Dict<Json>)
    requires Materialize(args, inp).failure.None?
    ensures ResolveVersion(args.version, inp.versionFile).Ok?
    ensures var mr := ManifestRecord(inp.template, Selected(args).extension, args.support,
                                     ResolveVersion(args.version, inp.versionFile).value);
      mr.Ok? && ManifestOnDisk(Materialize(args, inp).writes, manifestBefore) == mr.value
  {
    var version := ResolveVersion(args.version, inp.versionFile).value;
    ProducedManifest(args, Selected(args), inp, version, manifestBefore);
  }

  /** A run that writes its files and packages names the archive after the
      selected extension profile's name and the resolved version. */
  lemma WrittenRunArchive(args: Args, inp: Inputs, manifestBefore: Dict<Json>, results: seq<BuildResult>,
                          missing: set<CopyStep>, profile: Dict<Json>, name: string)
    requires !args.nowrite && args.zip && AllSucceeded(results)
    requires Materialize(args, inp).failure.None?
    requires Get(inp.template.extensionSettings, Selected(args).extension) == Some(profile)
    requires Get(profile, "name") == Some(Leaf(Str(name)))
    ensures ResolveVersion(args.version, inp.versionFile).Ok?
    ensures var r := Run(args, inp, manifestBefore, results, missing);
      && (r.Completed? <==> forall s | s in CopyPlan(args.support) :: s !in missing)
      && (r.Completed? ==> r.packaging == Zipped(ArchiveFileName(name, ResolveVersion(args.version, inp.versionFile).value)))
  {
    WrittenManifest(args, inp, manifestBefore);
    var version := ResolveVersion(args.version, inp.versionFile).value;
    var writes := Materialize(args, inp).writes;
    ManifestFields(inp.template.extensionDefault, args.support, Leaf(Str(name)), version);
    assert ArchiveName(ManifestOnDisk(writes, manifestBefore)) == Ok(ArchiveFileName(name, version));
    RunAfterWrite(args, inp, manifestBefore, results, missing);
    PackagesArchive(args, writes, manifestBefore, results, missing, ArchiveFileName(name, version));
  }

  /** With zip requested and every build successful, a run whose copies
      succeed packages under the name read from manifest.json. */
  lemma PackagesArchive(args: Args, writes: seq<Write>, manifestBefore: Dict<Json>, results: seq<BuildResult>,
                        missing: set<CopyStep>, archive: string)
    requires args.zip && AllSucceeded(results)
    requires ArchiveName(ManifestOnDisk(writes, manifestBefore)) == Ok(archive)
    ensures var r := AfterWrite(args, writes, manifestBefore, results, missing);
      && (r.Completed? <==> forall s | s in CopyPlan(args.support) :: s !in missing)
      && (r.Completed? ==> r.packaging == Zipped(archive))
  {
  }

  /** With `--nowrite` the archive is named from the manifest already on disk. */
  lemma NoWriteRunArchive(args: Args, inp: Inputs, manifestBefore: Dict<Json>, results: seq<BuildResult>,
                          missing: set<CopyStep>)
    requires args.nowrite && args.zip && AllSucceeded(results)
    ensures var r := Run(args, inp, manifestBefore, results, missing);
      && (r.Completed? <==> forall s | s in CopyPlan(args.support) :: s !in missing)
      && (r.Completed? ==>
            match ArchiveName(manifestBefore)
            case Ok(name) => r.packaging == Zipped(name)
            case Err(f) => r.packaging == ZipFailed(f) && ExitStatus(r) == 1)
  {
  }
}
