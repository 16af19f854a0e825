/** What `write_files` in build.py computes once its file reads and writes are
    taken away: the resolved version, the profile validation, the UI,
    background and manifest records, the settings env text and the release
    version bump, and the sequence of files the run writes. */
module Config {
  import opened Wrappers
  import opened Strings
  import opened Dicts
  import opened Values
  import opened EnvFile

  /** The command-line flags after parsing; `version` is None when `-v` is not given. */
  datatype Args = Args(
    genesys: string,
    okta: string,
    extension: string,
    version: Option<string>,
    clean: bool,
    chromeStore: bool,
    dev: bool,
    support: bool,
    release: bool,
    zip: bool,
    nowrite: bool)

  /** templates.json, as the categories the build script reads from it. */
  datatype Template = Template(
    genesys: Dict<Dict<Scalar>>,
    okta: Dict<Dict<Scalar>>,
    extensionSettings: Dict<Dict<Json>>,
    extensionDefault: Dict<Json>,
    uiDefault: Dict<Scalar>,
    backgroundDefault: Dict<Scalar>,
    backgroundDev: Dict<Scalar>,
    buildTypes: Dict<Dict<Scalar>>,
    settingsDevDefault: Dict<Scalar>)

  /** What the run reads besides the flags: the template, the VERSION file
      (None when it cannot be opened), and package.json and lerna.json. */
  datatype Inputs = Inputs(
    template: Template,
    versionFile: Option<string>,
    packageJson: Dict<Json>,
    lernaJson: Dict<Json>)

  datatype Failure =
    | VersionFileMissing             // no `-v` and the VERSION file cannot be read
    | InvalidArguments               // a selected profile is not in the template: exit(1)
    | MissingKey(path: seq<string>)  // a KeyError on a nested template lookup
    | NotAString(key: string)        // a manifest field joined into the archive name is not a string

  /** The files `write_files` produces, independent of the path separator. */
  datatype OutFile =
    | UiEnv              // modules/aic-ui/.env
    | BackgroundDevEnv   // modules/aic-bg/config/dev.env.json
    | BackgroundProdEnv  // modules/aic-bg/config/prod.env.json
    | ManifestJson       // modules/extension/manifest.json
    | SettingsEnv        // modules/aic-ui-utils/aic_settings/.env
    | PackageJson        // package.json
    | LernaJson          // lerna.json

  function FileName(f: OutFile): string
  {
    match f
    case UiEnv => ".env"
    case BackgroundDevEnv => "dev.env.json"
    case BackgroundProdEnv => "prod.env.json"
    case ManifestJson => "manifest.json"
    case SettingsEnv => ".env"
    case PackageJson => "package.json"
    case LernaJson => "lerna.json"
  }

  /** Which background env file the run writes. */
  function BackgroundEnvFile(dev: bool): (f: OutFile)
    ensures FileName(f) == if dev then "dev.env.json" else "prod.env.json"
  {
    if dev then BackgroundDevEnv else BackgroundProdEnv
  }

  datatype Document =
    | EnvDoc(text: string)                 // a `KEY=VALUE` file
    | FlatJsonDoc(record: Dict<Scalar>)    // a JSON object of scalars
    | JsonDoc(fields: Dict<Json>)          // a JSON object

  datatype Write = Write(file: OutFile, doc: Document)

  /** The files written, in order, and the failure that stopped the run, if any. */
  datatype Materialized = Materialized(writes: seq<Write>, failure: Option<Failure>)

  // ---------------------------------------------------------------------------
  // Version

  /** The version: a non-empty `-v` value stripped, otherwise the VERSION file
      stripped. An empty `-v ""` is falsy in Python and falls back to the file. */
  function ResolveVersion(cli: Option<string>, versionFile: Option<string>): (r: Result<string, Failure>)
    ensures r.Err? <==> (cli.None? || cli.value == "") && versionFile.None?
    ensures r.Err? ==> r.error == VersionFileMissing
    ensures r.Ok? ==> Strip(r.value) == r.value
  {
    if cli.Some? && cli.value != "" then
      StripIdempotent(cli.value);
      Ok(Strip(cli.value))
    else if versionFile.None? then
      Err(VersionFileMissing)
    else
      StripIdempotent(versionFile.value);
      Ok(Strip(versionFile.value))
  }

  /** A given, non-empty `-v` decides the version whatever the VERSION file holds,
      and the file decides it otherwise. */
  lemma VersionPrecedence(cli: Option<string>, file1: Option<string>, file2: Option<string>)
    ensures cli.Some? && cli.value != "" ==>
      ResolveVersion(cli, file1) == ResolveVersion(cli, file2) == Ok(Strip(cli.value))
    ensures (cli.None? || cli.value == "") && file1.Some? ==>
      ResolveVersion(cli, file1) == Ok(Strip(file1.value))
  {
  }

  /** A `-v` of only whitespace is truthy, so it does not fall back to the
      VERSION file: the version comes out empty. */
  lemma BlankCliVersion(cli: string, file: Option<string>)
    requires cli != "" && AllSpace(cli)
    ensures ResolveVersion(Some(cli), file) == Ok("")
  {
    StripEmpty(cli);
  }

  // ---------------------------------------------------------------------------
  // Validation

  /** The profile names a run selects, as it looks them up. */
  datatype Selection = Selection(genesys: string, okta: string, extension: string)

  /** The `-g`, `-o` and `-e` values, stripped. */
  function Selected(args: Args): Selection
  {
    Selection(Strip(args.genesys), Strip(args.okta), Strip(args.extension))
  }

  /** The three selected profile names are keys of their categories. */
  predicate ProfilesValid(s: Selection, t: Template)
  {
    && s.genesys in Keys(t.genesys)
    && s.okta in Keys(t.okta)
    && s.extension in Keys(t.extensionSettings)
  }

  // ---------------------------------------------------------------------------
  // UI record

  const UiKeys: seq<string> := ["REACT_APP_DEBUGING", "REACT_APP_VERSION", "GENERATE_SOURCEMAP"]

  /** The three keys `write_files` sets on `uiDefault`, in the order it sets them. */
  function UiOverlay(dev: bool, version: string): (o: Dict<Scalar>)
    ensures Keys(o) == UiKeys
  {
    [("REACT_APP_DEBUGING", Bool(dev)), ("REACT_APP_VERSION", Str(version)), ("GENERATE_SOURCEMAP", Bool(dev))]
  }

  function UiRecord(uiDefault: Dict<Scalar>, dev: bool, version: string): Dict<Scalar>
  {
    Update(uiDefault, UiOverlay(dev, version))
  }

  /** Updating with the UI overlay is the three key assignments `write_files`
      makes, in its order. */
  lemma UiAssignments(uiDefault: Dict<Scalar>, dev: bool, version: string)
    ensures UiRecord(uiDefault, dev, version)
      == Assign(Assign(Assign(uiDefault, "REACT_APP_DEBUGING", Bool(dev)),
                       "REACT_APP_VERSION", Str(version)),
                "GENERATE_SOURCEMAP", Bool(dev))
  {
    var o := UiOverlay(dev, version);
    assert o[..0] == [];
    UpdateLast(uiDefault, o, 1);
    UpdateLast(uiDefault, o, 2);
    UpdateLast(uiDefault, o, 3);
    assert o[..3] == o;
  }

  /** Both debug flags carry the dev flag and the version is the resolved one;
      every other key keeps its value and every key its position, new keys
      being appended in the order they are set. */
  lemma UiRecordSpec(uiDefault: Dict<Scalar>, dev: bool, version: string)
    ensures var r := UiRecord(uiDefault, dev, version);
      && Get(r, "REACT_APP_DEBUGING") == Some(Bool(dev))
      && Get(r, "GENERATE_SOURCEMAP") == Some(Bool(dev))
      && Get(r, "REACT_APP_VERSION") == Some(Str(version))
      && (forall k | k !in UiKeys :: Get(r, k) == Get(uiDefault, k))
      && Keys(r) == Keys(uiDefault) + Missing(UiKeys, Keys(uiDefault))
  {
    var o := UiOverlay(dev, version);
    var r := UiRecord(uiDefault, dev, version);
    UpdateKeys(uiDefault, o);
    forall k
      ensures Get(r, k) == if k in UiKeys then Get(o, k) else Get(uiDefault, k)
    {
      UpdateGet(uiDefault, o, k);
    }
    GetAt(o, 0);
    GetAt(o, 1);
    GetAt(o, 2);
  }

  // ---------------------------------------------------------------------------
  // Background record

  /** The last overlay, `{'VERSION': version}`. */
  function VersionEntry(version: string): Dict<Scalar>
  {
    [("VERSION", Str(version))]
  }

  /** The overlays `write_files` applies to an empty dict, first to last. */
  function BackgroundLayers(t: Template, genesys: Dict<Scalar>, okta: Dict<Scalar>, dev: bool,
                            buildType: Dict<Scalar>, version: string): seq<Dict<Scalar>>
  {
    [t.backgroundDefault, genesys, okta]
      + (if dev then [t.backgroundDev] else [])
      + [buildType, VersionEntry(version)]
  }

  /** Applying the background layers is the chain of `update` calls on an
      empty dict that `write_files` makes. */
  lemma BackgroundUpdates(t: Template, genesys: Dict<Scalar>, okta: Dict<Scalar>, dev: bool,
                          buildType: Dict<Scalar>, version: string)
    ensures var base := Update(Update(Update([], t.backgroundDefault), genesys), okta);
      var withDev := if dev then Update(base, t.backgroundDev) else base;
      UpdateAll([], BackgroundLayers(t, genesys, okta, dev, buildType, version))
        == Update(Update(withDev, buildType), VersionEntry(version))
  {
    var ls := BackgroundLayers(t, genesys, okta, dev, buildType, version);
    var n := |ls|;
    var versionEntry := VersionEntry(version);
    var mid := ls[..n - 2];
    assert ls[..n - 1] == mid + [buildType];
    assert ls == ls[..n - 1] + [versionEntry];
    UpdateAllSnoc([], ls[..n - 1], versionEntry);
    UpdateAllSnoc([], mid, buildType);
    var base3 := [t.backgroundDefault, genesys, okta];
    assert base3 == [] + [t.backgroundDefault] + [genesys] + [okta];
    UpdateAllSnoc([], [], t.backgroundDefault);
    UpdateAllSnoc([], [t.backgroundDefault], genesys);
    UpdateAllSnoc([], [t.backgroundDefault, genesys], okta);
    if dev {
      assert mid == base3 + [t.backgroundDev];
      UpdateAllSnoc([], base3, t.backgroundDev);
    } else {
      assert mid == base3;
    }
  }

  function BuildTypeName(chromeStore: bool): string
  {
    if chromeStore then "chrome-store" else "default"
  }

  /** The background record, or the KeyError its lookups raise. */
  function BackgroundRecord(t: Template, g: string, o: string, dev: bool, chromeStore: bool,
                            version: string): Result<Dict<Scalar>, Failure>
  {
    var genesys := Get(t.genesys, g);
    var okta := Get(t.okta, o);
    var buildType := Get(t.buildTypes, BuildTypeName(chromeStore));
    if genesys.None? then Err(MissingKey(["genesys", g]))
    else if okta.None? then Err(MissingKey(["okta", o]))
    else if buildType.None? then Err(MissingKey(["buildTypes", BuildTypeName(chromeStore)]))
    else Ok(UpdateAll([], BackgroundLayers(t, genesys.value, okta.value, dev, buildType.value, version)))
  }

  /** The background record exists exactly when the three lookups succeed; each
      key takes its value from the last layer that holds it (defaults, genesys
      profile, okta profile, dev overlay, build type, version), so VERSION is
      always the resolved version; a key no layer holds is absent. */
  lemma BackgroundSpec(t: Template, g: string, o: string, dev: bool, chromeStore: bool, version: string)
    ensures var r := BackgroundRecord(t, g, o, dev, chromeStore, version);
      && (r.Ok? <==> g in Keys(t.genesys) && o in Keys(t.okta) && BuildTypeName(chromeStore) in Keys(t.buildTypes))
      && (r.Ok? ==>
        var layers := BackgroundLayers(t, Get(t.genesys, g).value, Get(t.okta, o).value, dev,
                                       Get(t.buildTypes, BuildTypeName(chromeStore)).value, version);
        && Get(r.value, "VERSION") == Some(Str(version))
        && (forall i, k | 0 <= i < |layers| && k in Keys(layers[i]) &&
              (forall j | i < j < |layers| :: k !in Keys(layers[j])) ::
              Get(r.value, k) == Get(layers[i], k))
        && (forall k | (forall j | 0 <= j < |layers| :: k !in Keys(layers[j])) :: Get(r.value, k).None?)
        && Keys(r.value) == Dedup(AllKeys(layers)))
  {
    var r := BackgroundRecord(t, g, o, dev, chromeStore, version);
    if r.Ok? {
      var layers := BackgroundLayers(t, Get(t.genesys, g).value, Get(t.okta, o).value, dev,
                                     Get(t.buildTypes, BuildTypeName(chromeStore)).value, version);
      var n := |layers| - 1;
      var last := VersionEntry(version);
      assert layers[n] == last;
      GetAt(last, 0);
      LastWriterWins([], layers, n, "VERSION");
      forall i, k | 0 <= i < |layers| && k in Keys(layers[i]) &&
          (forall j | i < j < |layers| :: k !in Keys(layers[j]))
        ensures Get(r.value, k) == Get(layers[i], k)
      {
        LastWriterWins([], layers, i, k);
      }
      forall k | (forall j | 0 <= j < |layers| :: k !in Keys(layers[j]))
        ensures Get(r.value, k).None?
      {
        UntouchedKeyKept([], layers, k);
      }
      UpdateAllFromEmptyKeys(layers);
    }
  }

  // ---------------------------------------------------------------------------
  // Manifest record

  /** The keys `write_files` sets on the default manifest, in the order it sets them. */
  function ManifestOverlay(support: bool, name: Json, version: string): Dict<Json>
  {
    (if support then [("options_page", Leaf(Str("settings.html")))] else [])
      + [("name", name), ("version", Leaf(Str(version)))]
  }

  /** Updating with the manifest overlay is the assignments `write_files`
      makes, in its order. */
  lemma ManifestAssignments(d: Dict<Json>, support: bool, name: Json, version: string)
    ensures var withOptions := if support then Assign(d, "options_page", Leaf(Str("settings.html"))) else d;
      Update(d, ManifestOverlay(support, name, version))
        == Assign(Assign(withOptions, "name", name), "version", Leaf(Str(version)))
  {
    var o := ManifestOverlay(support, name, version);
    assert o[..0] == [];
    UpdateLast(d, o, 1);
    UpdateLast(d, o, 2);
    if support {
      UpdateLast(d, o, 3);
      assert o[..3] == o;
    } else {
      assert o[..2] == o;
    }
  }

  /** The manifest record, or the KeyError its lookups raise. */
  function ManifestRecord(t: Template, e: string, support: bool, version: string): Result<Dict<Json>, Failure>
  {
    match Get(t.extensionSettings, e)
    case None => Err(MissingKey(["extension", "settings", e]))
    case Some(profile) =>
      match Get(profile, "name")
      case None => Err(MissingKey(["extension", "settings", e, "name"]))
      case Some(name) => Ok(Update(t.extensionDefault, ManifestOverlay(support, name, version)))
  }

  /** The fields of the default manifest after the overlay. */
  lemma ManifestFields(d: Dict<Json>, support: bool, name: Json, version: string)
    ensures var m := Update(d, ManifestOverlay(support, name, version));
      && Get(m, "name") == Some(name)
      && Get(m, "version") == Some(Leaf(Str(version)))
      && Get(m, "options_page") == (if support then Some(Leaf(Str("settings.html"))) else Get(d, "options_page"))
      && (forall k | k != "name" && k != "version" && k != "options_page" :: Get(m, k) == Get(d, k))
  {
    var o := ManifestOverlay(support, name, version);
    var ks := (if support then ["options_page"] else []) + ["name", "version"];
    assert Keys(o) == ks;
    forall k
      ensures Get(Update(d, o), k) == if k in ks then Get(o, k) else Get(d, k)
    {
      UpdateGet(d, o, k);
    }
    var n := |o|;
    GetAt(o, n - 2);
    GetAt(o, n - 1);
    if support {
      GetAt(o, 0);
    }
  }

  /** The field order of the default manifest after the overlay. */
  lemma ManifestKeys(d: Dict<Json>, support: bool, name: Json, version: string)
    ensures Keys(Update(d, ManifestOverlay(support, name, version)))
      == Keys(d) + Missing((if support then ["options_page"] else []) + ["name", "version"], Keys(d))
  {
    var o := ManifestOverlay(support, name, version);
    assert Keys(o) == (if support then ["options_page"] else []) + ["name", "version"];
    UpdateKeys(d, o);
  }

  /** The manifest is the default manifest with `name` from the selected
      extension profile, `version` the resolved version, and `options_page`
      set to settings.html in support mode only; every other field keeps its
      value and every field its position. */
  lemma ManifestSpec(t: Template, e: string, support: bool, version: string)
    ensures var r := ManifestRecord(t, e, support, version);
      var profile := Get(t.extensionSettings, e);
      && (r.Ok? <==> profile.Some? && "name" in Keys(profile.value))
      && (r.Ok? ==>
        var m := r.value;
        var d := t.extensionDefault;
        && Get(m, "name") == Get(profile.value, "name")
        && Get(m, "version") == Some(Leaf(Str(version)))
        && Get(m, "options_page") == (if support then Some(Leaf(Str("settings.html"))) else Get(d, "options_page"))
        && (forall k | k != "name" && k != "version" && k != "options_page" :: Get(m, k) == Get(d, k))
        && Keys(m) == Keys(d) + Missing((if support then ["options_page"] else []) + ["name", "version"], Keys(d)))
  {
    var profile := Get(t.extensionSettings, e);
    if profile.Some? && "name" in Keys(profile.value) {
      var name := Get(profile.value, "name").value;
      ManifestFields(t.extensionDefault, support, name, version);
      ManifestKeys(t.extensionDefault, support, name, version);
    }
  }

  // ---------------------------------------------------------------------------
  // Release version bump

  /** package.json and lerna.json on release: `version` set to the resolved version. */
  function ReleaseBump(doc: Dict<Json>, version: string): Dict<Json>
  {
    Assign(doc, "version", Leaf(Str(version)))
  }

  /** The bump changes the `version` field and nothing else: every other field
      keeps its value and every field its position. */
  lemma ReleaseBumpSpec(doc: Dict<Json>, version: string)
    ensures var r := ReleaseBump(doc, version);
      && Get(r, "version") == Some(Leaf(Str(version)))
      && (forall k | k != "version" :: Get(r, k) == Get(doc, k))
      && Keys(r) == if "version" in Keys(doc) then Keys(doc) else Keys(doc) + ["version"]
  {
    forall k
      ensures Get(ReleaseBump(doc, version), k) == if k == "version" then Some(Leaf(Str(version))) else Get(doc, k)
    {
      AssignGet(doc, "version", Leaf(Str(version)), k);
    }
  }

  // ---------------------------------------------------------------------------
  // The whole of write_files

  /** The files a complete run writes, in order. */
  function PlannedFiles(args: Args): seq<OutFile>
  {
    [UiEnv, BackgroundEnvFile(args.dev), ManifestJson] + LaterFiles(args)
  }

  function LaterFiles(args: Args): seq<OutFile>
  {
    (if args.support then [SettingsEnv] else []) + (if args.release then [PackageJson, LernaJson] else [])
  }

  /** The UI env file write. */
  function UiWrite(t: Template, dev: bool, version: string): Write
  {
    Write(UiEnv, EnvDoc(EnvText(UiRecord(t.uiDefault, dev, version))))
  }

  /** The writes after the manifest: the settings env file in support mode,
      then package.json and lerna.json on release. */
  function LaterWrites(args: Args, inp: Inputs, version: string): seq<Write>
  {
    (if args.support then [Write(SettingsEnv, EnvDoc(EnvText(inp.template.settingsDevDefault)))] else [])
      + (if args.release then
           [Write(PackageJson, JsonDoc(ReleaseBump(inp.packageJson, version))),
            Write(LernaJson, JsonDoc(ReleaseBump(inp.lernaJson, version)))]
         else [])
  }

  lemma LaterWritesFollowPlan(args: Args, inp: Inputs, version: string)
    ensures var later := LaterWrites(args, inp, version);
      |later| == |LaterFiles(args)| && forall i | 0 <= i < |later| :: later[i].file == LaterFiles(args)[i]
  {
    var settings := if args.support then [Write(SettingsEnv, EnvDoc(EnvText(inp.template.settingsDevDefault)))] else [];
    var release :=
      if args.release then
        [Write(PackageJson, JsonDoc(ReleaseBump(inp.packageJson, version))),
         Write(LernaJson, JsonDoc(ReleaseBump(inp.lernaJson, version)))]
      else [];
    assert LaterWrites(args, inp, version) == settings + release;
    var f1 := if args.support then [SettingsEnv] else [];
    var f2 := if args.release then [PackageJson, LernaJson] else [];
    assert |settings| == |f1| && forall i | 0 <= i < |f1| :: settings[i].file == f1[i];
    assert |release| == |f2| && forall i | 0 <= i < |f2| :: release[i].file == f2[i];
  }

  /** `write_files`: what it writes, in order, and where it stops. */
  function Materialize(args: Args, inp: Inputs): Materialized
  {
    match ResolveVersion(args.version, inp.versionFile)
    case Err(f) => Materialized([], Some(f))
    case Ok(version) =>
      var sel := Selected(args);
      if !ProfilesValid(sel, inp.template) then Materialized([], Some(InvalidArguments))
      else Produce(args, sel, inp, version)
  }

  /** What `write_files` writes once the version is known and the selection valid. */
  function Produce(args: Args, sel: Selection, inp: Inputs, version: string): Materialized
  {
    var t := inp.template;
    var ui := UiWrite(t, args.dev, version);
    match BackgroundRecord(t, sel.genesys, sel.okta, args.dev, args.chromeStore, version)
    case Err(f) => Materialized([ui], Some(f))
    case Ok(bg) =>
      var bgWrite := Write(BackgroundEnvFile(args.dev), FlatJsonDoc(bg));
      match ManifestRecord(t, sel.extension, args.support, version)
      case Err(f) => Materialized([ui, bgWrite], Some(f))
      case Ok(manifest) =>
        Materialized([ui, bgWrite, Write(ManifestJson, JsonDoc(manifest))] + LaterWrites(args, inp, version), None)
  }

  /** The three ways `Produce` ends, each by the outcome of the lookups. */
  lemma ProduceOutcomes(args: Args, sel: Selection, inp: Inputs, version: string)
    ensures var t := inp.template;
      var m := Produce(args, sel, inp, version);
      var ui := UiWrite(t, args.dev, version);
      var b := BackgroundRecord(t, sel.genesys, sel.okta, args.dev, args.chromeStore, version);
      var mr := ManifestRecord(t, sel.extension, args.support, version);
      && (b.Err? ==> m == Materialized([ui], Some(b.error)))
      && (b.Ok? && mr.Err? ==>
            m == Materialized([ui, Write(BackgroundEnvFile(args.dev), FlatJsonDoc(b.value))], Some(mr.error)))
      && (b.Ok? && mr.Ok? ==>
            m == Materialized([ui, Write(BackgroundEnvFile(args.dev), FlatJsonDoc(b.value)),
                               Write(ManifestJson, JsonDoc(mr.value))] + LaterWrites(args, inp, version), None))
  {
  }

  lemma BackgroundLookupFailure(t: Template, g: string, o: string, dev: bool, chromeStore: bool, version: string)
    ensures var r := BackgroundRecord(t, g, o, dev, chromeStore, version); r.Err? ==> r.error.MissingKey?
  {
  }

  lemma ManifestLookupFailure(t: Template, e: string, support: bool, version: string)
    ensures var r := ManifestRecord(t, e, support, version); r.Err? ==> r.error.MissingKey?
  {
  }

  /** Past validation, the only ways `write_files` fails are the KeyErrors of
      the background and manifest lookups. */
  lemma ProduceFailsOnLookup(args: Args, sel: Selection, inp: Inputs, version: string)
    ensures var m := Produce(args, sel, inp, version); m.failure.None? || m.failure.value.MissingKey?
  {
    BackgroundLookupFailure(inp.template, sel.genesys, sel.okta, args.dev, args.chromeStore, version);
    ManifestLookupFailure(inp.template, sel.extension, args.support, version);
  }

  /** Validation is all or nothing: an invalid profile name, like a missing
      VERSION file, stops the run before any file is written, and a valid
      selection never fails validation. */
  lemma ValidationAllOrNothing(args: Args, inp: Inputs)
    ensures var m := Materialize(args, inp);
      && (m.failure == Some(InvalidArguments) <==>
            ResolveVersion(args.version, inp.versionFile).Ok? && !ProfilesValid(Selected(args), inp.template))
      && (m.failure == Some(InvalidArguments) || m.failure == Some(VersionFileMissing) ==> m.writes == [])
  {
    var rv := ResolveVersion(args.version, inp.versionFile);
    if rv.Ok? && ProfilesValid(Selected(args), inp.template) {
      ProduceFailsOnLookup(args, Selected(args), inp, rv.value);
    }
  }

  /** `writes` is a prefix of `plan` file by file: all of it exactly when
      there is no failure, at most its first two files otherwise. */
  predicate FollowsPlan(writes: seq<Write>, failure: Option<Failure>, plan: seq<OutFile>)
  {
    && |writes| <= |plan|
    && (forall i | 0 <= i < |writes| :: writes[i].file == plan[i])
    && (failure.None? <==> |writes| == |plan|)
    && (failure.Some? ==> 1 <= |writes| <= 2)
  }

  /** A run stopped by a failed lookup has written the first one or two
      planned files. */
  lemma StoppedRunFollowsPlan(args: Args, ws: seq<Write>, f: Failure)
    requires 1 <= |ws| <= 2 && ws[0].file == UiEnv && (|ws| == 2 ==> ws[1].file == BackgroundEnvFile(args.dev))
    ensures FollowsPlan(ws, Some(f), PlannedFiles(args))
  {
    PlanStart(args);
  }

  /** Past validation, the files written follow the plan. */
  lemma ProduceFollowsPlan(args: Args, sel: Selection, inp: Inputs, version: string)
    ensures var m := Produce(args, sel, inp, version); FollowsPlan(m.writes, m.failure, PlannedFiles(args))
  {
    ProduceOutcomes(args, sel, inp, version);
    var t := inp.template;
    var b := BackgroundRecord(t, sel.genesys, sel.okta, args.dev, args.chromeStore, version);
    var mr := ManifestRecord(t, sel.extension, args.support, version);
    var ui := UiWrite(t, args.dev, version);
    if b.Err? {
      StoppedRunFollowsPlan(args, [ui], b.error);
    } else {
      var bgWrite := Write(BackgroundEnvFile(args.dev), FlatJsonDoc(b.value));
      if mr.Err? {
        StoppedRunFollowsPlan(args, [ui, bgWrite], mr.error);
      } else {
        CompleteRunFollowsPlan(args, inp, version, ui, bgWrite, Write(ManifestJson, JsonDoc(mr.value)));
      }
    }
  }

  lemma PlanStart(args: Args)
    ensures var plan := PlannedFiles(args);
      |plan| >= 3 && plan[0] == UiEnv && plan[1] == BackgroundEnvFile(args.dev) && plan[2] == ManifestJson
  {
  }

  /** The writes of a complete run, file by file, are the plan. */
  lemma CompleteRunFollowsPlan(args: Args, inp: Inputs, version: string, ui: Write, bg: Write, manifest: Write)
    requires ui.file == UiEnv && bg.file == BackgroundEnvFile(args.dev) && manifest.file == ManifestJson
    ensures FollowsPlan([ui, bg, manifest] + LaterWrites(args, inp, version), None, PlannedFiles(args))
  {
    var later := LaterWrites(args, inp, version);
    var ws := [ui, bg, manifest] + later;
    var tail := LaterFiles(args);
    var plan := PlannedFiles(args);
    LaterWritesFollowPlan(args, inp, version);
    forall i | 0 <= i < |ws|
      ensures ws[i].file == plan[i]
    {
      if i >= 3 {
        assert ws[i] == later[i - 3];
        assert plan[i] == tail[i - 3];
      }
    }
  }

  /** A run writes the planned files in the planned order; a run that fails
      part-way has written a prefix of them, and never the manifest. */
  lemma WritesFollowPlan(args: Args, inp: Inputs)
    ensures var m := Materialize(args, inp);
      var plan := PlannedFiles(args);
      && |m.writes| <= |plan|
      && (forall i | 0 <= i < |m.writes| :: m.writes[i].file == plan[i])
      && (m.failure.None? <==> |m.writes| == |plan|)
      && (m.failure.Some? ==> |m.writes| <= 2)
  {
    var rv := ResolveVersion(args.version, inp.versionFile);
    if rv.Ok? && ProfilesValid(Selected(args), inp.template) {
      ProduceFollowsPlan(args, Selected(args), inp, rv.value);
    }
  }

  /** A run succeeds exactly when the version resolves, the selection is valid,
      the build type overlay exists and the extension profile has a name. */
  lemma MaterializeSucceeds(args: Args, inp: Inputs)
    ensures Materialize(args, inp).failure.None? <==>
      var sel := Selected(args);
      && ResolveVersion(args.version, inp.versionFile).Ok?
      && ProfilesValid(sel, inp.template)
      && BuildTypeName(args.chromeStore) in Keys(inp.template.buildTypes)
      && "name" in Keys(Get(inp.template.extensionSettings, sel.extension).value)
  {
    var t := inp.template;
    var sel := Selected(args);
    var rv := ResolveVersion(args.version, inp.versionFile);
    if rv.Ok? && ProfilesValid(sel, t) {
      BackgroundSpec(t, sel.genesys, sel.okta, args.dev, args.chromeStore, rv.value);
      ManifestSpec(t, sel.extension, args.support, rv.value);
    }
  }

  /** Past validation, the UI env file is written first. */
  lemma ProduceWritesUiFirst(args: Args, sel: Selection, inp: Inputs, version: string)
    ensures var m := Produce(args, sel, inp, version);
      m.writes != [] && m.writes[0] == UiWrite(inp.template, args.dev, version)
  {
  }

  /** In dev mode the UI env text holds the line `REACT_APP_DEBUGING=true`. */
  lemma DevUiEnvEnablesDebug(uiDefault: Dict<Scalar>, version: string) returns (before: string, after: string)
    ensures EnvText(UiRecord(uiDefault, true, version)) == before + "REACT_APP_DEBUGING=true\n" + after
    ensures before == [] || before[|before| - 1] == '\n'
  {
    var r := UiRecord(uiDefault, true, version);
    assert Get(r, "REACT_APP_DEBUGING") == Some(Bool(true)) by {
      UiRecordSpec(uiDefault, true, version);
    }
    before, after := LineOfKey(r, "REACT_APP_DEBUGING");
    DebugLine();
  }

  lemma DebugLine()
    ensures Line(("REACT_APP_DEBUGING", Bool(true))) == "REACT_APP_DEBUGING=true\n"
  {
  }

  /** A dev run that passes validation writes the UI env file first, with
      debugging on, whether or not a later lookup fails. */
  lemma DevRunEnablesDebug(args: Args, inp: Inputs) returns (before: string, after: string)
    requires args.dev
    requires ResolveVersion(args.version, inp.versionFile).Ok? && ProfilesValid(Selected(args), inp.template)
    ensures var m := Materialize(args, inp);
      m.writes != [] && m.writes[0] == Write(UiEnv, EnvDoc(before + "REACT_APP_DEBUGING=true\n" + after))
    ensures before == [] || before[|before| - 1] == '\n'
  {
    var version := ResolveVersion(args.version, inp.versionFile).value;
    ProduceWritesUiFirst(args, Selected(args), inp, version);
    before, after := DevUiEnvEnablesDebug(inp.template.uiDefault, version);
  }

}
