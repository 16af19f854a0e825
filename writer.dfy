/** `write_files` as the build script runs it: assignments and `update` calls
    on dicts, the loops that build the env texts, and the early exits, proved
    to produce exactly the writes and the failure of `Config.Materialize`. */
module Writer {
  import opened Wrappers
  import opened Strings
  import opened Dicts
  import opened Values
  import opened EnvFile
  import opened Config

  /** The three key assignments on the UI dict. */
  method BuildUiRecord(uiDefault: Dict<Scalar>, dev: bool, version: string) returns (ui: Dict<Scalar>)
    ensures ui == UiRecord(uiDefault, dev, version)
  {
    ui := uiDefault;
    ui := Assign(ui, "REACT_APP_DEBUGING", Bool(dev));
    ui := Assign(ui, "REACT_APP_VERSION", Str(version));
    ui := Assign(ui, "GENERATE_SOURCEMAP", Bool(dev));
    UiAssignments(uiDefault, dev, version);
  }

  /** The successive `update` calls on an empty dict that build the background
      record, after the genesys, okta and build type lookups whose KeyErrors
      end the run. */
  method BuildBackground(t: Template, g: string, o: string, dev: bool, chromeStore: bool, version: string)
    returns (r: Result<Dict<Scalar>, Failure>)
    ensures r == BackgroundRecord(t, g, o, dev, chromeStore, version)
  {
    var genesys := Get(t.genesys, g);
    if genesys.None? {
      return Err(MissingKey(["genesys", g]));
    }
    var okta := Get(t.okta, o);
    if okta.None? {
      return Err(MissingKey(["okta", o]));
    }
    var buildType := Get(t.buildTypes, BuildTypeName(chromeStore));
    if buildType.None? {
      return Err(MissingKey(["buildTypes", BuildTypeName(chromeStore)]));
    }
    var bg: Dict<Scalar> := [];
    bg := Update(bg, t.backgroundDefault);
    bg := Update(bg, genesys.value);
    bg := Update(bg, okta.value);
    if dev {
      bg := Update(bg, t.backgroundDev);
    }
    bg := Update(bg, buildType.value);
    bg := Update(bg, VersionEntry(version));
    BackgroundUpdates(t, genesys.value, okta.value, dev, buildType.value, version);
    r := Ok(bg);
  }

  /** The manifest: the name looked up first, then `options_page` (support
      mode only), `name` and `version` assigned on the default manifest. */
  method BuildManifest(t: Template, e: string, support: bool, version: string)
    returns (r: Result<Dict<Json>, Failure>)
    ensures r == ManifestRecord(t, e, support, version)
  {
    var profile := Get(t.extensionSettings, e);
    if profile.None? {
      return Err(MissingKey(["extension", "settings", e]));
    }
    var name := Get(profile.value, "name");
    if name.None? {
      return Err(MissingKey(["extension", "settings", e, "name"]));
    }
    var manifest := t.extensionDefault;
    if support {
      manifest := Assign(manifest, "options_page", Leaf(Str("settings.html")));
    }
    manifest := Assign(manifest, "name", name.value);
    manifest := Assign(manifest, "version", Leaf(Str(version)));
    ManifestAssignments(t.extensionDefault, support, name.value, version);
    r := Ok(manifest);
  }

  /** The settings env file in support mode, then the package.json and
      lerna.json version bumps on release. */
  method WriteLater(args: Args, inp: Inputs, version: string) returns (later: seq<Write>)
    ensures later == LaterWrites(args, inp, version)
  {
    later := [];
    if args.support {
      var settingsText := WriteEnvByKey(inp.template.settingsDevDefault);
      later := later + [Write(SettingsEnv, EnvDoc(settingsText))];
    }
    if args.release {
      later := later + [Write(PackageJson, JsonDoc(ReleaseBump(inp.packageJson, version)))];
      later := later + [Write(LernaJson, JsonDoc(ReleaseBump(inp.lernaJson, version)))];
    }
  }

  /** `write_files` from the validated selection on: the UI record and its
      env loop, the background record, the manifest, then the later files,
      each file written as soon as it is ready. */
  method WriteRecords(args: Args, sel: Selection, inp: Inputs, version: string)
    returns (writes: seq<Write>, failure: Option<Failure>)
    ensures Materialized(writes, failure) == Produce(args, sel, inp, version)
  {
    ProduceOutcomes(args, sel, inp, version);
    var t := inp.template;
    var ui := BuildUiRecord(t.uiDefault, args.dev, version);
    var uiText := WriteEnvItems(ui);
    var uiWrite := Write(UiEnv, EnvDoc(uiText));
    assert uiWrite == UiWrite(t, args.dev, version);

    var bg := BuildBackground(t, sel.genesys, sel.okta, args.dev, args.chromeStore, version);
    if bg.Err? {
      return [uiWrite], Some(bg.error);
    }
    var bgWrite := Write(BackgroundEnvFile(args.dev), FlatJsonDoc(bg.value));

    var manifest := BuildManifest(t, sel.extension, args.support, version);
    if manifest.Err? {
      return [uiWrite, bgWrite], Some(manifest.error);
    }
    var later := WriteLater(args, inp, version);
    writes := [uiWrite, bgWrite, Write(ManifestJson, JsonDoc(manifest.value))] + later;
    failure := None;
  }

  /** The step-by-step `write_files`: the version (a non-empty `-v` first, the
      VERSION file otherwise), the validation exit, then the records. */
  method WriteFiles(args: Args, inp: Inputs) returns (writes: seq<Write>, failure: Option<Failure>)
    ensures Materialized(writes, failure) == Materialize(args, inp)
  {
    var version: string;
    if args.version.Some? && args.version.value != "" {
      version := Strip(args.version.value);
    } else if inp.versionFile.None? {
      return [], Some(VersionFileMissing);
    } else {
      version := Strip(inp.versionFile.value);
    }
    assert ResolveVersion(args.version, inp.versionFile) == Ok(version);

    var t := inp.template;
    var sel := Selection(Strip(args.genesys), Strip(args.okta), Strip(args.extension));
    assert sel == Selected(args);
    if sel.genesys !in Keys(t.genesys) || sel.okta !in Keys(t.okta) || sel.extension !in Keys(t.extensionSettings) {
      return [], Some(InvalidArguments);
    }
    writes, failure := WriteRecords(args, sel, inp, version);
  }
}
