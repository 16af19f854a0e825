# build.py — a Dafny model of the extension build script

`build.py` builds a browser extension from a monorepo. The script works in three stages:

1. `write_files` resolves the version. It checks the selected genesys, okta and extension profiles against `templates.json`. It then writes, in this order:
   - the UI `.env` file;
   - the background `dev.env.json` or `prod.env.json`;
   - the extension `manifest.json`;
   - in support mode, the settings `.env` file;
   - on release, package.json and lerna.json with the version bumped.
2. The `__main__` block starts the UI and background builds, plus the login and settings builds in support mode. It drains their exit codes from a queue, copies the build outputs, and zips the extension when asked to and when no queued exit code is non-zero.
3. The archive is named `<manifest name>-<manifest version>.zip`.

This project models those decisions. The modules are:

- `Dicts` models Python dicts as insertion-ordered sequences of entries with distinct keys:
  - `Assign` is `d[k] = v`;
  - `Update` is `dict.update`;
  - `UpdateAll` is a series of updates.
- `Values` holds the JSON values the model covers: null, booleans, integers, strings, arrays and objects (floats are left out, see below).
- `Strings` holds `str.strip` (over the code points of `str.isspace`) and integer rendering.
- `EnvFile` holds the `KEY=VALUE` text format. It contains the two loops that build it (`.items()` and iteration by key) and the text's reading back.
- `Config` is the specification of `write_files`:
  - the version rule;
  - validation;
  - the UI, background and manifest records;
  - the release bump;
  - `Materialize`, the sequence of files written and the failure that stopped the run.
- `Writer` is `write_files` step by step. It uses the source's assignments, `update` calls, loops and early exits, and each method is proved equal to its `Config` counterpart.
- `Driver` is the `__main__` block:
  - the background variant;
  - the sub-builds launched;
  - the `Drain` loop over the result queue;
  - the packaging gate;
  - the archive name;
  - the exit status.

Files are logical identifiers (`Config.OutFile`), not paths. A run is a function from its inputs to the sequence of writes it makes:
- the flags (`Config.Args`);
- the template, the VERSION file, package.json and lerna.json (`Config.Inputs`);
- the manifest already on disk;
- the results the builds put on the queue.

## Model

| member | source | states |
|---|---|---|
| Config.ResolveVersion | build.py:41-45 | The version is the stripped `-v` value when it is given and non-empty; otherwise it is the stripped VERSION file. A missing file is an error exactly when no usable `-v` is given. The result is already stripped. |
| Config.VersionPrecedence | build.py:41-45 | A non-empty `-v` decides the version whatever the VERSION file holds; otherwise the file decides it. |
| Config.BlankCliVersion | build.py:41-42 | A `-v` made only of whitespace is truthy and gives the empty version; it does not fall back to the file. |
| Strings.StripEmpty | build.py:42 | `strip` gives the empty string exactly when the input is all whitespace. |
| Strings.StripIdempotent | build.py:42 | Stripping twice is stripping once. |
| Strings.StripDecompose | build.py:42 | Every string is leading whitespace, then its stripped form, then trailing whitespace. |
| Strings.StripPadded | build.py:52 | Padding a trimmed name with whitespace on both sides strips back to that name. |
| Strings.StripEnds | build.py:42 | A stripped string is empty or starts and ends with a non-space character. |
| Strings.TrimStartSuffix | build.py:42 | Trimming the start keeps a suffix, drops only whitespace, and leaves a non-space first character. |
| Strings.TrimEndPrefix | build.py:42 | Trimming the end keeps a prefix, drops only whitespace, and leaves a non-space last character. |
| Strings.TrimStartPadded | build.py:42 | Trimming the start of leading whitespace followed by a string that starts with a non-space character gives that string. |
| Strings.TrimEndPadded | build.py:42 | Trimming the end of a string that ends with a non-space character followed by whitespace gives that string. |
| Config.ValidationAllOrNothing | build.py:51-54 | The run exits as invalid exactly when the version resolves and a selected profile is missing. That exit, like a missing VERSION file, happens before any file is written. |
| Config.MaterializeSucceeds | build.py:13-146 | `write_files` completes exactly when all of these hold: the version resolves, the three profiles exist, the build type overlay exists, and the extension profile has a `name`. |
| Config.BackgroundLookupFailure | build.py:77-84 | A failed background record is always a KeyError. |
| Config.ManifestLookupFailure | build.py:96-97 | A failed manifest record is always a KeyError. |
| Config.ProduceFailsOnLookup | build.py:74-102 | Past validation, the only failures are the KeyErrors of the background and manifest lookups. |
| Config.UiAssignments | build.py:57-60 | Overlaying the UI record is the three key assignments, in source order. |
| Config.UiOverlay | build.py:58-60 | The UI overlay sets exactly `REACT_APP_DEBUGING`, `REACT_APP_VERSION` and `GENERATE_SOURCEMAP`, in that order. |
| Config.UiRecordSpec | build.py:57-60 | Both debug keys carry the dev flag and the version key carries the resolved version. Every other key keeps its value. Keys keep their positions, and new keys are appended in assignment order. |
| Writer.BuildUiRecord | build.py:57-60 | The three in-place assignments give `Config.UiRecord`. |
| EnvFile.WriteEnvItems | build.py:64-68 | The loop over `items()` builds exactly `EnvText`: one `KEY=VALUE` line per entry, in record order. |
| EnvFile.WriteEnvByKey | build.py:112-119 | The loop over the keys, with a lookup per key, builds the same text as the loop over the items. |
| EnvFile.EnvRoundTrip | build.py:64-68 | When keys hold no `=` or newline and values no newline, reading the env text back gives one line per entry, in order, each with its key and rendered value. |
| EnvFile.ParseLineThen | build.py:68 | A line followed by more text reads back as that entry followed by the rest. |
| EnvFile.LinesCons | build.py:68 | Text up to a newline is the first line, and the rest reads back as the remaining lines. |
| EnvFile.SplitAssignmentOf | build.py:68 | A line splits back at its first `=` into the key and the value text. |
| EnvFile.EnvTextAppend | build.py:64-68 | The text of a concatenated record is the concatenation of the texts. |
| EnvFile.EnvTextSnoc | build.py:68 | Extending a prefix of the record by one entry appends that entry's line. |
| EnvFile.EnvLineAt | build.py:64-68 | Each entry's line sits between the text of the entries before it and the text of the entries after it. |
| EnvFile.LineOfKey | build.py:64-68 | Every key of the record has its own line in the text. That line starts the text or follows a newline, so it is a whole line. |
| Strings.IntToString | build.py:67 | `str()` of an integer is a non-empty run of digits, with a leading minus sign exactly for negative values. The digits have no leading zero, so zero is `0` and a negative value never starts `-0`. |
| Strings.NatToString | build.py:67 | `str()` of a natural number is a non-empty run of digits. It starts with `0` exactly for zero, which is then the single digit `0`. |
| Strings.IntRoundTrip | build.py:67 | The rendered integer reads back as the same integer. |
| Strings.NatRoundTrip | build.py:67 | The rendered natural number reads back as the same number. |
| Config.DevUiEnvEnablesDebug | build.py:58-68 | In dev mode, the UI env text has `REACT_APP_DEBUGING=true` as a whole line: at the start of the text or right after a newline. |
| Config.DevRunEnablesDebug | build.py:56-72 | A validated dev run first writes the UI env file, and that file holds `REACT_APP_DEBUGING=true` as a whole line. This holds even when a later lookup fails. |
| Config.ProduceWritesUiFirst | build.py:63-72 | Past validation, the UI env file is the first write. |
| Config.BackgroundEnvFile | build.py:36-37 | The background file is `dev.env.json` in dev mode and `prod.env.json` otherwise. |
| Config.BackgroundUpdates | build.py:75-86 | Folding the layers is the source's sequence of `update` calls, with the dev overlay only in dev mode and the version entry last. |
| Config.BackgroundSpec | build.py:75-86 | The record exists exactly when the genesys, okta and build type lookups succeed. Each key takes its value from the last layer that holds it, so `VERSION` is always the resolved version. A key that no layer holds is absent. The keys appear in the order of their first appearance across the layers. |
| Writer.BuildBackground | build.py:75-86 | The imperative lookups and successive `update` calls give `Config.BackgroundRecord`, including its KeyErrors. |
| Config.ManifestAssignments | build.py:98-102 | Overlaying the manifest is the source's assignments: `options_page` in support mode only, then `name`, then `version`. |
| Config.ManifestFields | build.py:98-102 | After the overlay, `name` and `version` hold the given values, and `options_page` is set only in support mode. Every other field keeps its value. |
| Config.ManifestKeys | build.py:98-102 | Fields keep their positions, and missing overlay keys are appended in assignment order. |
| Config.ManifestSpec | build.py:96-102 | The manifest exists exactly when the extension profile and its `name` exist. It has the profile's name, the resolved version, and `options_page` only in support mode. Every other field keeps its value and its position. |
| Writer.BuildManifest | build.py:96-102 | The name lookup followed by the in-place assignments gives `Config.ManifestRecord`. |
| Config.ReleaseBumpSpec | build.py:125-140 | The release bump sets `version` and changes no other field or position. It appends `version` when the field is absent. |
| Config.LaterWritesFollowPlan | build.py:112-140 | The writes after the manifest are the settings env file in support mode, then package.json and lerna.json on release. |
| Writer.WriteLater | build.py:112-140 | The support and release branches write exactly `Config.LaterWrites`. |
| Config.StoppedRunFollowsPlan | build.py:74-102 | A run that stops at a lookup has written the first one or two planned files. |
| Config.CompleteRunFollowsPlan | build.py:63-140 | The writes of a complete run match the plan file by file. |
| Config.ProduceFollowsPlan | build.py:57-146 | Past validation, the writes follow the plan. |
| Config.WritesFollowPlan | build.py:13-146 | The files written are a prefix of the plan, file by file. The prefix is the whole plan exactly when there is no failure, and at most the first two files otherwise, so a failed run never writes the manifest. |
| Writer.WriteRecords | build.py:56-146 | The step-by-step body after validation produces exactly `Config.Produce`. |
| Writer.WriteFiles | build.py:13-146 | The step-by-step `write_files` produces exactly the writes and the failure of `Config.Materialize`. |
| Dicts.Keys | build.py:115 | Iterating a dict yields its keys in insertion order. |
| Dicts.Get | build.py:77-84 | A lookup misses exactly when the key is not among the dict's keys. |
| Dicts.Assign | build.py:58 | `d[k] = v` keeps the key order and appends a new key at the end. |
| Dicts.AssignGet | build.py:58-60 | After `d[k] = v`, key `k` holds `v` and every other key is unchanged. |
| Dicts.UpdateGet | build.py:76-86 | After `update`, a key takes the overlay's value if the overlay holds it, and keeps its old value otherwise. |
| Dicts.UpdateKeys | build.py:76-86 | `update` keeps existing key positions and appends the overlay's new keys in overlay order. |
| Dicts.LastWriterWins | build.py:76-86 | Over successive updates, a key holds the value of the last overlay that sets it. |
| Dicts.UntouchedKeyKept | build.py:76-86 | A key that no overlay sets keeps its original value. |
| Dicts.DedupAppend | build.py:76-86 | Appending distinct keys to a key sequence adds, in their order, exactly those not seen before. |
| Dicts.UpdateAllKeys | build.py:76-86 | After successive `update` calls, the dict's own keys come first. Then each overlay key follows at its first appearance. |
| Dicts.GetAt | build.py:116 | Looking up the key of the `i`-th entry gives that entry's value. |
| Dicts.EntryOf | build.py:65 | A key the dict holds is the key of one of its entries, paired with its value. |
| Dicts.KeysAppend | build.py:76-86 | The keys of a concatenation are the concatenated keys. |
| Dicts.GetSnoc | build.py:76-86 | A lookup in a dict extended by one entry finds that entry exactly for its key. |
| Dicts.Missing | build.py:76-86 | The keys appended by `update` are overlay keys that were not present before. |
| Driver.BackgroundVariant | build.py:319-323 | The background variant is `support` in support mode, otherwise `dev` in dev mode, otherwise `prod`. |
| Driver.BackgroundCommandInjective | build.py:213 | Different variants run different `npm run build-<variant>` scripts. |
| Driver.Launched | build.py:315-337 | The UI and background builds always start, and the login and settings builds start in support mode only. That makes 2 or 4 distinct builds. |
| Driver.Drain | build.py:342-346 | The queue loop clears `zip_run` exactly when some queued result has a non-zero exit code. |
| Driver.GateIgnoresOrder | build.py:339-346 | The gate does not depend on the order in which the builds finish. |
| Driver.CopyPlan | build.py:272-279 | `copy_build_files` always copies the UI static tree, then index.html, then the background build. In support mode only, it then copies the login and settings bundles. |
| Driver.CopyOutcome | build.py:272-279 | The copies are made in plan order, up to the first step whose build output is missing. That step raises, and no later step happens. With no output missing, every planned copy is made. |
| Driver.CopyFailureStops | build.py:348 | After `write_files`, the run stops with exit status 1, without packaging, exactly when a planned build output is missing. Before stopping, it makes the copies that precede the missing output. |
| Driver.RunAfterWrite | build.py:305-348 | A run that skips `write_files` or completes it goes on to the builds, the copies and the gate, using the files written. |
| Driver.PackagesArchive | build.py:348-350 | With zip requested and every queued result carrying exit code 0, a run whose copies all succeed packages under the name read from manifest.json. |
| Driver.ArchiveName | build.py:182-184 | The archive name is `name-version.zip` exactly when the manifest holds string `name` and `version` fields. Otherwise the result is a missing-key error (KeyError) exactly when one of the two keys is absent, with `name` checked first. In every other failing case it is a not-a-string error (TypeError). |
| Driver.ArchiveFileNameInjective | build.py:184 | For one extension name, the archive name determines the version. |
| Driver.ManifestOnDiskSkips | build.py:179-180 | Writes to other files leave the manifest on disk unchanged. |
| Driver.LastManifestWins | build.py:106-108 | After the manifest write, later writes leave the written manifest on disk. |
| Driver.LaterWritesSkipManifest | build.py:112-140 | No write after the manifest targets manifest.json. |
| Driver.ProducedManifest | build.py:96-108 | Past validation, a complete run leaves the manifest record on disk. |
| Driver.WrittenManifest | build.py:306-307 | After a complete write run, manifest.json holds the selected profile's manifest record. |
| Driver.Orchestrate | build.py:305-353 | The step-by-step `__main__` block produces exactly `Driver.Run`. |
| Driver.AbortsExactlyOnWriteFailure | build.py:305-307 | The run aborts, with exit status 1 and before any build, exactly when `write_files` runs and fails. `--nowrite` never aborts and writes nothing. |
| Driver.PackagingGate | build.py:309-353 | When the copy step succeeds, packaging runs exactly when zip was requested and every queued result has exit code 0. A non-zero queued code then only skips packaging, and the process exits 0. |
| Driver.WrittenRunArchive | build.py:182-184 | A successful write run with zip requested and every queued result carrying exit code 0 completes exactly when no planned build output is missing. It then names the archive after the selected profile's name and the resolved version. |
| Driver.NoWriteRunArchive | build.py:349-350 | With `--nowrite`, a run whose copies succeed names the archive from the manifest already on disk. A manifest without string `name` and `version` fields ends the run with exit status 1. |

## Left out

- Reading and writing files, the JSON encoder's formatting (`indent=4`, `ensure_ascii=False`) and printed messages are left out. A write is recorded as a file identifier with the document it receives.
- Path construction and the path-separator branches (build.py:20-39) are left out, because files are logical identifiers.
- Argument parsing is left out: `Config.Args` is the parsed result. The `--clean` flag is parsed but has no effect in the modelled code.
- The subprocesses, threads and queue are left out. The `results` input is what reached the queue, and `Driver.Drain` reads it in any order.
- A build thread that raises before `q.put` is left out. This happens when `Popen` cannot start (a missing sub-project directory, build.py:200, 214, 227, 240) or when the output is not UTF-8 (`decode("utf8")`, build.py:205, 219, 232, 245). Such a thread leaves no entry in the queue, so the gate does not see that build. Packaging can then go ahead when the copies succeed, for example from build outputs left over from an earlier run.
- `clear_build_dir` is left out as I/O, and so is any error removing a file there.
- The contents of the copies are left out. The copy steps are modelled through `Driver.CopyPlan` and `Driver.CopyOutcome`, and a missing build output is modelled as a failure. A copy failing for any other reason, such as permissions, is left out.
- The copied build outputs are assumed not to contain a manifest.json. The manifest that `zip` reads is the one `write_files` wrote, or the one already on disk.
- Collecting the files that `zip` puts in the archive (`get_all_file_paths`), and the `releases/` destination path, are left out.
- Template values are scalars (null, booleans, integers, strings) on the env side. Floats and nested values in the env records are left out, because `str()` of those follows Python's own formatting.
- Floats are also left out of the JSON documents: the manifest profile (`extension.default`), package.json and lerna.json. `Values.Json` has no non-integer number. So `Config.ManifestSpec` and `Config.ReleaseBumpSpec` ("every other field keeps its value and position") are proved only for documents without floats.
- `templates.json`, package.json and lerna.json are assumed readable and well formed, with every top-level category the script reads. Errors reading or decoding them are left out, as is a manifest.json that cannot be read or decoded when zipping. Only a missing VERSION file and the nested lookups fail.
- Config.Materialize: the `exit(1)` on invalid arguments and the uncaught exceptions (a missing VERSION file, a KeyError) are modelled as a `Failure` value that ends the run. `Driver.ExitStatus` maps them to status 1.
- Writer.BuildBackground: the three lookups happen before the `update` calls, whereas the script interleaves them. The dict being built is local and is discarded on a KeyError, so the order cannot be observed.
- In-place mutation of the loaded template (`uiDefault` and `extension.default` are updated through aliases) is modelled as building new values. The template is not read again after those updates.
- `Strings.Strip`, `TrimStart` and `TrimEnd` carry no ensures of their own. Their properties are stated in the lemmas listed above.
