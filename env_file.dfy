/** The line-oriented `.env` format the build script writes for the UI bundle
    and the settings bundle: one `KEY=VALUE` line per record entry, in record
    order. */
module EnvFile {
  import opened Strings
  import opened Values
  import opened Dicts

  /** The text after `=`: a boolean as its JSON literal (`json.dumps`), any
      other value as Python's `str()`, so `null` becomes `None`. */
  function Render(v: Scalar): string
  {
    match v
    case Null => "None"
    case Bool(b) => if b then "true" else "false"
    case Int(i) => IntToString(i)
    case Str(s) => s
  }

  function Line(entry: (string, Scalar)): string
  {
    entry.0 + "=" + Render(entry.1) + "\n"
  }

  /** The whole file: the lines of the entries, in order. */
  function EnvText(d: seq<(string, Scalar)>): string
  {
    if d == [] then "" else Line(d[0]) + EnvText(d[1..])
  }

  /** The text of a record is the text of its first part followed by the text
      of the rest. */
  lemma {:induction false} EnvTextAppend(a: seq<(string, Scalar)>, b: seq<(string, Scalar)>)
    ensures EnvText(a + b) == EnvText(a) + EnvText(b)
  {
    if a == [] {
      assert a + b == b;
    } else {
      assert (a + b)[0] == a[0];
      assert (a + b)[1..] == a[1..] + b;
      EnvTextAppend(a[1..], b);
    }
  }

  lemma EnvTextCons(e: (string, Scalar), post: seq<(string, Scalar)>)
    ensures EnvText([e] + post) == Line(e) + EnvText(post)
  {
    assert ([e] + post)[0] == e && ([e] + post)[1..] == post;
  }

  /** Each entry contributes exactly its own line, at its own position. */
  lemma EnvLineAt(d: seq<(string, Scalar)>, i: nat)
    requires i < |d|
    ensures EnvText(d) == EnvText(d[..i]) + Line(d[i]) + EnvText(d[i + 1..])
  {
    var pre, e, post := d[..i], d[i], d[i + 1..];
    assert d == pre + ([e] + post);
    EnvTextAppend(pre, [e] + post);
    EnvTextCons(e, post);
    AppendAssoc(EnvText(pre), Line(e), EnvText(post));
  }

  /** Extending a prefix of a record by one entry adds that entry's line. */
  lemma EnvTextSnoc(d: seq<(string, Scalar)>, i: nat)
    requires i < |d|
    ensures EnvText(d[..i + 1]) == EnvText(d[..i]) + Line(d[i])
  {
    assert d[..i + 1] == d[..i] + [d[i]];
    EnvTextAppend(d[..i], [d[i]]);
  }

  /** The text is empty or ends with a newline. */
  lemma {:induction false} EnvTextEndsLine(d: seq<(string, Scalar)>)
    ensures var t := EnvText(d); t == [] || t[|t| - 1] == '\n'
  {
    if d != [] {
      EnvTextEndsLine(d[1..]);
    }
  }

  /** A key a record holds has its own line in the record's text, starting
      the text or following a newline. */
  lemma LineOfKey(d: seq<(string, Scalar)>, k: string) returns (before: string, after: string)
    requires Get(d, k).Some?
    ensures EnvText(d) == before + Line((k, Get(d, k).value)) + after
    ensures before == [] || before[|before| - 1] == '\n'
  {
    var i := EntryOf(d, k);
    EnvLineAt(d, i);
    before, after := EnvText(d[..i]), EnvText(d[i + 1..]);
    EnvTextEndsLine(d[..i]);
  }

  /** The loop over `d.items()` that builds the UI `.env` text. */
  method WriteEnvItems(d: Dict<Scalar>) returns (text: string)
    ensures text == EnvText(d)
  {
    text := "";
    for i := 0 to |d|
      invariant text == EnvText(d[..i])
    {
      var (key, value) := d[i];
      text := text + (key + "=" + Render(value) + "\n");
      EnvTextSnoc(d, i);
    }
    assert d[..|d|] == d;
  }

  /** The loop over the keys of `d`, looking each value up, that builds the
      settings `.env` text. */
  method WriteEnvByKey(d: Dict<Scalar>) returns (text: string)
    ensures text == EnvText(d)
  {
    text := "";
    var keys := Keys(d);
    for i := 0 to |keys|
      invariant text == EnvText(d[..i])
    {
      var key := keys[i];
      GetAt(d, i);
      var value := Get(d, key).value;
      text := text + (key + "=" + Render(value) + "\n");
      EnvTextSnoc(d, i);
    }
    assert d[..|d|] == d;
  }

  // ---------------------------------------------------------------------------
  // Reading the text back

  /** The newline-terminated lines of `t`; a final fragment without a newline
      counts as a line too. */
  function Lines(t: string): seq<string>
    decreases |t|
  {
    if t == [] then []
    else
      var i := IndexOf(t, '\n');
      if i == |t| then [t] else [t[..i]] + Lines(t[i + 1..])
  }

  /** A line split at its first `=`. */
  function SplitAssignment(line: string): (string, string)
  {
    var i := IndexOf(line, '=');
    if i == |line| then (line, "") else (line[..i], line[i + 1..])
  }

  function ParseLines(ls: seq<string>): seq<(string, string)>
  {
    if ls == [] then [] else [SplitAssignment(ls[0])] + ParseLines(ls[1..])
  }

  /** The (key, value text) pairs an env file holds. */
  function ParseEnv(t: string): seq<(string, string)>
  {
    ParseLines(Lines(t))
  }

  /** Entries whose lines read back unambiguously: no `=` or newline in a key,
      no newline in a rendered value. */
  predicate LineSafe(d: seq<(string, Scalar)>)
  {
    forall i | 0 <= i < |d| :: '=' !in d[i].0 && '\n' !in d[i].0 && '\n' !in Render(d[i].1)
  }

  lemma LinesCons(body: string, rest: string)
    requires '\n' !in body
    ensures Lines(body + "\n" + rest) == [body] + Lines(rest)
  {
    var t := body + "\n" + rest;
    assert IndexOf(t, '\n') == |body| by {
      assert t == body + ("\n" + rest);
      IndexOfAppend(body, "\n" + rest, '\n');
      assert IndexOf("\n" + rest, '\n') == 0;
    }
    assert t[..|body|] == body;
    assert t[|body| + 1..] == rest;
  }

  lemma SplitAssignmentOf(key: string, value: string)
    requires '=' !in key
    ensures SplitAssignment(key + "=" + value) == (key, value)
  {
    var line := key + "=" + value;
    assert IndexOf(line, '=') == |key| by {
      assert line == key + ("=" + value);
      IndexOfAppend(key, "=" + value, '=');
      assert IndexOf("=" + value, '=') == 0;
    }
    assert line[..|key|] == key;
    assert line[|key| + 1..] == value;
  }

  /** Reading back a line followed by more text: the line's entry comes first. */
  lemma ParseLineThen(k: string, v: Scalar, restText: string)
    requires '=' !in k && '\n' !in k && '\n' !in Render(v)
    ensures Lines(Line((k, v)) + restText) == [k + "=" + Render(v)] + Lines(restText)
    ensures ParseEnv(Line((k, v)) + restText) == [(k, Render(v))] + ParseEnv(restText)
  {
    var body := k + "=" + Render(v);
    assert '\n' !in body by {
      assert forall c | c in body :: c in k || c == '=' || c in Render(v);
    }
    assert Line((k, v)) + restText == body + "\n" + restText;
    LinesCons(body, restText);
    var ls := [body] + Lines(restText);
    assert ls[0] == body && ls[1..] == Lines(restText);
    SplitAssignmentOf(k, Render(v));
  }

  /** Reading an env file back gives one line per entry, in record order, each
      with the entry's key and its rendered value. */
  lemma {:induction false} EnvRoundTrip(d: seq<(string, Scalar)>)
    requires LineSafe(d)
    ensures |Lines(EnvText(d))| == |d|
    ensures var parsed := ParseEnv(EnvText(d));
      |parsed| == |d| && forall i | 0 <= i < |d| :: parsed[i] == (d[i].0, Render(d[i].1))
  {
    if d != [] {
      var rest := d[1..];
      assert LineSafe(rest) by {
        forall i | 0 <= i < |rest| ensures rest[i] == d[i + 1] { }
      }
      EnvRoundTrip(rest);
      var t := EnvText(rest);
      assert EnvText(d) == Line(d[0]) + t;
      ParseLineThen(d[0].0, d[0].1, t);
      var parsed := ParseEnv(EnvText(d));
      var tail := ParseEnv(t);
      assert parsed == [(d[0].0, Render(d[0].1))] + tail;
      forall i | 0 <= i < |d| ensures parsed[i] == (d[i].0, Render(d[i].1)) {
        if i > 0 {
          assert parsed[i] == tail[i - 1] && d[i] == rest[i - 1];
        }
      }
    }
  }
}
