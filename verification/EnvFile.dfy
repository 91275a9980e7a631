/** A job's `.env` file: `saveEnv` prints a map, `loadEnv` parses it back (workspace/env_unix.go). */
module EnvFile {
  import opened Text

  type Env = map<string, string>

  function Line(k: string, v: string): string {
    k + ['='] + v
  }

  /** What `saveEnv` writes when it visits `keys` in this order. */
  function Print(keys: seq<string>, env: Env): string
    requires Elements(keys) <= env.Keys
  {
    if keys == [] then ""
    else
      assert keys[0] in Elements(keys);
      assert forall k :: k in keys[1..] ==> k in Elements(keys);
      Line(keys[0], env[keys[0]]) + "\n" + Print(keys[1..], env)
  }

  /** What one line contributes: blanks, comments and lines without `=` are skipped. */
  function Assign(env: Env, line: string): Env {
    var l := TrimSpace(line);
    if l == "" || l[0] == '#' then env
    else match Cut(l, '=')
      case None => env
      case Some((k, v)) => env[k := v]
  }

  function ParseLines(env: Env, lines: seq<string>): Env
    decreases |lines|
  {
    if lines == [] then env else ParseLines(Assign(env, lines[0]), lines[1..])
  }

  function Parse(text: string): Env {
    ParseLines(map[], Split(text, '\n'))
  }

  lemma PrintNext(keys: seq<string>, i: nat, env: Env, before: string)
    requires i < |keys| && Elements(keys) <= env.Keys
    ensures keys[i] in env && Elements(keys[i..]) <= env.Keys && Elements(keys[i + 1..]) <= env.Keys
    ensures before + Print(keys[i..], env) == before + (Line(keys[i], env[keys[i]]) + "\n") + Print(keys[i + 1..], env)
  {
    assert keys[i] in Elements(keys);
    forall k | k in keys[i..] || k in keys[i + 1..] ensures k in Elements(keys) {}
    assert keys[i..][0] == keys[i] && keys[i..][1..] == keys[i + 1..];
  }

  method SaveEnv(env: Env) returns (text: string)
    ensures exists keys :: StrictlySorted(keys) && Elements(keys) == env.Keys && text == Print(keys, env)
  {
    var keys := SortedKeys(env.Keys);
    text := "";
    assert keys[0..] == keys;
    for i := 0 to |keys|
      invariant Elements(keys[i..]) <= env.Keys
      invariant text + Print(keys[i..], env) == Print(keys, env)
    {
      PrintNext(keys, i, env, text);
      text := text + (Line(keys[i], env[keys[i]]) + "\n");
    }
    assert keys[|keys|..] == [] && text + "" == text;
  }

  datatype Read = Absent | Denied | Content(text: string)

  /** A missing file loads as the empty map, one that cannot be read is an error. */
  method LoadEnv(file: Read) returns (r: Option<Env>)
    ensures r == match file case Absent => Some(map[]) case Denied => None case Content(text) => Some(Parse(text))
  {
    if file.Absent? { return Some(map[]); }
    if file.Denied? { return None; }
    var env: Env := map[];
    var lines := Split(file.text, '\n');
    for i := 0 to |lines|
      invariant ParseLines(env, lines[i..]) == Parse(file.text)
    {
      var line := TrimSpace(lines[i]);
      assert lines[i..][1..] == lines[i + 1..];
      if line == "" || line[0] == '#' { continue; }
      match Cut(line, '=')
      case Some((k, v)) => env := env[k := v];
      case None =>
    }
    return Some(env);
  }

  // ----- what a file says

  /** The line, blanks around it apart, is no comment and assigns `v` to `k`. */
  ghost predicate Sets(line: string, k: string, v: string) {
    && '=' !in k && (k != "" ==> k[0] != '#')
    && TrimSpace(line) == k + "=" + v
  }

  lemma AssignExactly(env: Env, line: string)
    ensures forall k :: k in Assign(env, line) <==> k in env || exists v :: Sets(line, k, v)
    ensures forall k, v :: Sets(line, k, v) ==> Assign(env, line)[k] == v
    ensures forall k :: k in env && !(exists v :: Sets(line, k, v)) ==> Assign(env, line)[k] == env[k]
  {
    var l := TrimSpace(line);
    forall k, v | Sets(line, k, v) ensures k in Assign(env, line) && Assign(env, line) == env[k := v] {
      CutAt(k, v, '=');
      assert l[0] == if k == "" then '=' else k[0];
    }
    if l != "" && l[0] != '#' && Cut(l, '=').Some? {
      var (k, v) := Cut(l, '=').value;
      assert k != "" ==> k[0] == l[0];
      assert Sets(line, k, v);
    }
  }

  ghost predicate SetSomewhere(lines: seq<string>, k: string) {
    exists i, v :: 0 <= i < |lines| && Sets(lines[i], k, v)
  }

  ghost predicate LastSets(lines: seq<string>, i: int, k: string, v: string) {
    0 <= i < |lines| && Sets(lines[i], k, v) && forall j, w :: i < j < |lines| ==> !Sets(lines[j], k, w)
  }

  lemma SetNext(lines: seq<string>, k: string)
    requires lines != []
    ensures SetSomewhere(lines, k) <==> (exists v :: Sets(lines[0], k, v)) || SetSomewhere(lines[1..], k)
  {
    if i, v :| 0 <= i < |lines| && Sets(lines[i], k, v) {
      assert i > 0 ==> lines[1..][i - 1] == lines[i];
    }
    if i, v :| 0 <= i < |lines[1..]| && Sets(lines[1..][i], k, v) { assert Sets(lines[i + 1], k, v); }
  }

  lemma LastSetsNext(lines: seq<string>, i: int, k: string, v: string)
    requires LastSets(lines, i, k, v)
    ensures if i == 0 then Sets(lines[0], k, v) && !SetSomewhere(lines[1..], k) else LastSets(lines[1..], i - 1, k, v)
  {
    assert forall j :: 0 < j < |lines| ==> lines[1..][j - 1] == lines[j];
  }

  /** The last line that sets a key decides its value, and keys that no line sets are not there. */
  lemma {:induction false} LastLineDecides(acc: Env, lines: seq<string>, k: string)
    ensures k in ParseLines(acc, lines) <==> k in acc || SetSomewhere(lines, k)
    ensures forall i, v :: LastSets(lines, i, k, v) ==> k in ParseLines(acc, lines) && ParseLines(acc, lines)[k] == v
    ensures k in acc && !SetSomewhere(lines, k) ==> ParseLines(acc, lines)[k] == acc[k]
    decreases |lines|
  {
    if lines != [] {
      AssignExactly(acc, lines[0]);
      LastLineDecides(Assign(acc, lines[0]), lines[1..], k);
      SetNext(lines, k);
      forall i, v | LastSets(lines, i, k, v)
        ensures k in ParseLines(acc, lines) && ParseLines(acc, lines)[k] == v
      {
        LastSetsNext(lines, i, k, v);
      }
    }
  }

  // ----- which maps survive the file

  predicate PrintableKey(k: string) {
    '=' !in k && '\n' !in k && (k != "" ==> k[0] != '#' && !IsSpace(k[0]))
  }

  predicate PrintableValue(v: string) {
    '\n' !in v && (v != "" ==> !IsSpace(v[|v| - 1]))
  }

  predicate Printable(env: Env) {
    forall k :: k in env ==> PrintableKey(k) && PrintableValue(env[k])
  }

  lemma LineSurvives(env: Env, k: string, v: string)
    requires PrintableKey(k) && PrintableValue(v)
    ensures '\n' !in Line(k, v) && Assign(env, Line(k, v)) == env[k := v]
  {
    var l := Line(k, v);
    assert l[0] == if k == "" then '=' else k[0];
    assert l[|l| - 1] == if v == "" then '=' else v[|v| - 1];
    TrimNothing(l, IsSpace);
    CutAt(k, v, '=');
  }

  ghost predicate Overlaid(r: Env, acc: Env, keys: set<string>, env: Env) {
    && r.Keys == acc.Keys + keys
    && forall k :: k in r ==> (k in keys && k in env && r[k] == env[k]) || (k !in keys && r[k] == acc[k])
  }

  lemma OverlayOne(r: Env, acc: Env, k: string, keys: set<string>, env: Env)
    requires k in keys && k in env
    requires Overlaid(r, acc[k := env[k]], keys - {k}, env)
    ensures Overlaid(r, acc, keys, env)
  {
    assert r.Keys == acc.Keys + keys;
  }

  lemma {:induction false} PrintedLinesParse(acc: Env, keys: seq<string>, env: Env)
    requires StrictlySorted(keys) && Elements(keys) <= env.Keys && Printable(env)
    ensures Overlaid(ParseLines(acc, Split(Print(keys, env), '\n')), acc, Elements(keys), env)
    decreases |keys|
  {
    var lines := Split(Print(keys, env), '\n');
    if keys == [] {
      assert lines == [""];
      assert ParseLines(acc, lines) == ParseLines(Assign(acc, ""), []);
    } else {
      var k, v := keys[0], env[keys[0]];
      assert k in Elements(keys);
      HeadOnlyOnce(keys);
      LineSurvives(acc, k, v);
      var rest := Print(keys[1..], env);
      SplitHead(Line(k, v), rest, '\n');
      assert lines == [Line(k, v)] + Split(rest, '\n');
      assert lines[1..] == Split(rest, '\n');
      PrintedLinesParse(acc[k := v], keys[1..], env);
      OverlayOne(ParseLines(acc, lines), acc, k, Elements(keys), env);
    }
  }

  lemma CutIsPrintable(l: string, k: string, v: string)
    requires l == k + ['='] + v && '=' !in k && '\n' !in l
    requires l[0] != '#' && !IsSpace(l[0]) && !IsSpace(l[|l| - 1])
    ensures PrintableKey(k) && PrintableValue(v)
  {
    assert k != "" ==> k[0] == l[0];
    assert v != "" ==> v[|v| - 1] == l[|l| - 1];
    assert forall c :: c in k || c in v ==> c in l;
  }

  lemma AssignedIsPrintable(acc: Env, line: string)
    requires Printable(acc) && '\n' !in line
    ensures Printable(Assign(acc, line))
  {
    var l := TrimSpace(line);
    if l != "" && l[0] != '#' && Cut(l, '=').Some? {
      var (k, v) := Cut(l, '=').value;
      CutIsPrintable(l, k, v);
    }
  }

  lemma {:induction false} ParsedIsPrintable(acc: Env, lines: seq<string>)
    requires Printable(acc)
    requires forall l :: l in lines ==> '\n' !in l
    ensures Printable(ParseLines(acc, lines))
    decreases |lines|
  {
    if lines != [] {
      AssignedIsPrintable(acc, lines[0]);
      ParsedIsPrintable(Assign(acc, lines[0]), lines[1..]);
    }
  }

  /** Whatever `loadEnv` returns could have been printed. */
  lemma LoadIsPrintable(text: string)
    ensures Printable(Parse(text))
  {
    PartsAreSepFree(text, '\n');
    ParsedIsPrintable(map[], Split(text, '\n'));
  }

  /** `loadEnv` after `saveEnv` is the identity on exactly the printable maps. */
  lemma RoundTrip(env: Env, keys: seq<string>)
    requires StrictlySorted(keys) && Elements(keys) == env.Keys
    ensures Parse(Print(keys, env)) == env <==> Printable(env)
  {
    LoadIsPrintable(Print(keys, env));
    if Printable(env) {
      PrintedLinesParse(map[], keys, env);
    }
  }

  /** Printing what was loaded and loading it again changes nothing. */
  lemma LoadSaveLoad(text: string, keys: seq<string>)
    requires StrictlySorted(keys) && Elements(keys) == Parse(text).Keys
    ensures Parse(Print(keys, Parse(text))) == Parse(text)
  {
    LoadIsPrintable(text);
    RoundTrip(Parse(text), keys);
  }

  /** A value with a trailing blank is a concrete loss. */
  lemma TrailingBlankIsLost()
    ensures !Printable(map["TOKEN" := "abc "])
    ensures Parse(Print(["TOKEN"], map["TOKEN" := "abc "])) != map["TOKEN" := "abc "]
  {
    RoundTrip(map["TOKEN" := "abc "], ["TOKEN"]);
    var env: Env := map["TOKEN" := "abc "];
    assert env["TOKEN"] == "abc ";
  }
}
