/** `RedactArgs` and the argument list of `Exec` (docker/client.go). */
module Redaction {
  import opened Text

  const HIDDEN := "***"

  predicate EnvFlag(arg: string) {
    arg == "-e" || arg == "--env"
  }

  predicate PasswordFlag(arg: string) {
    arg == "--password"
  }

  /** What is left of the word after an env flag. */
  function MaskAssignment(arg: string): string {
    match Cut(arg, '=') case Some((k, _)) => k + "=" + HIDDEN case None => HIDDEN
  }

  /** A flag takes the next word with it, whatever that word is. */
  function Redact(args: seq<string>): (r: seq<string>)
    ensures |r| == |args|
    decreases |args|
  {
    if |args| < 2 then args
    else if EnvFlag(args[0]) then [args[0], MaskAssignment(args[1])] + Redact(args[2..])
    else if PasswordFlag(args[0]) then [args[0], HIDDEN] + Redact(args[2..])
    else [args[0]] + Redact(args[1..])
  }

  lemma MaskIsNoFlag(arg: string)
    ensures !EnvFlag(MaskAssignment(arg)) && !PasswordFlag(MaskAssignment(arg)) && !EnvFlag(HIDDEN) &&
            !PasswordFlag(HIDDEN)
  {
    var m := MaskAssignment(arg);
    assert m[|m| - 1] == '*';
    assert "-e"[1] != '*' && "--env"[4] != '*' && "--password"[9] != '*' && |"-e"| == 2 && |"--env"| == 5 &&
           |"--password"| == 10;
  }

  /** `done` words of the output are final; the word at `i` may be a masked one that the flag before it took. */
  ghost predicate Progress(args: seq<string>, out: seq<string>, i: nat, done: nat) {
    && |out| == |args| && i <= done <= |args|
    && (done == i || (done == i + 1 && !EnvFlag(out[i]) && !PasswordFlag(out[i])))
    && out[done..] == args[done..]
    && out[..done] + Redact(args[done..]) == Redact(args)
  }

  lemma StepOver(args: seq<string>, out: seq<string>, i: nat)
    requires Progress(args, out, i, i) && i < |args|
    requires i + 1 == |args| || (!EnvFlag(out[i]) && !PasswordFlag(out[i]))
    ensures Progress(args, out, i + 1, i + 1)
  {
    var rest := args[i..];
    assert rest[0] == args[i] == out[i..][0] == out[i] && rest[1..] == args[i + 1..];
    assert out[i + 1..] == out[i..][1..];
    assert out[..i + 1] == out[..i] + [out[i]];
    assert Redact(rest) == [args[i]] + Redact(rest[1..]);
    assert out[..i] + ([args[i]] + Redact(args[i + 1..])) == out[..i + 1] + Redact(args[i + 1..]);
  }

  lemma StepFlag(args: seq<string>, out: seq<string>, i: nat, masked: string)
    requires Progress(args, out, i, i) && i + 1 < |args|
    requires EnvFlag(out[i]) || PasswordFlag(out[i])
    requires masked == if EnvFlag(out[i]) then MaskAssignment(out[i + 1]) else HIDDEN
    ensures Progress(args, out[i + 1 := masked], i + 1, i + 2)
  {
    var rest := args[i..];
    assert rest[0] == args[i] == out[i..][0] == out[i] && rest[1] == args[i + 1] == out[i..][1] == out[i + 1];
    assert rest[2..] == args[i + 2..];
    MaskIsNoFlag(args[i + 1]);
    var out' := out[i + 1 := masked];
    assert out'[i + 2..] == out[i..][2..] && out'[..i + 2] == out[..i] + [args[i], masked];
    assert out[..i] + ([args[i], masked] + Redact(args[i + 2..])) == out'[..i + 2] + Redact(args[i + 2..]);
  }

  /** The input array is left alone. */
  method RedactArgs(args: array<string>) returns (out: array<string>)
    ensures fresh(out) && out[..] == Redact(args[..])
  {
    out := new string[args.Length](_ => "");
    var k := 0;
    while k < args.Length
      invariant 0 <= k <= args.Length && out[..k] == args[..k]
    {
      out[k] := args[k];
      k := k + 1;
    }
    ghost var input, done := args[..], 0;
    assert out[..] == args[..] && out[0..] == input[0..] && input[0..] == input;
    var i := 0;
    while i < out.Length
      invariant 0 <= i <= out.Length && Progress(input, out[..], i, done) && args[..] == input
    {
      ghost var before := out[..];
      if i + 1 < out.Length && EnvFlag(out[i]) {
        StepFlag(input, before, i, MaskAssignment(out[i + 1]));
        out[i + 1] := MaskAssignment(out[i + 1]);
        assert out[..] == before[i + 1 := MaskAssignment(before[i + 1])];
        done := i + 2;
      } else if i + 1 < out.Length && PasswordFlag(out[i]) {
        StepFlag(input, before, i, HIDDEN);
        out[i + 1] := HIDDEN;
        assert out[..] == before[i + 1 := HIDDEN];
        done := i + 2;
      } else if done == i {
        StepOver(input, before, i);
        done := i + 1;
      }
      i := i + 1;
    }
    assert out[..] == out[..][..done] + [];
  }

  /** How many flags stand in a row just before word `i`. */
  function FlagsBefore(args: seq<string>, i: nat): nat
    requires i <= |args|
  {
    if i > 0 && args[i - 1] in {"-e", "--env", "--password"} then 1 + FlagsBefore(args, i - 1) else 0
  }

  lemma {:induction false} FlagsBeforeLater(args: seq<string>, n: nat, i: nat)
    requires n <= i <= |args|
    ensures FlagsBefore(args, i) ==
            FlagsBefore(args[n..], i - n) + if FlagsBefore(args[n..], i - n) == i - n then FlagsBefore(args, n) else 0
  {
    if i > n {
      FlagsBeforeLater(args, n, i - 1);
      assert args[n..][i - n - 1] == args[i - 1];
    }
  }

  /** What is left of a word that `flag` hides: nothing, or the part up to the first `=`. */
  function Hide(flag: string, word: string): string {
    if flag == "--password" then "***"
    else match Cut(word, '=') case None => "***" case Some((key, _)) => key + "=***"
  }

  lemma RedactStep(args: seq<string>, n: nat)
    requires |args| >= 2 && n == if args[0] in {"-e", "--env", "--password"} then 2 else 1
    ensures |Redact(args)| == |args| && Redact(args)[0] == args[0] && Redact(args)[n..] == Redact(args[n..])
    ensures n == 2 ==> Redact(args)[1] == Hide(args[0], args[1])
  {
  }

  lemma FlagsAtStart(args: seq<string>, n: nat)
    requires |args| >= 2 && n == if args[0] in {"-e", "--env", "--password"} then 2 else 1
    ensures FlagsBefore(args, 1) == n - 1 && FlagsBefore(args, n) % 2 == 0
  {
    assert FlagsBefore(args, 0) == 0;
    assert FlagsBefore(args, 1) == if n == 2 then 1 else 0;
  }

  lemma FlagsParity(args: seq<string>, n: nat, i: nat)
    requires |args| >= 2 && n == (if args[0] in {"-e", "--env", "--password"} then 2 else 1) && n <= i <= |args|
    ensures FlagsBefore(args, i) % 2 == FlagsBefore(args[n..], i - n) % 2
  {
    FlagsAtStart(args, n);
    FlagsBeforeLater(args, n, i);
  }

  lemma NoFlagsBefore(args: seq<string>)
    ensures FlagsBefore(args, 0) == 0
  {
  }

  /** Exactly the words after an odd number of flags in a row are hidden. */
  ghost predicate Shows(args: seq<string>, shown: seq<string>, i: nat)
    requires i < |args| && |shown| == |args|
  {
    if FlagsBefore(args, i) % 2 == 1 then i > 0 && shown[i] == Hide(args[i - 1], args[i]) else shown[i] == args[i]
  }

  lemma ShowsLater(args: seq<string>, shown: seq<string>, n: nat, i: nat)
    requires |args| >= 2 && n == (if args[0] in {"-e", "--env", "--password"} then 2 else 1)
    requires n <= i < |args| == |shown| && Shows(args[n..], shown[n..], i - n)
    ensures Shows(args, shown, i)
  {
    FlagsParity(args, n, i);
    NoFlagsBefore(args[n..]);
    assert args[n..][i - n] == args[i] && shown[n..][i - n] == shown[i];
    assert i > n ==> args[n..][i - n - 1] == args[i - 1];
  }

  lemma {:induction false} RedactsExactly(args: seq<string>, i: nat)
    requires i < |args|
    ensures Shows(args, Redact(args), i)
    decreases |args|
  {
    NoFlagsBefore(args);
    if |args| >= 2 {
      var n := if args[0] in {"-e", "--env", "--password"} then 2 else 1;
      RedactStep(args, n);
      FlagsAtStart(args, n);
      if i >= n {
        RedactsExactly(args[n..], i - n);
        ShowsLater(args, Redact(args), n, i);
      }
    }
  }

  lemma {:induction false} RedactTwice(args: seq<string>)
    ensures Redact(Redact(args)) == Redact(args)
    decreases |args|
  {
    if |args| >= 2 {
      var flag := EnvFlag(args[0]) || PasswordFlag(args[0]);
      var n := if flag then 2 else 1;
      RedactTwice(args[n..]);
      assert Redact(args)[n..] == Redact(args[n..]);
      if EnvFlag(args[0]) { MaskTwice(args[1]); }
    }
  }

  lemma MaskTwice(arg: string)
    ensures MaskAssignment(MaskAssignment(arg)) == MaskAssignment(arg)
  {
    match Cut(arg, '=')
    case Some((k, _)) => CutAt(k, HIDDEN, '=');
    case None => assert '=' !in HIDDEN;
  }

  // ----- two runs

  /** The same words, except the value half of an assignment after an env flag and the word after `--password`. */
  predicate SameButSecrets(a: seq<string>, b: seq<string>)
    decreases |a|
  {
    if |a| < 2 || |b| < 2 then a == b
    else if a[0] != b[0] then false
    else if EnvFlag(a[0]) then SameKey(a[1], b[1]) && SameButSecrets(a[2..], b[2..])
    else if PasswordFlag(a[0]) then SameButSecrets(a[2..], b[2..])
    else SameButSecrets(a[1..], b[1..])
  }

  /** `-e NAME` without a value is hidden altogether. */
  predicate SameKey(x: string, y: string) {
    match (Cut(x, '='), Cut(y, '='))
    case (Some((k, _)), Some((l, _))) => k == l
    case (None, None) => true
    case _ => false
  }

  lemma MaskShowsKey(x: string, y: string)
    ensures MaskAssignment(x) == MaskAssignment(y) <==> SameKey(x, y)
  {
    match (Cut(x, '='), Cut(y, '='))
    case (Some((k, _)), Some((l, _))) =>
      CutAt(k, HIDDEN, '=');
      CutAt(l, HIDDEN, '=');
    case (Some((k, _)), None) => assert MaskAssignment(x)[|k|] == '=' && '=' !in HIDDEN;
    case (None, Some((l, _))) => assert MaskAssignment(y)[|l|] == '=' && '=' !in HIDDEN;
    case (None, None) =>
  }

  /** Two argument lists look the same after redaction if and only if they differ in secrets at most. */
  lemma {:induction false} RedactionIsExact(a: seq<string>, b: seq<string>)
    ensures Redact(a) == Redact(b) <==> SameButSecrets(a, b)
    decreases |a|
  {
    if |a| < 2 || |b| < 2 {
      assert |Redact(a)| == |a| && |Redact(b)| == |b|;
    } else {
      assert Redact(a)[0] == a[0] && Redact(b)[0] == b[0];
      if a[0] == b[0] {
        var n := if EnvFlag(a[0]) || PasswordFlag(a[0]) then 2 else 1;
        assert Redact(a)[n..] == Redact(a[n..]) && Redact(b)[n..] == Redact(b[n..]);
        RedactionIsExact(a[n..], b[n..]);
        if EnvFlag(a[0]) { MaskShowsKey(a[1], b[1]); }
        Heads(Redact(a), Redact(b), n);
      }
    }
  }

  lemma Heads(x: seq<string>, y: seq<string>, n: nat)
    requires 1 <= n <= 2 && n <= |x| && n <= |y| && x[0] == y[0]
    ensures x == y <==> (n == 2 ==> x[1] == y[1]) && x[n..] == y[n..]
  {
    if (n == 2 ==> x[1] == y[1]) && x[n..] == y[n..] {
      assert x == x[..n] + x[n..] && y == y[..n] + y[n..];
      assert x[..n] == y[..n];
    }
  }

  // ----- docker exec

  type Env = map<string, string>

  /** The env flags, in the order in which the map was walked. */
  function EnvArgs(keys: seq<string>, env: Env): seq<string>
    requires forall k :: k in keys ==> k in env
  {
    if keys == [] then [] else ["-e", keys[0] + "=" + env[keys[0]]] + EnvArgs(keys[1..], env)
  }

  function ExecArgs(container: string, cmd: seq<string>, keys: seq<string>, env: Env, stdin: bool): seq<string>
    requires forall k :: k in keys ==> k in env
  {
    ["exec"] + (if stdin then ["-i"] else []) + EnvArgs(keys, env) + [container] + cmd
  }

  lemma {:induction false} EnvArgsAt(keys: seq<string>, env: Env)
    requires forall k :: k in keys ==> k in env
    ensures |EnvArgs(keys, env)| == 2 * |keys|
    ensures forall i :: 0 <= i < |keys| ==>
              EnvArgs(keys, env)[2 * i] == "-e" && EnvArgs(keys, env)[2 * i + 1] == keys[i] + "=" + env[keys[i]]
  {
    if keys != [] {
      var rest := EnvArgs(keys[1..], env);
      EnvArgsAt(keys[1..], env);
      forall i | 0 < i < |keys|
        ensures EnvArgs(keys, env)[2 * i] == "-e" && EnvArgs(keys, env)[2 * i + 1] == keys[i] + "=" + env[keys[i]]
      {
        assert EnvArgs(keys, env)[2 * i] == rest[2 * (i - 1)];
        assert EnvArgs(keys, env)[2 * i + 1] == rest[2 * (i - 1) + 1] && keys[1..][i - 1] == keys[i];
      }
    }
  }

  method BuildExecArgs(container: string, cmd: seq<string>, keys: seq<string>, env: Env,
                       stdin: bool) returns (args: seq<string>)
    requires forall k :: k in keys ==> k in env
    ensures args == ExecArgs(container, cmd, keys, env, stdin)
    ensures var head := if stdin then ["exec", "-i"] else ["exec"];
            && |args| == |head| + 2 * |keys| + 1 + |cmd|
            && args[..|head|] == head
            && (forall i :: 0 <= i < |keys| ==>
                  args[|head| + 2 * i] == "-e" && args[|head| + 2 * i + 1] == keys[i] + "=" + env[keys[i]])
            && args[|head| + 2 * |keys|..] == [container] + cmd
  {
    EnvArgsAt(keys, env);
    args := ["exec"];
    if stdin { args := args + ["-i"]; }
    ghost var head := args;
    for i := 0 to |keys|
      invariant args + EnvArgs(keys[i..], env) == head + EnvArgs(keys, env)
    {
      assert keys[i..][1..] == keys[i + 1..];
      args := args + ["-e", keys[i] + "=" + env[keys[i]]];
    }
    assert args == args + EnvArgs(keys[|keys|..], env);
    args := args + [container];
    args := args + cmd;
  }

  lemma AddWord(w: string, x: seq<string>, y: seq<string>)
    requires !EnvFlag(w) && !PasswordFlag(w) && x != [] && y != [] && SameButSecrets(x, y)
    ensures SameButSecrets([w] + x, [w] + y)
  {
    assert ([w] + x)[1..] == x && ([w] + y)[1..] == y;
  }

  lemma AddFlag(w: string, u: string, v: string, x: seq<string>, y: seq<string>, tail: seq<string>)
    requires EnvFlag(w) && SameKey(u, v) && SameButSecrets(x + tail, y + tail)
    ensures SameButSecrets([w, u] + x + tail, [w, v] + y + tail)
  {
    assert ([w, u] + x + tail)[2..] == x + tail && ([w, v] + y + tail)[2..] == y + tail;
  }

  lemma {:induction false} SameArgs(x: seq<string>)
    ensures SameButSecrets(x, x)
    decreases |x|
  {
    if |x| >= 2 {
      SameArgs(x[1..]);
      SameArgs(x[2..]);
    }
  }

  lemma {:induction false} EnvArgsHidden(keys: seq<string>, a: Env, b: Env, tail: seq<string>)
    requires forall k :: k in keys ==> k in a && k in b
    ensures SameButSecrets(EnvArgs(keys, a) + tail, EnvArgs(keys, b) + tail)
    decreases |keys|
  {
    if keys == [] {
      assert EnvArgs(keys, a) + tail == tail && EnvArgs(keys, b) + tail == tail;
      SameArgs(tail);
    } else {
      var k := keys[0];
      EnvArgsHidden(keys[1..], a, b, tail);
      KeyShared(k, a[k], b[k]);
      AddFlag("-e", k + "=" + a[k], k + "=" + b[k], EnvArgs(keys[1..], a), EnvArgs(keys[1..], b), tail);
    }
  }

  /** A key that itself contains `=` is cut at its first one. */
  lemma KeyShared(k: string, v: string, w: string)
    ensures SameKey(k + "=" + v, k + "=" + w)
  {
    match Cut(k, '=')
    case None =>
      CutAt(k, v, '=');
      CutAt(k, w, '=');
    case Some((x, y)) =>
      assert k + "=" + v == x + ['='] + (y + "=" + v) && k + "=" + w == x + ['='] + (y + "=" + w);
      CutAt(x, y + "=" + v, '=');
      CutAt(x, y + "=" + w, '=');
  }

  /** What an error message shows of an `Exec` call does not depend on the values of its environment. */
  lemma ExecHidesValues(container: string, cmd: seq<string>, keys: seq<string>, a: Env, b: Env, stdin: bool)
    requires forall k :: k in keys ==> k in a && k in b
    ensures Redact(ExecArgs(container, cmd, keys, a, stdin)) == Redact(ExecArgs(container, cmd, keys, b, stdin))
  {
    var tail := [container] + cmd;
    var x, y := EnvArgs(keys, a), EnvArgs(keys, b);
    EnvArgsHidden(keys, a, b, tail);
    WithHead(x + tail, y + tail, stdin);
    var head := ["exec"] + if stdin then ["-i"] else [];
    assert head + x + [container] + cmd == head + (x + tail) && head + y + [container] + cmd == head + (y + tail);
    RedactionIsExact(head + (x + tail), head + (y + tail));
  }

  lemma WithHead(x: seq<string>, y: seq<string>, stdin: bool)
    requires x != [] && y != [] && SameButSecrets(x, y)
    ensures SameButSecrets(["exec"] + (if stdin then ["-i"] else []) + x, ["exec"] + (if stdin then ["-i"] else []) + y)
  {
    if stdin {
      AddWord("-i", x, y);
      AddWord("exec", ["-i"] + x, ["-i"] + y);
      assert ["exec"] + ["-i"] + x == ["exec"] + (["-i"] + x) && ["exec"] + ["-i"] + y == ["exec"] + (["-i"] + y);
    } else {
      AddWord("exec", x, y);
      assert ["exec"] + [] == ["exec"];
    }
  }
}
