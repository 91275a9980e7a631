/** Job names, archive identifiers and remote folders (detector/naming.go, the name helpers of detector/detector.go,
    utils/validators.go). `strings.ToLower` works character by character and is taken as given. */
module Naming {
  import opened Text

  predicate Alnum(c: char) {
    'a' <= c <= 'z' || '0' <= c <= '9'
  }

  lemma AlnumExactly(c: char)
    ensures Alnum(c) <==> c in "abcdefghijklmnopqrstuvwxyz" || c in "0123456789"
  {
  }

  /** What is used of lower-casing: it leaves these alone. */
  ghost predicate KeepsAlnum(lower: char -> char) {
    forall c :: Alnum(c) || c == '_' ==> lower(c) == c
  }

  function Map(s: string, f: char -> char): (r: string)
    ensures |r| == |s| && forall i :: 0 <= i < |s| ==> r[i] == f(s[i])
  {
    seq(|s|, i requires 0 <= i < |s| => f(s[i]))
  }

  /** Each maximal run of other characters becomes one underscore; `gap` is set inside a run. */
  function Collapse(s: string, gap: bool): string
    decreases |s|
  {
    if s == "" then ""
    else if Alnum(s[0]) then [s[0]] + Collapse(s[1..], false)
    else (if gap then "" else "_") + Collapse(s[1..], true)
  }

  predicate Underscore(c: char) {
    c == '_'
  }

  function Sanitize(s: string, lower: char -> char): string {
    var r := Trim(Collapse(Map(s, lower), false), Underscore);
    if r == "" then "unnamed" else r
  }

  /** The names `ValidateJobName` accepts. */
  predicate ValidJobName(name: string) {
    name != "" && Alnum(name[0]) && forall c :: c in name ==> Alnum(c) || c == '_'
  }

  ghost predicate NoDouble(s: string) {
    forall i :: 0 <= i < |s| - 1 ==> s[i] != '_' || s[i + 1] != '_'
  }

  ghost predicate Tidy(s: string) {
    (forall c :: c in s ==> Alnum(c) || c == '_') && NoDouble(s)
  }

  /** No doubled underscore and none at the edges. */
  ghost predicate Canonical(s: string) {
    s != "" && Tidy(s) && s[0] != '_' && s[|s| - 1] != '_'
  }

  lemma {:induction false} CollapseTidy(s: string, gap: bool)
    ensures Tidy(Collapse(s, gap)) && (gap && Collapse(s, gap) != "" ==> Collapse(s, gap)[0] != '_')
    decreases |s|
  {
    if s != "" { CollapseTidy(s[1..], !Alnum(s[0])); }
  }

  lemma {:induction false} CollapseNothing(s: string, gap: bool)
    requires Tidy(s) && (gap && s != "" ==> s[0] != '_')
    ensures Collapse(s, gap) == s
    decreases |s|
  {
    if s != "" {
      var t := s[1..];
      assert s[0] in s && forall i :: 0 <= i < |t| ==> t[i] == s[i + 1];
      CollapseNothing(t, !Alnum(s[0]));
      assert s == [s[0]] + s[1..];
    }
  }

  lemma TidySlice(s: string, i: nat, j: nat)
    requires Tidy(s) && i <= j <= |s|
    ensures Tidy(s[i..j])
  {
    var t := s[i..j];
    forall k | 0 <= k < |t| - 1 ensures t[k] != '_' || t[k + 1] != '_' {
      assert t[k] == s[i + k] && t[k + 1] == s[i + k + 1];
    }
  }

  lemma TrimTidy(s: string)
    requires Tidy(s)
    ensures Tidy(Trim(s, Underscore))
  {
    var left := TrimLeft(s, Underscore);
    var both := TrimRight(left, Underscore);
    TidySlice(s, |s| - |left|, |s|);
    TidySlice(left, 0, |both|);
    assert left[0..|both|] == both;
  }

  lemma SanitizeCanonical(s: string, lower: char -> char)
    ensures Canonical(Sanitize(s, lower)) && ValidJobName(Sanitize(s, lower))
  {
    CollapseTidy(Map(s, lower), false);
    TrimTidy(Collapse(Map(s, lower), false));
  }

  /** `sanitizeComponent` changes nothing exactly when the name is already canonical; so applying it twice is
      applying it once. */
  lemma SanitizeFixes(s: string, lower: char -> char)
    requires KeepsAlnum(lower)
    ensures Sanitize(s, lower) == s <==> Canonical(s)
    ensures Sanitize(Sanitize(s, lower), lower) == Sanitize(s, lower)
  {
    SanitizeCanonical(s, lower);
    CanonicalStays(Sanitize(s, lower), lower);
    if Canonical(s) { CanonicalStays(s, lower); }
  }

  lemma CanonicalStays(s: string, lower: char -> char)
    requires KeepsAlnum(lower) && Canonical(s)
    ensures Sanitize(s, lower) == s
  {
    assert forall i :: 0 <= i < |s| ==> s[i] in s;
    assert Map(s, lower) == s;
    CollapseNothing(s, false);
    TrimNothing(s, Underscore);
  }

  function Letters(s: string): string {
    if s == "" then "" else (if Alnum(s[0]) then [s[0]] else "") + Letters(s[1..])
  }

  lemma {:induction false} CollapseLetters(s: string, gap: bool)
    ensures Letters(Collapse(s, gap)) == Letters(s)
    decreases |s|
  {
    if s != "" {
      var rest := Collapse(s[1..], !Alnum(s[0]));
      CollapseLetters(s[1..], !Alnum(s[0]));
      if Alnum(s[0]) {
        assert ([s[0]] + rest)[1..] == rest;
      } else if !gap {
        assert ("_" + rest)[1..] == rest;
      } else {
        assert "" + rest == rest;
      }
    }
  }

  lemma {:induction false} LettersConcat(a: string, b: string)
    ensures Letters(a + b) == Letters(a) + Letters(b)
  {
    if a == "" {
      assert a + b == b;
    } else {
      assert (a + b)[1..] == a[1..] + b && (a + b)[0] == a[0];
      LettersConcat(a[1..], b);
      Regroup(if Alnum(a[0]) then [a[0]] else "", Letters(a[1..]), Letters(b));
    }
  }

  lemma Regroup(x: string, y: string, z: string)
    ensures x + (y + z) == (x + y) + z
  {
  }

  lemma {:induction false} TrimLetters(s: string)
    ensures Letters(TrimRight(s, Underscore)) == Letters(s)
    decreases |s|
  {
    if s != "" && s[|s| - 1] == '_' {
      TrimLetters(s[..|s| - 1]);
      LettersConcat(s[..|s| - 1], "_");
      assert s == s[..|s| - 1] + "_";
    }
  }

  lemma {:induction false} TrimLeftLetters(s: string)
    ensures Letters(TrimLeft(s, Underscore)) == Letters(s)
  {
    if s != "" && s[0] == '_' { TrimLeftLetters(s[1..]); }
  }

  lemma TrimmedLetters(s: string)
    ensures Letters(Trim(s, Underscore)) == Letters(s)
  {
    TrimLeftLetters(s);
    TrimLetters(TrimLeft(s, Underscore));
  }

  lemma TidyHasLetters(r: string)
    requires Tidy(r) && (r != "" ==> r[0] != '_')
    ensures Letters(r) == "" <==> r == ""
  {
    if r != "" { assert r[0] in r && Alnum(r[0]); }
  }

  /** What is left after collapsing and trimming, before a name is made up. */
  lemma TrimmedRuns(low: string)
    ensures var r := Trim(Collapse(low, false), Underscore);
            Letters(r) == Letters(low) && (Letters(low) == "" <==> r == "")
  {
    var c := Collapse(low, false);
    CollapseLetters(low, false);
    TrimmedLetters(c);
    CollapseTidy(low, false);
    TrimTidy(c);
    TidyHasLetters(Trim(c, Underscore));
  }

  lemma UnnamedLetters()
    ensures Letters("unnamed") == "unnamed"
  {
    CanonicalLetters("unnamed");
  }

  /** Letters and digits all survive, in order. */
  lemma SanitizeKeepsLetters(s: string, lower: char -> char)
    ensures Letters(Sanitize(s, lower)) == if Letters(Map(s, lower)) == "" then "unnamed" else Letters(Map(s, lower))
  {
    TrimmedRuns(Map(s, lower));
    UnnamedLetters();
  }

  lemma {:induction false} CanonicalLetters(s: string)
    requires forall c :: c in s ==> Alnum(c)
    ensures Letters(s) == s
  {
    if s != "" {
      CanonicalLetters(s[1..]);
      assert s == [s[0]] + s[1..];
    }
  }

  // ----- a sanitized name is its words

  function Masked(s: string): string {
    Map(s, c => if Alnum(c) then c else '_')
  }

  lemma MaskedHead(s: string)
    requires s != ""
    ensures Masked(s)[0] == (if Alnum(s[0]) then s[0] else '_') && Masked(s)[1..] == Masked(s[1..])
  {
  }

  lemma {:induction false} CollapsedWords(s: string, gap: bool)
    ensures var (c, m) := (Split(Collapse(s, gap), '_'), Split(Masked(s), '_'));
            && NonEmpty(c) == NonEmpty(m)
            && (!gap ==> c[0] == m[0] && NonEmpty(c[1..]) == NonEmpty(m[1..]))
    decreases |s|
  {
    if s != "" {
      MaskedHead(s);
      CollapsedWords(s[1..], !Alnum(s[0]));
      var (c, m) := (Split(Collapse(s[1..], !Alnum(s[0])), '_'), Split(Masked(s[1..]), '_'));
      assert ([""] + c)[1..] == c && ([""] + m)[1..] == m;
      if Alnum(s[0]) {
        assert Split(Masked(s), '_') == [[s[0]] + m[0]] + m[1..];
        assert Collapse(s, gap)[1..] == Collapse(s[1..], false);
        assert Split(Collapse(s, gap), '_') == [[s[0]] + c[0]] + c[1..];
      } else {
        assert Split(Masked(s), '_') == [""] + m;
        assert !gap ==> Collapse(s, gap)[1..] == Collapse(s[1..], true);
        assert gap ==> Collapse(s, gap) == Collapse(s[1..], true);
      }
    }
  }

  lemma CanonicalTail(r: string, k: string, v: string)
    requires Canonical(r) && r == k + ['_'] + v
    ensures Canonical(v) && k != ""
  {
    assert r[|k|] == '_' && forall i :: 0 <= i < |v| ==> v[i] == r[|k| + 1 + i] && r[|k| + 1 + i] in r;
    assert |k| != |r| - 1 && |k| != 0;
  }

  lemma JoinedNext(word: string, words: seq<string>)
    requires words != []
    ensures Joined([word] + words, '_') == word + ['_'] + Joined(words, '_')
  {
    assert ([word] + words)[1..] == words;
  }

  lemma {:induction false} CanonicalIsJoined(r: string) returns (words: seq<string>)
    requires Canonical(r)
    ensures words == NonEmpty(Split(r, '_')) && words != [] && Joined(words, '_') == r
    decreases |r|
  {
    match Cut(r, '_')
    case None =>
      HeadOfParts(r, '_', r, "");
      words := [r];
      assert NonEmpty([""]) == NonEmpty([""][1..]) == [];
    case Some((k, v)) =>
      CanonicalTail(r, k, v);
      var others := CanonicalIsJoined(v);
      HeadOfParts(r, '_', k, ['_'] + v);
      assert (['_'] + v)[1..] == v && ([""] + Split(v, '_'))[1..] == Split(v, '_');
      words := [k] + others;
      JoinedNext(k, others);
  }

  /** The sanitized name is the maximal words of letters and digits in the lowered one, a single underscore between
      them; only where there are no words a name is made up. */
  lemma SanitizedWords(s: string, lower: char -> char, words: seq<string>)
    requires Spells(Masked(Map(s, lower)), '_', words)
    ensures Sanitize(s, lower) == if words == [] then "unnamed" else Joined(words, '_')
  {
    var low := Map(s, lower);
    SpelledParts(Masked(low), '_', words);
    CollapsedWords(low, false);
    TrimmedParts(Collapse(low, false), '_', Underscore);
    var r := Trim(Collapse(low, false), Underscore);
    if r == "" {
      assert NonEmpty([""]) == NonEmpty([""][1..]) == [];
    } else {
      SanitizeCanonical(s, lower);
      var joined := CanonicalIsJoined(r);
    }
  }

  // ----- volume names

  predicate Hex(c: char) {
    '0' <= c <= '9' || 'a' <= c <= 'f'
  }

  predicate Anonymous(volume: string) {
    |volume| == 64 && forall c :: c in volume ==> Hex(c)
  }

  function VolumeIdentifier(volume: string): string {
    if Anonymous(volume) then "vol-" + volume[..8] else volume
  }

  function TrimSuffix(s: string, suffix: string): string {
    if HasSuffix(s, suffix) then s[..|s| - |suffix|] else s
  }

  function TrimPrefix(s: string, prefix: string): string {
    if prefix <= s then s[|prefix|..] else s
  }

  const NOISE := ["_data", "_db", "_volume", "_vol"]

  function TrimSuffixes(s: string, suffixes: seq<string>): string
    decreases |suffixes|
  {
    if suffixes == [] then s else TrimSuffixes(TrimSuffix(s, suffixes[0]), suffixes[1..])
  }

  function SuffixOf(volume: string, serviceType: string, lower: char -> char): string {
    var service := Map(serviceType, lower);
    var name := Trim(TrimPrefix(TrimSuffixes(Map(volume, lower), NOISE), service + "_"), Underscore);
    if name == "" || name == service then "" else name
  }

  /** The result never has an edge underscore and never just repeats the service. */
  method VolumeSuffix(volume: string, serviceType: string, lower: char -> char) returns (suffix: string)
    ensures suffix == SuffixOf(volume, serviceType, lower)
    ensures suffix != "" ==> suffix[0] != '_' && suffix[|suffix| - 1] != '_' && suffix != Map(serviceType, lower)
    ensures forall c :: c in suffix ==> c in Map(volume, lower)
  {
    var name := Map(volume, lower);
    for i := 0 to |NOISE|
      invariant TrimSuffixes(name, NOISE[i..]) == TrimSuffixes(Map(volume, lower), NOISE)
      invariant forall c :: c in name ==> c in Map(volume, lower)
    {
      assert NOISE[i..][1..] == NOISE[i + 1..];
      name := TrimSuffix(name, NOISE[i]);
    }
    var service := Map(serviceType, lower);
    name := Trim(TrimPrefix(name, service + "_"), Underscore);
    if name == "" || name == service { return ""; }
    return name;
  }

  /** No noise suffix fits. */
  ghost predicate Quiet(s: string) {
    forall suffix :: suffix in {"_data", "_db", "_volume", "_vol"} ==> !HasSuffix(s, suffix)
  }

  lemma {:induction false} QuietStays(s: string, suffixes: seq<string>)
    requires forall suffix :: suffix in suffixes ==> !HasSuffix(s, suffix)
    ensures TrimSuffixes(s, suffixes) == s
    decreases |suffixes|
  {
    if suffixes != [] { QuietStays(s, suffixes[1..]); }
  }

  lemma {:induction false} OneNoiseGoes(s: string, noise: string, suffixes: seq<string>)
    requires forall suffix :: suffix in suffixes ==> !HasSuffix(s, suffix)
    requires noise in suffixes && forall suffix :: suffix in suffixes && suffix != noise ==>
             !HasSuffix(s + noise, suffix)
    ensures TrimSuffixes(s + noise, suffixes) == s
    decreases |suffixes|
  {
    assert (s + noise)[|s|..] == noise && (s + noise)[..|s|] == s;
    if suffixes[0] == noise {
      QuietStays(s, suffixes[1..]);
    } else {
      OneNoiseGoes(s, noise, suffixes[1..]);
    }
  }

  /** No noise suffix ends another. */
  lemma NoiseEndsApart(s: string, noise: string, other: string)
    requires noise in NOISE && other in NOISE && noise != other
    ensures !HasSuffix(s + noise, other)
  {
    var t := s + noise;
    assert t[|t| - 1] == noise[|noise| - 1] && t[|t| - 2] == noise[|noise| - 2] && t[|t| - 3] == noise[|noise| - 3];
  }

  lemma NoiseGoes(s: string, noise: string)
    requires Quiet(s) && (noise == "" || noise in NOISE)
    ensures TrimSuffixes(s + noise, NOISE) == s
  {
    NoiseWords();
    if noise == "" {
      assert s + noise == s;
      QuietStays(s, NOISE);
    } else {
      forall other | other in NOISE && other != noise ensures !HasSuffix(s + noise, other) {
        NoiseEndsApart(s, noise, other);
      }
      OneNoiseGoes(s, noise, NOISE);
    }
  }

  /** Docker's own names, 64 hexadecimal digits, are cut to eight; all others stay. */
  lemma IdentifierExactly(volume: string)
    ensures VolumeIdentifier(volume) == volume <==>
            !(|volume| == 64 && forall c :: c in volume ==> c in "0123456789abcdef")
    ensures VolumeIdentifier(volume) != volume ==>
              |volume| >= 8 && VolumeIdentifier(volume) == "vol-" + volume[..8]
  {
    assert forall c: char :: Hex(c) <==> c in "0123456789abcdef";
  }

  /** Each of the four suffixes goes at most once, in this order. */
  lemma NoiseInOrder(s: string)
    ensures TrimSuffixes(s, NOISE) == TrimSuffix(TrimSuffix(TrimSuffix(TrimSuffix(s, "_data"), "_db"), "_volume"),
                                                 "_vol")
  {
    var t := TrimSuffix(TrimSuffix(s, "_data"), "_db");
    assert TrimSuffixes(s, NOISE) == TrimSuffixes(TrimSuffix(s, "_data"), NOISE[1..]) ==
           TrimSuffixes(t, NOISE[1..][1..]);
    var u := TrimSuffix(t, "_volume");
    assert TrimSuffixes(t, NOISE[1..][1..]) == TrimSuffixes(u, NOISE[1..][1..][1..]);
    assert TrimSuffixes(u, NOISE[1..][1..][1..]) == TrimSuffixes(TrimSuffix(u, "_vol"), []);
  }

  lemma NoiseWords()
    ensures forall noise :: noise in NOISE <==> noise in {"_data", "_db", "_volume", "_vol"}
  {
  }

  /** A volume named after the service and something of its own, with or without a noise suffix, yields that
      something. */
  lemma NamedVolume(volume: string, serviceType: string, rest: string, noise: string, lower: char -> char)
    requires Map(volume, lower) == Map(serviceType, lower) + "_" + rest + noise
    requires Quiet(Map(serviceType, lower) + "_" + rest) && noise in {"", "_data", "_db", "_volume", "_vol"}
    requires rest != "" && rest[0] != '_' && rest[|rest| - 1] != '_' && rest != Map(serviceType, lower)
    ensures SuffixOf(volume, serviceType, lower) == rest
  {
    var service := Map(serviceType, lower);
    NoiseWords();
    NoiseGoes(service + "_" + rest, noise);
    assert service + "_" <= service + "_" + rest && (service + "_" + rest)[|service + "_"|..] == rest;
    TrimNothing(rest, Underscore);
  }

  /** A volume named after the service alone, with or without a noise suffix, yields nothing. */
  lemma BareVolume(volume: string, serviceType: string, noise: string, lower: char -> char)
    requires Map(volume, lower) == Map(serviceType, lower) + noise
    requires Quiet(Map(serviceType, lower)) && noise in {"", "_data", "_db", "_volume", "_vol"}
    requires var service := Map(serviceType, lower); service != "" && service[0] != '_' && service[|service| - 1] != '_'
    ensures SuffixOf(volume, serviceType, lower) == ""
  {
    var service := Map(serviceType, lower);
    NoiseWords();
    NoiseGoes(service, noise);
    NoPrefix(service);
    TrimNothing(service, Underscore);
  }

  lemma NoPrefix(service: string)
    ensures TrimPrefix(service, service + "_") == service
  {
  }

  // ----- remote folders

  predicate Rooted(r: string) {
    r != "" && r[0] == '/'
  }

  /** Every part between slashes, and a slash at the end. */
  function Folder(parts: seq<string>): (r: string)
    ensures Rooted(r)
  {
    if parts == [] then "/" else "/" + parts[0] + Folder(parts[1..])
  }

  function RemotePath(environment: string, hostname: string, serviceType: string, jobName: string,
                      lower: char -> char): string {
    Folder([Map(environment, lower), Map(hostname, lower), Map(serviceType, lower), Map(jobName, lower)])
  }

  /** `/<environment>/<hostname>/<service>/<job>/`, all lower-case. */
  lemma RemotePathText(environment: string, hostname: string, serviceType: string, jobName: string,
                       lower: char -> char)
    ensures RemotePath(environment, hostname, serviceType, jobName, lower) ==
            "/" + Map(environment, lower) + "/" + Map(hostname, lower) + "/" + Map(serviceType, lower) + "/" +
            Map(jobName, lower) + "/"
  {
    var parts := [Map(environment, lower), Map(hostname, lower), Map(serviceType, lower), Map(jobName, lower)];
    assert Folder(parts[1..][1..][1..][1..]) == "/";
    assert Folder(parts[1..][1..][1..]) == "/" + parts[3] + "/";
    assert Folder(parts[1..][1..]) == "/" + parts[2] + ("/" + parts[3] + "/");
    assert Folder(parts[1..]) == "/" + parts[1] + ("/" + parts[2] + ("/" + parts[3] + "/"));
  }

  lemma PartsAgree(x: string, y: string, r: string, t: string)
    requires '/' !in x && '/' !in y && Rooted(r) && Rooted(t)
    ensures "/" + x + r <= "/" + y + t <==> x == y && r <= t
  {
    var u, v := "/" + x + r, "/" + y + t;
    assert u[|x| + 1] == '/' && v[|y| + 1] == '/';
    assert x == u[1..|x| + 1] && y == v[1..|y| + 1];
    assert r == u[|x| + 1..] && t == v[|y| + 1..];
  }

  ghost predicate SlashFree(parts: seq<string>) {
    forall p :: p in parts ==> '/' !in p
  }

  /** Folders of the same depth never lie inside one another. */
  lemma {:induction false} FoldersNeverNest(p: seq<string>, q: seq<string>)
    requires |p| == |q| && SlashFree(p) && SlashFree(q)
    ensures Folder(p) <= Folder(q) <==> p == q
    decreases |p|
  {
    if p != [] {
      FoldersNeverNest(p[1..], q[1..]);
      PartsAgree(p[0], q[0], Folder(p[1..]), Folder(q[1..]));
      assert p == [p[0]] + p[1..] && q == [q[0]] + q[1..];
    }
  }

  /** For parts without a slash, one job's folder is, or lies above, another's only if all four parts agree up to
      case. With no part empty, a prune of one job therefore never lists the other's files. */
  lemma FoldersAreApart(e: string, h: string, s: string, j: string, e': string, h': string, s': string, j': string,
                        lower: char -> char)
    requires SlashFree([Map(e, lower), Map(h, lower), Map(s, lower), Map(j, lower)])
    requires SlashFree([Map(e', lower), Map(h', lower), Map(s', lower), Map(j', lower)])
    ensures RemotePath(e, h, s, j, lower) <= RemotePath(e', h', s', j', lower) <==>
            Map(e, lower) == Map(e', lower) && Map(h, lower) == Map(h', lower)
            && Map(s, lower) == Map(s', lower) && Map(j, lower) == Map(j', lower)
  {
    var p := [Map(e, lower), Map(h, lower), Map(s, lower), Map(j, lower)];
    var q := [Map(e', lower), Map(h', lower), Map(s', lower), Map(j', lower)];
    FoldersNeverNest(p, q);
    assert p == q <==> p[0] == q[0] && p[1] == q[1] && p[2] == q[2] && p[3] == q[3];
  }
}
