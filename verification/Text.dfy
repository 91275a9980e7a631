/** The string operations of Go's standard library that the other modules rest on. */
module Text {
  datatype Option<+T> = None | Some(value: T)

  /** Go compares strings bytewise; on UTF-8 text that is the order of the code points. */
  predicate LexLess(a: string, b: string) {
    if b == "" then false
    else if a == "" then true
    else a[0] < b[0] || (a[0] == b[0] && LexLess(a[1..], b[1..]))
  }

  lemma {:induction false} LexIrreflexive(a: string)
    ensures !LexLess(a, a)
  {
    if a != "" { LexIrreflexive(a[1..]); }
  }

  lemma {:induction false} LexTransitive(a: string, b: string, c: string)
    requires LexLess(a, b) && LexLess(b, c)
    ensures LexLess(a, c)
  {
    if a != "" && a[0] == b[0] == c[0] { LexTransitive(a[1..], b[1..], c[1..]); }
  }

  lemma {:induction false} LexTotal(a: string, b: string)
    ensures LexLess(a, b) || a == b || LexLess(b, a)
  {
    if a != "" && b != "" && a[0] == b[0] {
      LexTotal(a[1..], b[1..]);
      assert a == [a[0]] + a[1..] && b == [b[0]] + b[1..];
    }
  }

  /** Fixed-width keys compare field by field. */
  lemma {:induction false} LexConcat(a: string, b: string, x: string, y: string)
    requires |a| == |b|
    ensures LexLess(a + x, b + y) <==> LexLess(a, b) || (a == b && LexLess(x, y))
  {
    if a == "" {
      assert a + x == x && b + y == y;
    } else {
      assert (a + x)[1..] == a[1..] + x && (b + y)[1..] == b[1..] + y;
      LexConcat(a[1..], b[1..], x, y);
      assert a == [a[0]] + a[1..] && b == [b[0]] + b[1..];
    }
  }

  /** The strict weak orders `sort.Slice` is called with. */
  ghost predicate StrictWeak<T(!new)>(less: (T, T) -> bool) {
    && (forall x, y :: less(x, y) ==> !less(y, x))
    && (forall x, y, z :: !less(y, x) && !less(z, y) ==> !less(z, x))
  }

  ghost predicate Ordered<T>(s: seq<T>, less: (T, T) -> bool) {
    forall i, j :: 0 <= i < j < |s| ==> !less(s[j], s[i])
  }

  lemma LexStrictWeak()
    ensures StrictWeak(LexLess)
  {
    forall x, y | LexLess(x, y) ensures !LexLess(y, x) {
      if LexLess(y, x) { LexTransitive(x, y, x); LexIrreflexive(x); }
    }
    forall x, y, z | !LexLess(y, x) && !LexLess(z, y) ensures !LexLess(z, x) {
      LexTotal(y, x); LexTotal(z, y);
      if LexLess(z, x) {
        if x != y { LexTransitive(z, x, y); }
      }
    }
  }

  /** `sort.Slice`: some ordered permutation. The caller may not rely on how ties are broken. */
  method SortBy<T(!new)>(s: seq<T>, less: (T, T) -> bool) returns (r: seq<T>)
    requires StrictWeak(less)
    ensures Ordered(r, less) && multiset(r) == multiset(s)
  {
    r := [];
    for i := 0 to |s|
      invariant Ordered(r, less) && multiset(r) == multiset(s[..i])
    {
      assert s[..i + 1] == s[..i] + [s[i]];
      r := Insert(r, s[i], less);
    }
    assert s[..|s|] == s;
  }

  method Insert<T(!new)>(s: seq<T>, x: T, less: (T, T) -> bool) returns (r: seq<T>)
    requires StrictWeak(less) && Ordered(s, less)
    ensures Ordered(r, less) && multiset(r) == multiset(s) + multiset{x}
  {
    var k := |s|;
    while k > 0 && less(x, s[k - 1])
      invariant 0 <= k <= |s|
      invariant forall j :: k <= j < |s| ==> less(x, s[j])
    {
      k := k - 1;
    }
    InsertedOrder(s, x, k, less);
    assert s == s[..k] + s[k..];
    r := s[..k] + [x] + s[k..];
  }

  lemma InsertedOrder<T(!new)>(s: seq<T>, x: T, k: nat, less: (T, T) -> bool)
    requires StrictWeak(less) && Ordered(s, less) && k <= |s|
    requires k > 0 ==> !less(x, s[k - 1])
    requires forall j :: k <= j < |s| ==> less(x, s[j])
    ensures Ordered(s[..k] + [x] + s[k..], less)
  {
    forall i | 0 <= i < k ensures !less(x, s[i]) {
      if i < k - 1 { assert !less(s[k - 1], s[i]); }
    }
  }

  /** For every order of this kind there is an ordered permutation. */
  lemma {:induction false} SortExists<T(!new)>(s: seq<T>, less: (T, T) -> bool) returns (r: seq<T>)
    requires StrictWeak(less)
    ensures Ordered(r, less) && multiset(r) == multiset(s)
    decreases |s|
  {
    if s == [] { return []; }
    var x := s[|s| - 1];
    r := SortExists(s[..|s| - 1], less);
    assert s == s[..|s| - 1] + [x];
    var k := |r|;
    while k > 0 && less(x, r[k - 1])
      invariant 0 <= k <= |r| && forall j :: k <= j < |r| ==> less(x, r[j])
    {
      k := k - 1;
    }
    InsertedOrder(r, x, k, less);
    assert r == r[..k] + r[k..];
    r := r[..k] + [x] + r[k..];
  }

  /** Strictly increasing keys: `sort.Strings` applied to the keys of a map. */
  ghost predicate StrictlySorted(keys: seq<string>) {
    forall i, j :: 0 <= i < j < |keys| ==> LexLess(keys[i], keys[j])
  }

  ghost function Elements<T>(s: seq<T>): set<T> {
    set x | x in s
  }

  method SortedKeys(keys: set<string>) returns (r: seq<string>)
    ensures StrictlySorted(r) && Elements(r) == keys
  {
    var rest, s := keys, [];
    while rest != {}
      invariant rest <= keys && forall x :: x in s <==> x in keys - rest
      invariant forall i, j :: 0 <= i < j < |s| ==> s[i] != s[j]
      decreases rest
    {
      var k :| k in rest;
      assert k !in s;
      s, rest := s + [k], rest - {k};
    }
    LexStrictWeak();
    r := SortBy(s, LexLess);
    DistinctPermutation(s, r);
    forall i, j | 0 <= i < j < |r| ensures LexLess(r[i], r[j]) { LexTotal(r[i], r[j]); }
    assert forall x :: x in r <==> x in multiset(r);
    assert forall x :: x in s <==> x in multiset(s);
  }

  lemma {:induction false} DistinctPermutation<T>(s: seq<T>, r: seq<T>)
    requires multiset(s) == multiset(r)
    requires forall i, j :: 0 <= i < j < |s| ==> s[i] != s[j]
    ensures forall i, j :: 0 <= i < j < |r| ==> r[i] != r[j]
  {
    forall i, j | 0 <= i < j < |r| ensures r[i] != r[j] {
      AtMostOnce(s, r[i]);
      TwiceCounts(r, i, j);
    }
  }

  lemma TwiceCounts<T>(r: seq<T>, i: nat, j: nat)
    requires i < j < |r|
    ensures r[i] == r[j] ==> multiset(r)[r[i]] >= 2
  {
    assert r == r[..i] + [r[i]] + r[i + 1..j] + [r[j]] + r[j + 1..];
  }

  lemma {:induction false} AtMostOnce<T>(s: seq<T>, x: T)
    requires forall i, j :: 0 <= i < j < |s| ==> s[i] != s[j]
    ensures multiset(s)[x] <= 1
  {
    if s != [] {
      assert s == [s[0]] + s[1..];
      AtMostOnce(s[1..], x);
      assert x == s[0] ==> x !in s[1..];
      assert x !in s[1..] ==> multiset(s[1..])[x] == 0;
    }
  }

  /** The sorted key slice is a function of the key set: map iteration order leaves no trace. */
  lemma {:induction false} SortedKeysUnique(a: seq<string>, b: seq<string>)
    requires StrictlySorted(a) && StrictlySorted(b) && Elements(a) == Elements(b)
    ensures a == b
  {
    NoElements(a);
    NoElements(b);
    if a != [] {
      assert a[0] in Elements(b) && b[0] in Elements(a);
      var i :| 0 <= i < |b| && b[i] == a[0];
      var j :| 0 <= j < |a| && a[j] == b[0];
      if a[0] != b[0] {
        LexTransitive(a[0], b[0], a[0]);
        LexIrreflexive(a[0]);
      }
      HeadOnlyOnce(a); HeadOnlyOnce(b);
      SortedKeysUnique(a[1..], b[1..]);
      assert a == [a[0]] + a[1..] && b == [b[0]] + b[1..];
    }
  }

  lemma NoElements(a: seq<string>)
    ensures a == [] <==> Elements(a) == {}
  {
    if a != [] { assert a[0] in Elements(a); }
  }

  lemma HeadOnlyOnce(a: seq<string>)
    requires a != [] && StrictlySorted(a)
    ensures StrictlySorted(a[1..]) && Elements(a[1..]) == Elements(a) - {a[0]}
  {
    LexIrreflexive(a[0]);
    forall x | x in Elements(a) - {a[0]} ensures x in Elements(a[1..]) {
      var i :| 0 <= i < |a| && a[i] == x;
      assert a[1..][i - 1] == x;
    }
  }

  /** `strings.Split` with a one-character separator. */
  function Split(s: string, sep: char): (parts: seq<string>)
    ensures |parts| >= 1
  {
    if s == "" then [""]
    else
      var rest := Split(s[1..], sep);
      if s[0] == sep then [""] + rest else [[s[0]] + rest[0]] + rest[1..]
  }

  /** A separator-free head followed by the separator is exactly the first part. */
  lemma {:induction false} SplitHead(a: string, b: string, sep: char)
    requires sep !in a
    ensures Split(a + [sep] + b, sep) == [a] + Split(b, sep)
  {
    if a == "" {
      assert (a + [sep] + b)[1..] == b;
    } else {
      assert (a + [sep] + b)[1..] == a[1..] + [sep] + b;
      SplitHead(a[1..], b, sep);
      assert a == [a[0]] + a[1..];
    }
  }

  lemma {:induction false} PartsAreSepFree(s: string, sep: char)
    ensures forall p :: p in Split(s, sep) ==> sep !in p
  {
    if s != "" { PartsAreSepFree(s[1..], sep); }
  }

  function NonEmpty(parts: seq<string>): seq<string> {
    if parts == [] then []
    else if parts[0] == "" then NonEmpty(parts[1..])
    else [parts[0]] + NonEmpty(parts[1..])
  }

  /** `s` is these names, none of them empty or with a separator in it, one or more separators apart, with any
      number of separators before and after them. */
  predicate Spells(s: string, sep: char, names: seq<string>)
    decreases |s|
  {
    if s == "" then names == []
    else if s[0] == sep then Spells(s[1..], sep, names)
    else
      && names != [] && names[0] != "" && sep !in names[0] && names[0] <= s
      && (|s| == |names[0]| || s[|names[0]|] == sep)
      && Spells(s[|names[0]|..], sep, names[1..])
  }

  /** Splitting and passing over the empty parts gives exactly the names. */
  lemma {:induction false} SpelledParts(s: string, sep: char, names: seq<string>)
    ensures NonEmpty(Split(s, sep)) == names <==> Spells(s, sep, names)
    decreases |s|
  {
    if s == "" {
      assert NonEmpty([""]) == NonEmpty([""][1..]) == [];
    } else if s[0] == sep {
      SpelledParts(s[1..], sep, names);
      assert ([""] + Split(s[1..], sep))[1..] == Split(s[1..], sep);
    } else {
      var (head, tail) := match Cut(s, sep) case None => (s, "") case Some((k, v)) => (k, [sep] + v);
      HeadOfParts(s, sep, head, tail);
      SpelledHead(s, sep, head, tail, names);
      if names != [] {
        SpelledParts(tail, sep, names[1..]);
        assert names == [names[0]] + names[1..];
      }
    }
  }

  lemma SpelledHead(s: string, sep: char, head: string, tail: string, names: seq<string>)
    requires s == head + tail && head != "" && sep !in head && (tail == "" || tail[0] == sep)
    ensures Spells(s, sep, names) <==> names != [] && names[0] == head && Spells(tail, sep, names[1..])
  {
    assert s[0] == head[0] && head[0] in head && s[|head|..] == tail;
    if names != [] && names[0] <= s && sep !in names[0] && (|s| == |names[0]| || s[|names[0]|] == sep) {
      SameHead(s, sep, head, tail, names[0]);
    }
  }

  /** The first name, and what is left for the others. */
  lemma HeadOfParts(s: string, sep: char, head: string, tail: string)
    requires s == head + tail && head != "" && sep !in head && (tail == "" || tail[0] == sep)
    ensures NonEmpty(Split(s, sep)) == [head] + NonEmpty(Split(tail, sep))
  {
    if tail == "" {
      SplitNone(head, sep);
      assert s == head && Split(tail, sep) == [""];
      assert [""][1..] == [] && [head][1..] == [];
      assert NonEmpty([""]) == [] && NonEmpty([head]) == [head] + NonEmpty([]);
    } else {
      assert s == head + [sep] + tail[1..];
      SplitHead(head, tail[1..], sep);
      assert ([head] + Split(tail[1..], sep))[1..] == Split(tail[1..], sep);
      assert ([""] + Split(tail[1..], sep))[1..] == Split(tail[1..], sep);
    }
  }

  lemma {:induction false} SplitNone(s: string, sep: char)
    requires sep !in s
    ensures Split(s, sep) == [s]
  {
    if s != "" {
      SplitNone(s[1..], sep);
      assert s == [s[0]] + s[1..];
    }
  }

  lemma SameHead(s: string, sep: char, head: string, tail: string, name: string)
    requires s == head + tail && sep !in head && (tail == "" || tail[0] == sep)
    requires name <= s && sep !in name && (|s| == |name| || s[|name|] == sep)
    ensures name == head && s[|name|..] == tail
  {
    assert forall i :: 0 <= i < |head| ==> s[i] == head[i] && head[i] in head;
    assert forall i :: 0 <= i < |name| ==> s[i] == name[i] && name[i] in name;
    assert tail != "" ==> s[|head|] == tail[0];
    assert |name| == |head|;
    assert s[..|head|] == head && s[..|name|] == name && s[|head|..] == tail;
  }

  lemma {:induction false} SplitSnoc(s: string, sep: char)
    ensures Split(s + [sep], sep) == Split(s, sep) + [""]
  {
    if s == "" {
      assert ("" + [sep])[1..] == "";
    } else {
      assert (s + [sep])[1..] == s[1..] + [sep];
      SplitSnoc(s[1..], sep);
    }
  }

  lemma {:induction false} NonEmptySnoc(parts: seq<string>)
    ensures NonEmpty(parts + [""]) == NonEmpty(parts)
  {
    if parts == [] {
      assert [""][1..] == [];
    } else {
      assert (parts + [""])[1..] == parts[1..] + [""];
      NonEmptySnoc(parts[1..]);
    }
  }

  /** Separators at the ends make no difference. */
  lemma TrimmedParts(s: string, sep: char, drop: char -> bool)
    requires forall c :: drop(c) <==> c == sep
    ensures NonEmpty(Split(Trim(s, drop), sep)) == NonEmpty(Split(s, sep))
  {
    TrimLeftParts(s, sep, drop);
    TrimRightParts(TrimLeft(s, drop), sep, drop);
  }

  lemma {:induction false} TrimLeftParts(s: string, sep: char, drop: char -> bool)
    requires forall c :: drop(c) <==> c == sep
    ensures NonEmpty(Split(TrimLeft(s, drop), sep)) == NonEmpty(Split(s, sep))
  {
    if s != "" && drop(s[0]) {
      TrimLeftParts(s[1..], sep, drop);
      assert ([""] + Split(s[1..], sep))[1..] == Split(s[1..], sep);
    }
  }

  lemma {:induction false} TrimRightParts(s: string, sep: char, drop: char -> bool)
    requires forall c :: drop(c) <==> c == sep
    ensures NonEmpty(Split(TrimRight(s, drop), sep)) == NonEmpty(Split(s, sep))
    decreases |s|
  {
    if s != "" && drop(s[|s| - 1]) {
      var init := s[..|s| - 1];
      TrimRightParts(init, sep, drop);
      assert s == init + [sep];
      SplitSnoc(init, sep);
      NonEmptySnoc(Split(init, sep));
    }
  }

  /** The names with one separator between them. */
  function Joined(names: seq<string>, sep: char): string {
    if names == [] then "" else if |names| == 1 then names[0] else names[0] + [sep] + Joined(names[1..], sep)
  }

  lemma {:induction false} JoinedSpells(names: seq<string>, sep: char)
    requires forall n :: n in names ==> n != "" && sep !in n
    ensures Spells(Joined(names, sep), sep, names)
    decreases |names|
  {
    if names != [] {
      assert forall n :: n in names[1..] ==> n in names;
      JoinedSpells(names[1..], sep);
      var s, n := Joined(names, sep), names[0];
      assert n in names && s[0] == n[0] && n[0] in n;
      if |names| > 1 { assert s[|n|..][1..] == Joined(names[1..], sep); }
    }
  }

  /** `strings.Cut` at the first separator. */
  function Cut(s: string, sep: char): (r: Option<(string, string)>)
    ensures r.Some? ==> sep !in r.value.0 && s == r.value.0 + [sep] + r.value.1
    ensures r.None? <==> sep !in s
  {
    if s == "" then None
    else if s[0] == sep then Some(("", s[1..]))
    else
      match Cut(s[1..], sep)
      case None => None
      case Some((k, v)) => Some(([s[0]] + k, v))
  }

  lemma {:induction false} CutAt(k: string, v: string, sep: char)
    requires sep !in k
    ensures Cut(k + [sep] + v, sep) == Some((k, v))
  {
    if k == "" {
      assert (k + [sep] + v)[1..] == v;
    } else {
      assert (k + [sep] + v)[1..] == k[1..] + [sep] + v;
      CutAt(k[1..], v, sep);
      assert k == [k[0]] + k[1..];
    }
  }

  function TrimLeft(s: string, drop: char -> bool): (r: string)
    ensures r == "" || !drop(r[0])
    ensures |r| <= |s| && r == s[|s| - |r|..]
    ensures forall c :: c in r ==> c in s
  {
    if s != "" && drop(s[0]) then TrimLeft(s[1..], drop) else s
  }

  function TrimRight(s: string, drop: char -> bool): (r: string)
    ensures r == "" || !drop(r[|r| - 1])
    ensures r <= s
    ensures forall c :: c in r ==> c in s
  {
    if s != "" && drop(s[|s| - 1]) then TrimRight(s[..|s| - 1], drop) else s
  }

  /** `strings.Trim` and `strings.TrimSpace`. */
  function Trim(s: string, drop: char -> bool): (r: string)
    ensures r != "" ==> !drop(r[0]) && !drop(r[|r| - 1])
    ensures forall c :: c in r ==> c in s
  {
    var left := TrimLeft(s, drop);
    var r := TrimRight(left, drop);
    assert r != "" ==> r[0] == left[0];
    r
  }

  /** Trimming takes away what is to be dropped at the edges, all of it and nothing else. */
  lemma TrimPadded(a: string, s: string, b: string, drop: char -> bool)
    requires (forall c :: c in a ==> drop(c)) && forall c :: c in b ==> drop(c)
    requires s != "" ==> !drop(s[0]) && !drop(s[|s| - 1])
    ensures Trim(a + s + b, drop) == s
  {
    if s == "" {
      assert a + s + b == a + b;
      assert forall c :: c in a + b ==> c in a || c in b;
      TrimLeftAll(a + b, drop);
    } else {
      assert a + s + b == a + (s + b) && (s + b)[0] == s[0];
      TrimLeftPad(a, s + b, drop);
      TrimRightPad(s, b, drop);
    }
  }

  lemma {:induction false} TrimLeftAll(a: string, drop: char -> bool)
    requires forall c :: c in a ==> drop(c)
    ensures TrimLeft(a, drop) == ""
  {
    if a != "" { TrimLeftAll(a[1..], drop); }
  }

  lemma {:induction false} TrimLeftPad(a: string, s: string, drop: char -> bool)
    requires (forall c :: c in a ==> drop(c)) && s != "" && !drop(s[0])
    ensures TrimLeft(a + s, drop) == s
  {
    if a == "" {
      assert a + s == s;
    } else {
      assert (a + s)[1..] == a[1..] + s;
      TrimLeftPad(a[1..], s, drop);
    }
  }

  lemma {:induction false} TrimRightPad(s: string, b: string, drop: char -> bool)
    requires (forall c :: c in b ==> drop(c)) && s != "" && !drop(s[|s| - 1])
    ensures TrimRight(s + b, drop) == s
    decreases |b|
  {
    if b == "" {
      assert s + b == s;
    } else {
      assert (s + b)[..|s + b| - 1] == s + b[..|b| - 1];
      TrimRightPad(s, b[..|b| - 1], drop);
    }
  }

  /** The white space of Unicode. */
  lemma SpaceExactly(c: char)
    ensures IsSpace(c) <==>
            || c in "\t\n\U{000B}\U{000C}\r \U{0085}\U{00A0}\U{1680}"
            || c in "\U{2000}\U{2001}\U{2002}\U{2003}\U{2004}\U{2005}\U{2006}\U{2007}\U{2008}\U{2009}\U{200A}"
            || c in "\U{2028}\U{2029}\U{202F}\U{205F}\U{3000}"
  {
  }

  lemma TrimNothing(s: string, drop: char -> bool)
    requires s != "" ==> !drop(s[0]) && !drop(s[|s| - 1])
    ensures Trim(s, drop) == s
  {
  }

  /** `unicode.IsSpace`. */
  predicate IsSpace(c: char) {
    || ('\t' <= c <= '\r') || c == ' ' || c == '\U{0085}' || c == '\U{00A0}' || c == '\U{1680}'
    || ('\U{2000}' <= c <= '\U{200a}') || c == '\U{2028}' || c == '\U{2029}' || c == '\U{202f}'
    || c == '\U{205f}' || c == '\U{3000}'
  }

  function TrimSpace(s: string): string {
    Trim(s, IsSpace)
  }

  predicate HasSuffix(s: string, suffix: string) {
    |suffix| <= |s| && s[|s| - |suffix|..] == suffix
  }
}
