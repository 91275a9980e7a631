/** `printTree`: one line per node, and how to read the drawing back (cli/tree.go). */
module TreeDrawing {
  import opened Text
  import opened RemoteTree

  const TEE := "\U{251C}\U{2500}\U{2500} "
  const ELBOW := "\U{2514}\U{2500}\U{2500} "
  const BAR := "\U{2502}   "
  const BLANK := "    "

  type Keys = set<Path>

  function Kids(keys: Keys, p: Path): set<string> {
    set q | q in keys && q.Sub? && q.parent == p :: q.name
  }

  function Below(keys: Keys, p: Path): Keys {
    set q | q in keys && q != p && Under(p, q)
  }

  // ----- sorted names

  lemma {:induction false} Least(keys: set<string>) returns (m: string)
    requires keys != {}
    ensures m in keys && forall k :: k in keys ==> k == m || LexLess(m, k)
    decreases |keys|
  {
    var x :| x in keys;
    m := x;
    if keys != {x} {
      var rest := keys - {x};
      var least := Least(rest);
      LexTotal(x, least);
      if LexLess(x, least) {
        forall k | k in rest && k != least ensures LexLess(x, k) { LexTransitive(x, least, k); }
      } else {
        m := least;
      }
    }
  }

  lemma {:induction false} SortedExists(keys: set<string>)
    ensures exists s :: StrictlySorted(s) && Elements(s) == keys
    decreases |keys|
  {
    if keys == {} {
      assert StrictlySorted([]) && Elements<string>([]) == keys;
    } else {
      var m := Least(keys);
      SortedExists(keys - {m});
      var s :| StrictlySorted(s) && Elements(s) == keys - {m};
      LeastFirst(m, s);
      assert Elements([m] + s) == keys;
    }
  }

  lemma LeastFirst(m: string, s: seq<string>)
    requires StrictlySorted(s) && forall x :: x in Elements(s) ==> LexLess(m, x)
    ensures StrictlySorted([m] + s) && Elements([m] + s) == Elements(s) + {m}
  {
    forall i, j | 0 <= i < j < |[m] + s| ensures LexLess(([m] + s)[i], ([m] + s)[j]) {
      assert ([m] + s)[j] == s[j - 1] && s[j - 1] in Elements(s);
    }
  }

  ghost function Sorted(keys: set<string>): (s: seq<string>)
    ensures StrictlySorted(s) && Elements(s) == keys
  {
    SortedExists(keys);
    var s :| StrictlySorted(s) && Elements(s) == keys;
    s
  }

  // ----- the drawing

  lemma SmallerBelow(keys: Keys, p: Path, n: string)
    requires Sub(p, n) in keys
    ensures Below(keys, Sub(p, n)) < Below(keys, p)
  {
    var c := Sub(p, n);
    NotUnderParent(c);
    assert Under(p, c) by { assert Under(p, p); }
    forall q | q in Below(keys, c) ensures q in Below(keys, p) {
      UnderTransitive(p, c, q);
      UnderIsShorter(c, q);
    }
    assert c in Below(keys, p) && c !in Below(keys, c);
  }

  lemma {:induction false} UnderTransitive(a: Path, b: Path, c: Path)
    requires Under(a, b) && Under(b, c)
    ensures Under(a, c)
  {
    if b != c { UnderTransitive(a, b, c.parent); }
  }

  lemma KidPath(keys: Keys, p: Path, n: string)
    ensures n in Kids(keys, p) <==> Sub(p, n) in keys
  {
    if n in Kids(keys, p) {
      var q :| q in keys && q.Sub? && q.parent == p && q.name == n;
      assert q == Sub(p, n);
    }
  }

  lemma HeadKid(keys: Keys, p: Path, names: seq<string>)
    requires names != [] && Elements(names) <= Kids(keys, p)
    ensures Sub(p, names[0]) in keys && Below(keys, Sub(p, names[0])) < Below(keys, p)
    ensures Elements(names[1..]) <= Kids(keys, p)
  {
    assert names[0] in Elements(names) && Elements(names[1..]) <= Elements(names);
    KidPath(keys, p, names[0]);
    SmallerBelow(keys, p, names[0]);
  }

  /** The lines below node `p`. */
  ghost function Lines(keys: Keys, p: Path, prefix: string): seq<string>
    decreases Below(keys, p), 1, 0
  {
    KidLines(keys, p, prefix, Sorted(Kids(keys, p)))
  }

  ghost function KidLines(keys: Keys, p: Path, prefix: string, names: seq<string>): seq<string>
    requires Elements(names) <= Kids(keys, p)
    decreases Below(keys, p), 0, |names|
  {
    if names == [] then []
    else
      var last := |names| == 1;
      assert names[0] in Elements(names) && Elements(names[1..]) <= Elements(names);
      KidPath(keys, p, names[0]);
      SmallerBelow(keys, p, names[0]);
      [prefix + (if last then ELBOW else TEE) + names[0]]
      + Lines(keys, Sub(p, names[0]), prefix + if last then BLANK else BAR)
      + KidLines(keys, p, prefix, names[1..])
  }

  /** In plain text: the names below a node in sorted order, each with its branch piece, what is below it further in. */
  lemma DrawnInText(keys: Keys, p: Path, prefix: string, names: seq<string>)
    requires Elements(names) <= Kids(keys, p)
    ensures exists all :: StrictlySorted(all) && Elements(all) == Kids(keys, p) &&
                          Lines(keys, p, prefix) == KidLines(keys, p, prefix, all)
    ensures |names| > 1 ==>
              && Elements(names[1..]) <= Kids(keys, p)
              && KidLines(keys, p, prefix, names) ==
                 [prefix + "\U{251C}\U{2500}\U{2500} " + names[0]]
                 + Lines(keys, Sub(p, names[0]), prefix + "\U{2502}   ") + KidLines(keys, p, prefix, names[1..])
    ensures |names| == 1 ==>
              KidLines(keys, p, prefix, names) ==
              [prefix + "\U{2514}\U{2500}\U{2500} " + names[0]] + Lines(keys, Sub(p, names[0]), prefix + "    ")
    ensures names == [] ==> KidLines(keys, p, prefix, names) == []
  {
    assert Lines(keys, p, prefix) == KidLines(keys, p, prefix, Sorted(Kids(keys, p)));
    if names != [] { HeadKid(keys, p, names); }
    if |names| == 1 { assert KidLines(keys, p, prefix, names[1..]) == []; }
  }

  lemma NoKidsNoLines(keys: Keys, p: Path, prefix: string)
    requires Kids(keys, p) == {}
    ensures Lines(keys, p, prefix) == []
  {
    NoElements(Sorted(Kids(keys, p)));
  }

  lemma KidsAreChildren(nodes: Nodes, repr: set<TreeNode>, p: Path)
    requires Linked(nodes, repr) && p in nodes
    ensures nodes[p].children.Keys == Kids(nodes.Keys, p)
    ensures forall n :: n in nodes[p].children ==> Sub(p, n) in nodes && nodes[Sub(p, n)] == nodes[p].children[n]
  {
    forall n ensures n in nodes[p].children <==> n in Kids(nodes.Keys, p) { KidPath(nodes.Keys, p, n); }
  }

  lemma SuffixElements(names: seq<string>, i: nat)
    requires i < |names|
    ensures names[i..][0] == names[i] && names[i..][1..] == names[i + 1..]
    ensures names[i] in Elements(names) && Elements(names[i..]) <= Elements(names) &&
            Elements(names[i + 1..]) <= Elements(names)
  {
  }

  lemma NextKid(keys: Keys, p: Path, prefix: string, names: seq<string>, i: nat, before: seq<string>)
    requires i < |names| && Elements(names) <= Kids(keys, p)
    ensures Elements(names[i..]) <= Kids(keys, p) && Elements(names[i + 1..]) <= Kids(keys, p) &&
            names[i] in Kids(keys, p)
    ensures var last := i == |names| - 1;
            before + KidLines(keys, p, prefix, names[i..]) ==
            before + [prefix + (if last then ELBOW else TEE) + names[i]]
            + Lines(keys, Sub(p, names[i]), prefix + if last then BLANK else BAR)
            + KidLines(keys, p, prefix, names[i + 1..])
  {
    SuffixElements(names, i);
    var last := i == |names| - 1;
    Regroup(before, [prefix + (if last then ELBOW else TEE) + names[i]],
            Lines(keys, Sub(p, names[i]), prefix + if last then BLANK else BAR),
            KidLines(keys, p, prefix, names[i + 1..]));
  }

  lemma Regroup<T>(a: seq<T>, b: seq<T>, c: seq<T>, d: seq<T>)
    ensures a + (b + c + d) == a + b + c + d
  {
  }

  method PrintTree(node: TreeNode, prefix: string, ghost nodes: Nodes,
                   ghost repr: set<TreeNode>) returns (lines: seq<string>)
    requires Linked(nodes, repr) && node.path in nodes && nodes[node.path] == node
    ensures lines == Lines(nodes.Keys, node.path, prefix)
    decreases Below(nodes.Keys, node.path), 0
  {
    ghost var keys, p := nodes.Keys, node.path;
    KidsAreChildren(nodes, repr, p);
    var names := SortedKeys(node.children.Keys);
    SortedKeysUnique(names, Sorted(Kids(keys, p)));
    lines := [];
    assert names[0..] == names;
    for i := 0 to |names|
      invariant Elements(names[i..]) <= Kids(keys, p)
      invariant lines + KidLines(keys, p, prefix, names[i..]) == Lines(keys, p, prefix)
    {
      NextKid(keys, p, prefix, names, i, lines);
      var last := i == |names| - 1;
      var branch, next := TEE, prefix + BAR;
      if last { branch, next := ELBOW, prefix + BLANK; }
      KidPath(keys, p, names[i]);
      SmallerBelow(keys, p, names[i]);
      var below := PrintChild(node.children[names[i]], next, nodes, repr);
      lines := lines + [prefix + branch + names[i]] + below;
    }
    assert names[|names|..] == [];
  }

  /** The recursion stops at nodes without children. */
  method PrintChild(child: TreeNode, prefix: string, ghost nodes: Nodes,
                    ghost repr: set<TreeNode>) returns (lines: seq<string>)
    requires Linked(nodes, repr) && child.path in nodes && nodes[child.path] == child
    ensures lines == Lines(nodes.Keys, child.path, prefix)
    decreases Below(nodes.Keys, child.path), 1
  {
    if child.children != map[] {
      lines := PrintTree(child, prefix, nodes, repr);
    } else {
      KidsAreChildren(nodes, repr, child.path);
      NoKidsNoLines(nodes.Keys, child.path, prefix);
      lines := [];
    }
  }

  // ----- reading the drawing back

  /** Cut four characters at a time up to the first branch piece; what follows it is the name. */
  function ReadLine(line: string): Option<(nat, string)> {
    if |line| < 4 then None
    else if line[..4] == TEE || line[..4] == ELBOW then Some((0, line[4..]))
    else match ReadLine(line[4..]) case None => None case Some((depth, name)) => Some((depth + 1, name))
  }

  function Ancestor(p: Path, depth: nat): Path
    requires depth <= Depth(p)
  {
    if Depth(p) == depth then p else Ancestor(p.parent, depth)
  }

  /** The paths of the lines, given the path `cur` of the line before them. */
  function Paths(lines: seq<string>, cur: Path): seq<Path>
    decreases |lines|
  {
    if lines == [] then []
    else match ReadLine(lines[0])
      case None => []
      case Some((depth, name)) =>
        if depth > Depth(cur) then [] else
          var p := Sub(Ancestor(cur, depth), name);
          [p] + Paths(lines[1..], p)
  }

  /** A prefix of `depth` bars and blanks. */
  predicate IsPrefix(prefix: string, depth: nat) {
    if depth == 0 then prefix == ""
    else |prefix| >= 4 && (prefix[..4] == BAR || prefix[..4] == BLANK) && IsPrefix(prefix[4..], depth - 1)
  }

  lemma {:induction false} PrefixGrows(prefix: string, depth: nat, piece: string)
    requires IsPrefix(prefix, depth) && (piece == BAR || piece == BLANK)
    ensures IsPrefix(prefix + piece, depth + 1)
  {
    if depth == 0 {
      assert piece[4..] == "" && prefix + piece == piece;
    } else {
      assert (prefix + piece)[..4] == prefix[..4] && (prefix + piece)[4..] == prefix[4..] + piece;
      PrefixGrows(prefix[4..], depth - 1, piece);
    }
  }

  lemma {:induction false} LineReads(prefix: string, depth: nat, branch: string, name: string)
    requires IsPrefix(prefix, depth) && (branch == TEE || branch == ELBOW)
    ensures ReadLine(prefix + branch + name) == Some((depth, name))
  {
    var line := prefix + branch + name;
    if depth == 0 {
      assert line == branch + name && line[..4] == branch && line[4..] == name;
    } else {
      assert line[..4] == prefix[..4] && line[4..] == prefix[4..] + branch + name;
      PiecesDiffer(prefix[..4]);
      LineReads(prefix[4..], depth - 1, branch, name);
    }
  }

  lemma PiecesDiffer(piece: string)
    ensures piece == BAR || piece == BLANK ==> piece != TEE && piece != ELBOW
  {
    assert BAR[0] != TEE[0] && BAR[0] != ELBOW[0] && BLANK[0] != TEE[0] && BLANK[0] != ELBOW[0];
  }

  lemma {:induction false} AncestorIs(p: Path, q: Path)
    requires Under(p, q)
    ensures Depth(p) <= Depth(q) && Ancestor(q, Depth(p)) == p
  {
    UnderIsShorter(p, q);
    if p != q { AncestorIs(p, q.parent); }
  }

  /** The nodes below `p` in the order in which they are drawn. */
  ghost function Preorder(keys: Keys, p: Path): seq<Path>
    decreases Below(keys, p), 1, 0
  {
    KidOrder(keys, p, Sorted(Kids(keys, p)))
  }

  ghost function KidOrder(keys: Keys, p: Path, names: seq<string>): seq<Path>
    requires Elements(names) <= Kids(keys, p)
    decreases Below(keys, p), 0, |names|
  {
    if names == [] then []
    else
      var c := Sub(p, names[0]);
      HeadKid(keys, p, names);
      [c] + Preorder(keys, c) + KidOrder(keys, p, names[1..])
  }

  function Last(s: seq<Path>, otherwise: Path): Path {
    if s == [] then otherwise else s[|s| - 1]
  }

  /** Reading the lines below `p` gives the nodes below `p`, and leaves the reader somewhere below `p`. */
  lemma {:induction false} LinesRead(keys: Keys, p: Path, prefix: string, cur: Path, rest: seq<string>)
    requires IsPrefix(prefix, Depth(p)) && Under(p, cur)
    ensures Paths(Lines(keys, p, prefix) + rest, cur) == Preorder(keys, p) + Paths(rest, Last(Preorder(keys, p), cur))
    ensures Under(p, Last(Preorder(keys, p), cur))
    decreases Below(keys, p), 1, 0
  {
    KidLinesRead(keys, p, prefix, Sorted(Kids(keys, p)), cur, rest);
  }

  lemma {:induction false} KidLinesRead(keys: Keys, p: Path, prefix: string, names: seq<string>, cur: Path,
                                        rest: seq<string>)
    requires Elements(names) <= Kids(keys, p) && IsPrefix(prefix, Depth(p)) && Under(p, cur)
    ensures Paths(KidLines(keys, p, prefix, names) + rest, cur) ==
            KidOrder(keys, p, names) + Paths(rest, Last(KidOrder(keys, p, names), cur))
    ensures Under(p, Last(KidOrder(keys, p, names), cur))
    decreases Below(keys, p), 0, |names|
  {
    if names == [] {
      assert KidLines(keys, p, prefix, names) + rest == rest;
    } else {
      var c, piece := Sub(p, names[0]), if |names| == 1 then BLANK else BAR;
      HeadKid(keys, p, names);
      var others := KidLines(keys, p, prefix, names[1..]);
      var next := Last(Preorder(keys, c), c);
      HeadRead(p, prefix, if |names| == 1 then ELBOW else TEE, piece, names[0], cur,
               Lines(keys, c, prefix + piece) + (others + rest));
      LinesRead(keys, c, prefix + piece, c, others + rest);
      UnderTransitive(p, c, next);
      KidLinesRead(keys, p, prefix, names[1..], next, rest);
      KidsInTurn(keys, p, prefix, names, cur, rest);
    }
  }

  /** A line is read, and the lines below it will be. */
  lemma HeadRead(p: Path, prefix: string, branch: string, piece: string, name: string, cur: Path, rest: seq<string>)
    requires IsPrefix(prefix, Depth(p)) && Under(p, cur)
    requires (branch == TEE || branch == ELBOW) && (piece == BAR || piece == BLANK)
    ensures var c := Sub(p, name);
            && Paths([prefix + branch + name] + rest, cur) == [c] + Paths(rest, c)
            && IsPrefix(prefix + piece, Depth(c)) && Under(p, c) && Under(c, c)
  {
    assert Under(p, p);
    PrefixGrows(prefix, Depth(p), piece);
    LineReads(prefix, Depth(p), branch, name);
    AncestorIs(p, cur);
    OneLine(prefix + branch + name, rest, cur, p, name);
  }

  /** Reading the first line, the lines below it and the other lines one after the other. */
  lemma KidsInTurn(keys: Keys, p: Path, prefix: string, names: seq<string>, cur: Path, rest: seq<string>)
    requires names != [] && Elements(names) <= Kids(keys, p) && Elements(names[1..]) <= Kids(keys, p)
    requires var c, last, others := Sub(p, names[0]), |names| == 1, KidLines(keys, p, prefix, names[1..]);
             var sub, order := Lines(keys, c, prefix + if last then BLANK else BAR), Preorder(keys, c);
             var next, otherOrder := Last(order, c), KidOrder(keys, p, names[1..]);
             && Paths([prefix + (if last then ELBOW else TEE) + names[0]] + (sub + (others + rest)), cur) ==
                [c] + Paths(sub + (others + rest), c)
             && Paths(sub + (others + rest), c) == order + Paths(others + rest, next)
             && Paths(others + rest, next) == otherOrder + Paths(rest, Last(otherOrder, next))
             && Under(p, Last(otherOrder, next))
    ensures Paths(KidLines(keys, p, prefix, names) + rest, cur) ==
            KidOrder(keys, p, names) + Paths(rest, Last(KidOrder(keys, p, names), cur))
    ensures Under(p, Last(KidOrder(keys, p, names), cur))
  {
    var c, last := Sub(p, names[0]), |names| == 1;
    var line, others := prefix + (if last then ELBOW else TEE) + names[0], KidLines(keys, p, prefix, names[1..]);
    var sub, order := Lines(keys, c, prefix + if last then BLANK else BAR), Preorder(keys, c);
    var next, otherOrder := Last(order, c), KidOrder(keys, p, names[1..]);
    ReadInTurn(Paths, line, sub, others, rest, cur, c, order, next, otherOrder, Last(otherOrder, next));
    LastOfParts(c, order, otherOrder, cur);
  }

  lemma ReadInTurn(read: (seq<string>, Path) -> seq<Path>, line: string, sub: seq<string>, others: seq<string>,
                   rest: seq<string>,
                   cur: Path, c: Path, order: seq<Path>, next: Path, otherOrder: seq<Path>, end: Path)
    requires read([line] + (sub + (others + rest)), cur) == [c] + read(sub + (others + rest), c)
    requires read(sub + (others + rest), c) == order + read(others + rest, next)
    requires read(others + rest, next) == otherOrder + read(rest, end)
    ensures read([line] + sub + others + rest, cur) == [c] + order + otherOrder + read(rest, end)
  {
    assert [line] + sub + others + rest == [line] + (sub + (others + rest));
    assert [c] + (order + (otherOrder + read(rest, end))) == [c] + order + otherOrder + read(rest, end);
  }

  lemma OneLine(line: string, rest: seq<string>, cur: Path, p: Path, name: string)
    requires ReadLine(line) == Some((Depth(p), name)) && Depth(p) <= Depth(cur) && Ancestor(cur, Depth(p)) == p
    ensures Paths([line] + rest, cur) == [Sub(p, name)] + Paths(rest, Sub(p, name))
  {
    assert ([line] + rest)[1..] == rest;
  }

  lemma LastOfParts(c: Path, order: seq<Path>, others: seq<Path>, cur: Path)
    ensures Last([c] + order + others, cur) == Last(others, Last(order, c))
  {
  }

  // ----- the drawing holds every node once

  ghost predicate ClosedUp(keys: Keys) {
    Top in keys && forall p, n :: Sub(p, n) in keys ==> p in keys
  }

  lemma {:induction false} ChildToward(keys: Keys, p: Path, q: Path) returns (n: string)
    requires ClosedUp(keys) && q in keys && Under(p, q) && p != q
    ensures n in Kids(keys, p) && Under(Sub(p, n), q)
  {
    if q.parent == p {
      n := q.name;
      assert q == Sub(p, n);
      KidPath(keys, p, n);
    } else {
      assert q == Sub(q.parent, q.name);
      n := ChildToward(keys, p, q.parent);
    }
  }

  lemma {:induction false} PreorderNodes(keys: Keys, p: Path)
    requires ClosedUp(keys)
    ensures forall q :: q in Preorder(keys, p) <==> q in Below(keys, p)
    decreases Below(keys, p), 1, 0
  {
    var names := Sorted(Kids(keys, p));
    KidOrderNodes(keys, p, names);
    forall q | q in Below(keys, p) ensures exists n :: n in names && Under(Sub(p, n), q) {
      var n := ChildToward(keys, p, q);
      assert n in Elements(names);
    }
    forall q, n | q in keys && n in names && Under(Sub(p, n), q) ensures q in Below(keys, p) { BelowChild(p, n, q); }
  }

  lemma BelowChild(p: Path, n: string, q: Path)
    requires Under(Sub(p, n), q)
    ensures Under(p, q) && q != p
  {
    assert Under(p, Sub(p, n)) by { assert Under(p, p); }
    UnderTransitive(p, Sub(p, n), q);
    NotUnderParent(Sub(p, n));
  }

  lemma {:induction false} KidOrderNodes(keys: Keys, p: Path, names: seq<string>)
    requires ClosedUp(keys) && Elements(names) <= Kids(keys, p)
    ensures forall q :: q in KidOrder(keys, p, names) <==> q in keys && exists n :: n in names && Under(Sub(p, n), q)
    decreases Below(keys, p), 0, |names|
  {
    if names != [] {
      var c := Sub(p, names[0]);
      HeadKid(keys, p, names);
      PreorderNodes(keys, c);
      KidOrderNodes(keys, p, names[1..]);
      assert Under(c, c);
      forall q { FirstOrOther(p, names, q); }
    }
  }

  lemma FirstOrOther(p: Path, names: seq<string>, q: Path)
    requires names != []
    ensures (exists n :: n in names && Under(Sub(p, n), q)) <==>
            Under(Sub(p, names[0]), q) || exists n :: n in names[1..] && Under(Sub(p, n), q)
  {
    assert names == [names[0]] + names[1..];
  }

  ghost predicate Distinct<T>(s: seq<T>) {
    forall i, j :: 0 <= i < j < |s| ==> s[i] != s[j]
  }

  lemma DistinctConcat<T>(a: seq<T>, b: seq<T>)
    requires Distinct(a) && Distinct(b) && forall x :: x in a ==> x !in b
    ensures Distinct(a + b)
  {
    forall i, j | 0 <= i < j < |a + b| ensures (a + b)[i] != (a + b)[j] {
      assert i < |a| ==> a[i] in a;
      assert j >= |a| ==> b[j - |a|] in b;
    }
  }

  lemma {:induction false} PreorderDistinct(keys: Keys, p: Path)
    requires ClosedUp(keys)
    ensures Distinct(Preorder(keys, p))
    decreases Below(keys, p), 1, 0
  {
    KidOrderDistinct(keys, p, Sorted(Kids(keys, p)));
  }

  lemma {:induction false} KidOrderDistinct(keys: Keys, p: Path, names: seq<string>)
    requires ClosedUp(keys) && Elements(names) <= Kids(keys, p) && StrictlySorted(names)
    ensures Distinct(KidOrder(keys, p, names))
    decreases Below(keys, p), 0, |names|
  {
    if names != [] {
      var c := Sub(p, names[0]);
      HeadKid(keys, p, names);
      PreorderNodes(keys, c);
      PreorderDistinct(keys, c);
      KidOrderNodes(keys, p, names[1..]);
      KidOrderDistinct(keys, p, names[1..]);
      forall q | Under(c, q) ensures q !in KidOrder(keys, p, names[1..]) {
        forall n | n in names[1..] ensures !Under(Sub(p, n), q) {
          LexIrreflexive(n);
          OneChild(p, names[0], n, q);
        }
      }
      DistinctConcat([c], Preorder(keys, c));
      DistinctConcat([c] + Preorder(keys, c), KidOrder(keys, p, names[1..]));
    }
  }

  lemma OneChild(p: Path, a: string, b: string, q: Path)
    requires Under(Sub(p, a), q)
    ensures Under(Sub(p, b), q) ==> a == b
  {
    AncestorIs(Sub(p, a), q);
    if Under(Sub(p, b), q) { AncestorIs(Sub(p, b), q); }
  }

  lemma {:induction false} CountLines(keys: Keys, p: Path, prefix: string)
    ensures |Lines(keys, p, prefix)| == |Preorder(keys, p)|
    decreases Below(keys, p), 1, 0
  {
    CountKidLines(keys, p, prefix, Sorted(Kids(keys, p)));
  }

  lemma {:induction false} CountKidLines(keys: Keys, p: Path, prefix: string, names: seq<string>)
    requires Elements(names) <= Kids(keys, p)
    ensures |KidLines(keys, p, prefix, names)| == |KidOrder(keys, p, names)|
    decreases Below(keys, p), 0, |names|
  {
    if names != [] {
      HeadKid(keys, p, names);
      CountLines(keys, Sub(p, names[0]), prefix + if |names| == 1 then BLANK else BAR);
      CountKidLines(keys, p, prefix, names[1..]);
    }
  }

  lemma {:induction false} DistinctCount(s: seq<Path>, keys: Keys)
    requires Distinct(s) && forall q :: q in s <==> q in keys
    ensures |s| == |keys|
    decreases |s|
  {
    if s == [] {
      assert keys == {};
    } else {
      assert s == [s[0]] + s[1..];
      DistinctCount(s[1..], keys - {s[0]});
    }
  }

  /** Every node but the root is one line, and reading the lines gives each of them exactly once. */
  lemma EachNodeOnce(keys: Keys)
    requires ClosedUp(keys)
    ensures var lines := Lines(keys, Top, "");
            && |lines| == |keys| - 1
            && Distinct(Paths(lines, Top))
            && forall q :: q in Paths(lines, Top) <==> q in keys && q != Top
  {
    var lines := Lines(keys, Top, "");
    LinesRead(keys, Top, "", Top, []);
    assert lines + [] == lines && Preorder(keys, Top) + [] == Preorder(keys, Top);
    PreorderNodes(keys, Top);
    PreorderDistinct(keys, Top);
    CountLines(keys, Top, "");
    forall q ensures Under(Top, q) { TopIsAbove(q); }
    assert Below(keys, Top) == keys - {Top};
    DistinctCount(Preorder(keys, Top), keys - {Top});
  }

  lemma {:induction false} TopIsAbove(q: Path)
    ensures Under(Top, q)
  {
    if q.Sub? { TopIsAbove(q.parent); }
  }

  // ----- the text

  function Output(lines: seq<string>): string {
    if lines == [] then "" else lines[0] + ['\n'] + Output(lines[1..])
  }

  lemma {:induction false} OutputSplits(lines: seq<string>)
    requires forall l :: l in lines ==> '\n' !in l
    ensures Split(Output(lines), '\n') == lines + [""]
  {
    if lines != [] {
      SplitHead(lines[0], Output(lines[1..]), '\n');
      OutputSplits(lines[1..]);
      assert lines == [lines[0]] + lines[1..];
    }
  }

  ghost predicate NoNewlines(keys: Keys) {
    forall q :: q in keys && q.Sub? ==> '\n' !in q.name
  }

  lemma {:induction false} LinesHaveNoNewline(keys: Keys, p: Path, prefix: string)
    requires NoNewlines(keys) && '\n' !in prefix
    ensures forall l :: l in Lines(keys, p, prefix) ==> '\n' !in l
    decreases Below(keys, p), 1, 0
  {
    KidLinesHaveNoNewline(keys, p, prefix, Sorted(Kids(keys, p)));
  }

  lemma {:induction false} KidLinesHaveNoNewline(keys: Keys, p: Path, prefix: string, names: seq<string>)
    requires NoNewlines(keys) && '\n' !in prefix && Elements(names) <= Kids(keys, p)
    ensures forall l :: l in KidLines(keys, p, prefix, names) ==> '\n' !in l
    decreases Below(keys, p), 0, |names|
  {
    if names != [] {
      HeadKid(keys, p, names);
      assert '\n' !in Sub(p, names[0]).name;
      LinesHaveNoNewline(keys, Sub(p, names[0]), prefix + if |names| == 1 then BLANK else BAR);
      KidLinesHaveNoNewline(keys, p, prefix, names[1..]);
    }
  }

  /** The drawing is unambiguous: two trees without newlines in their names are drawn alike if and only if they
      have the same nodes. */
  lemma DrawingIsUnambiguous(a: Keys, b: Keys)
    requires ClosedUp(a) && ClosedUp(b) && NoNewlines(a) && NoNewlines(b)
    ensures Output(Lines(a, Top, "")) == Output(Lines(b, Top, "")) <==> a == b
  {
    LinesHaveNoNewline(a, Top, "");
    LinesHaveNoNewline(b, Top, "");
    OutputSplits(Lines(a, Top, ""));
    OutputSplits(Lines(b, Top, ""));
    EachNodeOnce(a);
    EachNodeOnce(b);
    if Output(Lines(a, Top, "")) == Output(Lines(b, Top, "")) {
      assert Lines(a, Top, "") == (Lines(a, Top, "") + [""])[..|Lines(a, Top, "")|];
      assert Lines(a, Top, "") == Lines(b, Top, "");
      forall q ensures q in a <==> q in b {
        assert q != Top ==> (q in a <==> q in Paths(Lines(a, Top, ""), Top));
      }
    }
  }

  /** The trees that `buildTree` makes are closed up. */
  lemma BuiltIsClosedUp(items: seq<Item>)
    ensures ClosedUp(Build(items).Keys)
  {
    PrefixClosure(items);
    forall p, n | Sub(p, n) in Build(items) ensures p in Build(items) {
      var e :| e in items && Under(Sub(p, n), e.path);
      BelowChild(p, n, e.path);
    }
  }

  lemma {:induction false} JoinedNames(base: Path, parts: seq<string>, q: Path)
    requires Under(q, Join(base, parts)) && q.Sub?
    ensures Under(q, base) || q.name in parts
    decreases |parts|
  {
    if parts != [] {
      var next := if parts[0] == "" then base else Sub(base, parts[0]);
      JoinedNames(next, parts[1..], q);
    }
  }

  lemma {:induction false} PartsKeepOut(s: string, sep: char, c: char)
    requires c !in s
    ensures forall p :: p in Split(s, sep) ==> c !in p
  {
    if s != "" { PartsKeepOut(s[1..], sep, c); }
  }

  /** Names come from the parts of the listed paths. */
  lemma ListedName(e: Entry, q: Path)
    requires '\n' !in e.path && q.Sub? && Under(q, ItemOf(e).path)
    ensures '\n' !in q.name
  {
    JoinedNames(Top, Parts(e.path), q);
    PartsKeepOut(Trim(e.path, IsSlash), '/', '\n');
  }

  lemma NodesAreNamed(items: seq<Item>)
    requires forall item, q :: item in items && Under(q, item.path) && q.Sub? ==> '\n' !in q.name
    ensures NoNewlines(Build(items).Keys)
  {
    PrefixClosure(items);
  }

  lemma ListedFor(entries: seq<Entry>, item: Item) returns (e: Entry)
    requires item in Items(entries)
    ensures e in entries && item == ItemOf(e)
  {
    var i :| 0 <= i < |entries| && Items(entries)[i] == item;
    e := entries[i];
  }

  lemma ListedNames(entries: seq<Entry>)
    requires forall e :: e in entries ==> '\n' !in e.path
    ensures NoNewlines(Build(Items(entries)).Keys)
  {
    var items := Items(entries);
    forall item, q | item in items && Under(q, item.path) && q.Sub? ensures '\n' !in q.name {
      var e := ListedFor(entries, item);
      ListedName(e, q);
    }
    NodesAreNamed(items);
  }

  /** What the command prints for a listing under `root`. */
  ghost function Shown(root: string, entries: seq<Entry>): string {
    if entries == [] then root + " (empty)\n" else root + "\n" + Drawing(entries)
  }

  ghost function Drawing(entries: seq<Entry>): string {
    Output(Lines(Build(Items(entries)).Keys, Top, ""))
  }

  /** Two listings of one root without newlines in their paths are shown alike if and only if they have the same
      nodes and are both empty or both not. (A listing of `/` alone has the nodes of the empty one.) */
  lemma ShownAlike(root: string, a: seq<Entry>, b: seq<Entry>)
    requires forall e :: e in a || e in b ==> '\n' !in e.path
    ensures Shown(root, a) == Shown(root, b) <==>
            Build(Items(a)).Keys == Build(Items(b)).Keys && (a == [] <==> b == [])
  {
    DrawnAlike(a, b);
    AfterRoot(root, Drawing(a), Drawing(b));
    AfterRoot(root, Drawing(b), Drawing(a));
  }

  lemma AfterRoot(root: string, a: string, b: string)
    ensures root + " (empty)\n" != root + "\n" + a
    ensures root + "\n" + a == root + "\n" + b <==> a == b
  {
    assert (root + " (empty)\n")[|root|] == ' ' && (root + "\n" + a)[|root|] == '\n';
    assert (root + "\n" + a)[|root| + 1..] == a && (root + "\n" + b)[|root| + 1..] == b;
  }

  lemma DrawnAlike(a: seq<Entry>, b: seq<Entry>)
    requires forall e :: e in a || e in b ==> '\n' !in e.path
    ensures Drawing(a) == Drawing(b) <==> Build(Items(a)).Keys == Build(Items(b)).Keys
  {
    ListedNames(a);
    ListedNames(b);
    BuiltIsClosedUp(Items(a));
    BuiltIsClosedUp(Items(b));
    DrawingIsUnambiguous(Build(Items(a)).Keys, Build(Items(b)).Keys);
  }

  /** From the remote listing to the text. */
  method RunTree(root: string, entries: seq<Entry>) returns (text: string)
    ensures text == Shown(root, entries)
    ensures entries == [] ==> text == root + " (empty)\n"
    ensures entries != [] ==> root + "\n" <= text
  {
    if entries == [] { return root + " (empty)\n"; }
    var top, nodes, repr := BuildTree(entries);
    assert nodes.Keys == Build(Items(entries)).Keys;
    var lines := PrintTree(top, "", nodes, repr);
    text := root + "\n" + Output(lines);
  }
}
