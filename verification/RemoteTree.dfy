/** The `tree` command: linked nodes built from flat paths, and their drawing (cli/tree.go). */
module RemoteTree {
  import opened Text

  datatype Entry = Entry(path: string, isDir: bool, size: int, modTime: string)

  datatype Path = Top | Sub(parent: Path, name: string)

  datatype Attr = Attr(isDir: bool, size: int, modTime: string)

  /** A tree by the paths of its nodes. */
  type Flat = map<Path, Attr>

  const IMPLIED := Attr(true, 0, "")

  /** A listed entry, normalised. */
  datatype Item = Item(path: Path, attr: Attr)

  predicate IsSlash(c: char) {
    c == '/'
  }

  function Parts(path: string): seq<string> {
    Split(Trim(path, IsSlash), '/')
  }

  /** Empty parts, from doubled slashes, are passed over. */
  function Join(base: Path, parts: seq<string>): Path
    decreases |parts|
  {
    if parts == [] then base else Join(if parts[0] == "" then base else Sub(base, parts[0]), parts[1..])
  }

  /** The node a listed entry names, and what it says about it. */
  function ItemOf(e: Entry): Item {
    Item(Join(Top, Parts(e.path)), Attr(e.isDir, e.size, e.modTime))
  }

  function Items(entries: seq<Entry>): seq<Item> {
    seq(|entries|, i requires 0 <= i < |entries| => ItemOf(entries[i]))
  }

  // ----- what inserting one path does

  function Touch(flat: Flat, p: Path, leaf: bool, attr: Attr): Flat {
    flat[p := if leaf then attr else if p in flat then flat[p].(isDir := true) else IMPLIED]
  }

  /** Every node on the way to `p`, then `p`. */
  function TouchAll(flat: Flat, p: Path, leaf: bool, attr: Attr): Flat {
    match p
    case Top => flat
    case Sub(q, _) => Touch(TouchAll(flat, q, false, attr), p, leaf, attr)
  }

  function Insert(flat: Flat, item: Item): Flat {
    TouchAll(flat, item.path, true, item.attr)
  }

  const ROOT: Flat := map[Top := IMPLIED]

  function Build(items: seq<Item>): Flat
    decreases |items|
  {
    if items == [] then ROOT
    else Insert(Build(items[..|items| - 1]), items[|items| - 1])
  }

  // ----- the linked nodes

  class TreeNode {
    var attr: Attr
    var children: map<string, TreeNode>

    /** Where the node hangs. */
    ghost const path: Path

    constructor (ghost path: Path, attr: Attr)
      ensures this.path == path && this.attr == attr && children == map[]
    {
      this.path, this.attr, children := path, attr, map[];
    }
  }

  type Nodes = map<Path, TreeNode>

  /** Every node is reached by exactly one path, along its ancestors' `children`. */
  ghost predicate Linked(nodes: Nodes, repr: set<TreeNode>)
    reads repr`children
  {
    && Top in nodes
    && (forall p :: p in nodes ==> nodes[p] in repr && nodes[p].path == p)
    && (forall p, n :: p in nodes && n in nodes[p].children ==>
        Sub(p, n) in nodes && nodes[Sub(p, n)] == nodes[p].children[n])
    && (forall p, n :: Sub(p, n) in nodes ==> p in nodes && n in nodes[p].children)
  }

  /** The nodes carry the attributes of `flat`. */
  ghost predicate Shows(nodes: Nodes, repr: set<TreeNode>, flat: Flat)
    reads repr`attr
  {
    && (forall p :: p in nodes <==> p in flat)
    && forall p :: p in nodes ==> nodes[p] in repr && nodes[p].attr == flat[p]
  }

  /** `after` is `before` with one node touched. */
  ghost predicate Touched(before: Flat, after: Flat, c: Path, last: bool, attr: Attr) {
    && (forall p :: p in after <==> p in before || p == c)
    && (forall p :: p in before && p != c ==> after[p] == before[p])
    && after[c] == if last then attr else if c in before then before[c].(isDir := true) else IMPLIED
  }

  /** A new node below `cur`. */
  method Grow(cur: TreeNode, part: string, attr: Attr, ghost nodes: Nodes, ghost repr: set<TreeNode>)
    returns (child: TreeNode, ghost grown: Nodes, ghost all: set<TreeNode>)
    requires Linked(nodes, repr) && cur.path in nodes && nodes[cur.path] == cur && part !in cur.children
    modifies cur`children
    ensures child.path == Sub(cur.path, part) && child.path !in nodes && grown == nodes[child.path := child]
    ensures fresh(child) && child.attr == attr && all == repr + {child} && Linked(grown, all)
  {
    ghost var c := Sub(cur.path, part);
    child := new TreeNode(c, attr);
    assert c !in nodes;
    cur.children := cur.children[part := child];
    grown, all := nodes[c := child], repr + {child};
    forall p, n | p in grown && n in grown[p].children
      ensures Sub(p, n) in grown && grown[Sub(p, n)] == grown[p].children[n]
    {
      if p != c && !(p == cur.path && n == part) { assert n in old(nodes[p].children); }
    }
    forall p, n | Sub(p, n) in grown ensures p in grown && n in grown[p].children {
      if Sub(p, n) != c { assert Sub(p, n) in nodes; }
    }
  }

  /** One turn of the inner loop: find the child or make it, and set its attributes. */
  method Descend(cur: TreeNode, part: string, last: bool, attr: Attr, ghost nodes: Nodes, ghost repr: set<TreeNode>,
                 ghost before: Flat, ghost after: Flat)
    returns (child: TreeNode, ghost grown: Nodes, ghost all: set<TreeNode>)
    requires Linked(nodes, repr) && cur.path in nodes && nodes[cur.path] == cur
    requires Shows(nodes, repr, before) && Touched(before, after, Sub(cur.path, part), last, attr)
    modifies repr
    ensures child.path == Sub(cur.path, part) && child.path in grown && grown[child.path] == child
    ensures Linked(grown, all) && Shows(grown, all, after) && grown[Top] == nodes[Top]
    ensures forall o :: o in all ==> o in repr || fresh(o)
  {
    if part in cur.children {
      child := cur.children[part];
      child.attr := if last then attr else child.attr.(isDir := true);
      grown, all := nodes, repr;
    } else {
      child, grown, all := Grow(cur, part, if last then attr else IMPLIED, nodes, repr);
    }
  }

  lemma TouchIsTouched(flat: Flat, p: Path, n: string, last: bool, attr: Attr)
    ensures Touched(TouchAll(flat, p, false, attr), TouchAll(flat, Sub(p, n), last, attr), Sub(p, n), last, attr)
  {
  }

  lemma JoinNext(at: Path, parts: seq<string>, i: nat)
    requires i < |parts|
    ensures Join(at, parts[i..]) == Join(if parts[i] == "" then at else Sub(at, parts[i]), parts[i + 1..])
  {
    assert parts[i..][1..] == parts[i + 1..];
  }

  /** All parts of one path; the last is empty only when it is the only one. */
  method AddEntry(root: TreeNode, parts: seq<string>, attr: Attr, ghost nodes: Nodes, ghost repr: set<TreeNode>,
                  ghost flat: Flat)
    returns (ghost grown: Nodes, ghost all: set<TreeNode>)
    requires Linked(nodes, repr) && nodes[Top] == root && Shows(nodes, repr, flat)
    requires parts != [] && (parts[|parts| - 1] != "" || parts == [""])
    modifies repr
    ensures Linked(grown, all) && grown[Top] == root
    ensures forall o :: o in all ==> o in repr || fresh(o)
    ensures Shows(grown, all, Insert(flat, Item(Join(Top, parts), attr)))
  {
    var cur := root;
    grown, all := nodes, repr;
    for i := 0 to |parts|
      invariant Linked(grown, all) && grown[Top] == root && cur.path in grown && grown[cur.path] == cur
      invariant forall o :: o in all ==> o in repr || fresh(o)
      invariant Join(cur.path, parts[i..]) == Join(Top, parts)
      invariant Shows(grown, all, TouchAll(flat, cur.path, i == |parts|, attr))
      invariant i == |parts| ==> parts[i - 1] != "" || cur.path == Top
    {
      JoinNext(cur.path, parts, i);
      if parts[i] == "" { continue; }
      ghost var c, last := Sub(cur.path, parts[i]), i == |parts| - 1;
      ghost var before, after := TouchAll(flat, cur.path, false, attr), TouchAll(flat, c, last, attr);
      TouchIsTouched(flat, cur.path, parts[i], last, attr);
      cur, grown, all := Descend(cur, parts[i], i == |parts| - 1, attr, grown, all, before, after);
      assert Shows(grown, all, after) && cur.path == c;
    }
  }

  lemma LastPart(path: string)
    ensures var parts := Parts(path); parts[|parts| - 1] != "" || parts == [""]
  {
    var t := Trim(path, IsSlash);
    if t != "" { SplitEnds(t, '/'); }
  }

  lemma {:induction false} SplitEnds(s: string, sep: char)
    requires s != "" && s[|s| - 1] != sep
    ensures Split(s, sep)[|Split(s, sep)| - 1] != ""
  {
    if |s| > 1 { SplitEnds(s[1..], sep); }
  }

  lemma BuildNext(items: seq<Item>, i: nat)
    requires i < |items|
    ensures Build(items[..i + 1]) == Insert(Build(items[..i]), items[i])
  {
    assert items[..i + 1][..i] == items[..i];
  }

  // ----- which nodes, whatever the order

  /** `q` is `p` or lies on the way to it. */
  predicate Under(q: Path, p: Path) {
    q == p || (p.Sub? && Under(q, p.parent))
  }

  lemma {:induction false} TouchAllNodes(flat: Flat, p: Path, leaf: bool, attr: Attr)
    ensures forall q :: q in TouchAll(flat, p, leaf, attr) <==> q in flat || (q != Top && Under(q, p))
  {
    if p.Sub? { TouchAllNodes(flat, p.parent, false, attr); }
  }

  /** The tree has exactly the root and the nodes on the way to some entry, in any order of the listing. */
  lemma {:induction false} PrefixClosure(items: seq<Item>)
    ensures forall q :: q in Build(items) <==> q == Top || exists e :: e in items && Under(q, e.path)
    decreases |items|
  {
    if items != [] {
      var last := |items| - 1;
      assert items == items[..last] + [items[last]];
      PrefixClosure(items[..last]);
      TouchAllNodes(Build(items[..last]), items[last].path, true, items[last].attr);
    }
  }

  // ----- what the listing says in plain text

  /** The node reached from the root by these names. */
  function PathOf(names: seq<string>): Path {
    if names == [] then Top else Sub(PathOf(names[..|names| - 1]), names[|names| - 1])
  }

  function NamesOf(p: Path): seq<string> {
    match p case Top => [] case Sub(q, n) => NamesOf(q) + [n]
  }

  lemma {:induction false} PathOfNames(p: Path)
    ensures PathOf(NamesOf(p)) == p
  {
    if p.Sub? {
      PathOfNames(p.parent);
      assert (NamesOf(p.parent) + [p.name])[..|NamesOf(p.parent)|] == NamesOf(p.parent);
    }
  }

  lemma {:induction false} NamesOfPath(names: seq<string>)
    ensures NamesOf(PathOf(names)) == names
    decreases |names|
  {
    if names != [] {
      NamesOfPath(names[..|names| - 1]);
      assert names == names[..|names| - 1] + [names[|names| - 1]];
    }
  }

  lemma {:induction false} JoinedFrom(base: Path, parts: seq<string>)
    ensures NamesOf(Join(base, parts)) == NamesOf(base) + NonEmpty(parts)
    decreases |parts|
  {
    if parts != [] { JoinedFrom(if parts[0] == "" then base else Sub(base, parts[0]), parts[1..]); }
  }

  /** An entry stands for the node whose names its path spells, whatever slashes there are around and between them. */
  lemma EntrySpelled(e: Entry, names: seq<string>)
    ensures ItemOf(e).path == PathOf(names) <==> Spells(e.path, '/', names)
  {
    EntryNames(e);
    SpelledParts(e.path, '/', names);
    SamePath(ItemOf(e).path, names);
  }

  lemma EntryNames(e: Entry)
    ensures NamesOf(ItemOf(e).path) == NonEmpty(Split(e.path, '/'))
  {
    JoinedFrom(Top, Parts(e.path));
    TrimmedParts(e.path, '/', IsSlash);
  }

  lemma SamePath(p: Path, names: seq<string>)
    ensures p == PathOf(names) <==> NamesOf(p) == names
  {
    NamesOfPath(names);
    PathOfNames(p);
  }

  lemma {:induction false} UnderIsPrefix(q: Path, p: Path)
    ensures Under(q, p) <==> NamesOf(q) <= NamesOf(p)
    decreases p
  {
    if p.Sub? {
      UnderIsPrefix(q, p.parent);
      if NamesOf(q) == NamesOf(p) {
        PathOfNames(q);
        PathOfNames(p);
      }
    } else {
      PathOfNames(q);
    }
  }

  /** Entry `i` or a later one is listed under these names. */
  ghost predicate SpelledFrom(entries: seq<Entry>, i: nat, names: seq<string>) {
    exists j :: i <= j < |entries| && Spells(entries[j].path, '/', names)
  }

  /** The last entry of that name: what it says counts. */
  ghost predicate LastSpelled(entries: seq<Entry>, i: nat, names: seq<string>) {
    && i < |entries| && names != [] && Spells(entries[i].path, '/', names)
    && !SpelledFrom(entries, i + 1, names)
  }

  /** Entry `i` or a later one lies below these names. */
  ghost predicate SpelledBelow(entries: seq<Entry>, i: nat, names: seq<string>) {
    exists j, full :: i <= j < |entries| && Spells(entries[j].path, '/', full) && names < full
  }

  ghost predicate OnTheWay(entries: seq<Entry>, names: seq<string>) {
    exists j, full :: 0 <= j < |entries| && Spells(entries[j].path, '/', full) && names <= full
  }

  /** `said` holds the names each entry's path spells, `items` the entries normalised. */
  ghost predicate Reads(entries: seq<Entry>, items: seq<Item>, said: seq<seq<string>>) {
    && |entries| == |items| == |said|
    && (forall j, full :: 0 <= j < |entries| ==> (Spells(entries[j].path, '/', full) <==> full == said[j]))
    && (forall j :: 0 <= j < |items| ==> items[j].path == PathOf(said[j]))
    && (forall j :: 0 <= j < |items| ==> items[j].attr == Attr(entries[j].isDir, entries[j].size, entries[j].modTime))
  }

  lemma ReadsExists(entries: seq<Entry>) returns (said: seq<seq<string>>)
    ensures Reads(entries, Items(entries), said)
  {
    said := seq(|entries|, j requires 0 <= j < |entries| => NamesOf(ItemOf(entries[j]).path));
    forall j | 0 <= j < |entries| ensures ItemOf(entries[j]).path == PathOf(said[j]) {
      PathOfNames(ItemOf(entries[j]).path);
    }
    forall j, full | 0 <= j < |entries| ensures Spells(entries[j].path, '/', full) <==> full == said[j] {
      EntrySpelled(entries[j], full);
      SamePath(ItemOf(entries[j]).path, full);
    }
  }

  lemma UnderNames(names: seq<string>, full: seq<string>)
    ensures Under(PathOf(names), PathOf(full)) <==> names <= full
    ensures PathOf(names) == PathOf(full) <==> names == full
  {
    UnderIsPrefix(PathOf(names), PathOf(full));
    NamesOfPath(names);
    NamesOfPath(full);
  }

  lemma NodesByNames(items: seq<Item>, said: seq<seq<string>>, names: seq<string>)
    requires |said| == |items| && forall j :: 0 <= j < |items| ==> items[j].path == PathOf(said[j])
    ensures PathOf(names) in Build(items) <==> names == [] || exists j :: 0 <= j < |said| && names <= said[j]
  {
    PrefixClosure(items);
    forall j | 0 <= j < |said| ensures Under(PathOf(names), items[j].path) <==> names <= said[j] {
      UnderNames(names, said[j]);
    }
    if e :| e in items && Under(PathOf(names), e.path) {
      var j :| 0 <= j < |items| && items[j] == e;
      assert names <= said[j];
    }
    if j :| 0 <= j < |said| && names <= said[j] { assert items[j] in items; }
  }

  /** In any listing, duplicates and all: the last entry of a path counts, and whatever comes below it later makes it
      a directory. */
  lemma {:induction false} LastListed(items: seq<Item>, i: nat)
    requires i < |items| && items[i].path != Top
    requires forall j :: i < j < |items| ==> items[j].path != items[i].path
    ensures var q := items[i].path;
            && q in Build(items)
            && Build(items)[q] == items[i].attr.(isDir :=
                 items[i].attr.isDir || exists j :: i < j < |items| && Under(q, items[j].path))
    decreases |items|
  {
    var q, init, last := items[i].path, items[..|items| - 1], items[|items| - 1];
    TouchAllNodes(Build(init), last.path, true, last.attr);
    if i < |items| - 1 {
      LastListed(init, i);
      assert forall j :: 0 <= j < |init| ==> init[j] == items[j];
    } else {
      assert Under(q, q);
    }
    TouchAllAttr(Build(init), last.path, true, last.attr, q);
  }

  lemma {:induction false} NeverListed(items: seq<Item>, q: Path)
    requires q in Build(items) && forall e :: e in items && e.path == q ==> q == Top
    ensures Build(items)[q] == IMPLIED
    decreases |items|
  {
    if items != [] {
      var init, last := items[..|items| - 1], items[|items| - 1];
      assert items == init + [last];
      if q in Build(init) { NeverListed(init, q); }
      TouchAllAttr(Build(init), last.path, true, last.attr, q);
    }
  }

  lemma AttrByNames(items: seq<Item>, said: seq<seq<string>>, i: nat)
    requires |said| == |items| && forall j :: 0 <= j < |items| ==> items[j].path == PathOf(said[j])
    requires i < |items| && said[i] != [] && forall j :: i < j < |said| ==> said[j] != said[i]
    ensures var q := PathOf(said[i]);
            && q in Build(items)
            && Build(items)[q] == items[i].attr.(isDir :=
                 items[i].attr.isDir || exists j :: i < j < |said| && said[i] <= said[j])
  {
    forall j | 0 <= j < |said|
      ensures Under(PathOf(said[i]), items[j].path) <==> said[i] <= said[j]
      ensures items[j].path == PathOf(said[i]) <==> said[j] == said[i]
    {
      UnderNames(said[i], said[j]);
    }
    LastListed(items, i);
  }

  lemma ImpliedByNames(items: seq<Item>, said: seq<seq<string>>, names: seq<string>)
    requires |said| == |items| && forall j :: 0 <= j < |items| ==> items[j].path == PathOf(said[j])
    requires PathOf(names) in Build(items) && names !in said
    ensures Build(items)[PathOf(names)] == IMPLIED
  {
    forall e | e in items ensures e.path != PathOf(names) {
      var j :| 0 <= j < |items| && items[j] == e;
      UnderNames(names, said[j]);
    }
    NeverListed(items, PathOf(names));
  }

  lemma NodesFromText(entries: seq<Entry>, items: seq<Item>, said: seq<seq<string>>, names: seq<string>)
    requires Reads(entries, items, said)
    ensures PathOf(names) in Build(items) <==> names == [] || OnTheWay(entries, names)
  {
    NodesByNames(items, said, names);
    if j :| 0 <= j < |said| && names <= said[j] { assert Spells(entries[j].path, '/', said[j]); }
  }

  lemma AttrFromText(entries: seq<Entry>, items: seq<Item>, said: seq<seq<string>>, i: nat, names: seq<string>)
    requires Reads(entries, items, said) && LastSpelled(entries, i, names)
    ensures PathOf(names) in Build(items)
    ensures Build(items)[PathOf(names)] ==
            Attr(entries[i].isDir || SpelledBelow(entries, i + 1, names), entries[i].size, entries[i].modTime)
  {
    assert names == said[i];
    forall j | i < j < |said| ensures said[j] != names { assert !Spells(entries[j].path, '/', names); }
    AttrByNames(items, said, i);
    if j :| i < j < |said| && names <= said[j] { assert Spells(entries[j].path, '/', said[j]); }
  }

  lemma ImpliedFromText(entries: seq<Entry>, items: seq<Item>, said: seq<seq<string>>, names: seq<string>)
    requires Reads(entries, items, said) && PathOf(names) in Build(items) && !SpelledFrom(entries, 0, names)
    ensures Build(items)[PathOf(names)] == IMPLIED
  {
    forall j | 0 <= j < |said| ensures said[j] != names { assert !Spells(entries[j].path, '/', names); }
    ImpliedByNames(items, said, names);
  }

  // ----- when the order of the items matters

  lemma {:induction false} UnderIsShorter(q: Path, p: Path)
    requires Under(q, p)
    ensures Depth(q) <= Depth(p) && (q != p ==> Depth(q) < Depth(p))
  {
    if q != p { UnderIsShorter(q, p.parent); }
  }

  lemma NotUnderParent(p: Path)
    requires p.Sub?
    ensures !Under(p, p.parent)
  {
    if Under(p, p.parent) { UnderIsShorter(p, p.parent); }
  }

  function Depth(p: Path): nat {
    match p case Top => 0 case Sub(q, _) => 1 + Depth(q)
  }

  lemma {:induction false} TouchAllAttr(flat: Flat, p: Path, leaf: bool, attr: Attr, q: Path)
    requires q in TouchAll(flat, p, leaf, attr)
    ensures TouchAll(flat, p, leaf, attr)[q] ==
            if q == Top || !Under(q, p) then (if q in flat then flat[q] else IMPLIED)
            else if q == p && leaf then attr
            else if q in flat then flat[q].(isDir := true)
            else IMPLIED
  {
    if p.Sub? {
      TouchAllNodes(flat, p.parent, false, attr);
      NotUnderParent(p);
      if q in TouchAll(flat, p.parent, false, attr) { TouchAllAttr(flat, p.parent, false, attr, q); }
    }
  }

  ghost predicate DistinctPaths(items: seq<Item>) {
    forall i, j :: 0 <= i < j < |items| ==> items[i].path != items[j].path
  }

  ghost predicate Above(e: Item, f: Item) {
    e.path != Top && e.path != f.path && Under(e.path, f.path)
  }

  /** Whatever lies below an entry, the entry is a directory. */
  ghost predicate Consistent(items: seq<Item>) {
    forall e, f :: e in items && f in items && Above(e, f) ==> e.attr.isDir
  }

  ghost predicate Listed(items: seq<Item>, q: Path, e: Item) {
    e in items && e.path == q
  }

  /** Listed nodes have their entry's attributes, the others are implied directories. */
  ghost predicate Attributed(flat: Flat, items: seq<Item>) {
    forall q :: q in flat ==>
      && (forall e :: Listed(items, q, e) && q != Top ==> flat[q] == e.attr)
      && (q == Top || !(exists e :: Listed(items, q, e)) ==> flat[q] == IMPLIED)
  }

  lemma {:induction false} BuildAttributes(items: seq<Item>)
    requires DistinctPaths(items) && Consistent(items)
    ensures Attributed(Build(items), items)
    decreases |items|
  {
    if items != [] {
      var init, e := items[..|items| - 1], items[|items| - 1];
      assert items == init + [e];
      BuildAttributes(init);
      PrefixClosure(init);
      TouchAllNodes(Build(init), e.path, true, e.attr);
      forall q | q in Build(items)
        ensures (forall g :: Listed(items, q, g) && q != Top ==> Build(items)[q] == g.attr)
        ensures q == Top || !(exists g :: Listed(items, q, g)) ==> Build(items)[q] == IMPLIED
      {
        AttributesOne(Build(init), init, e, q);
      }
    }
  }

  lemma AttributesOne(flat: Flat, init: seq<Item>, e: Item, q: Path)
    requires DistinctPaths(init + [e]) && Consistent(init + [e]) && Attributed(flat, init) && Top in flat
    requires forall p :: p in flat <==> p == Top || exists g :: g in init && Under(p, g.path)
    requires q in Insert(flat, e)
    ensures forall g :: Listed(init + [e], q, g) && q != Top ==> Insert(flat, e)[q] == g.attr
    ensures q == Top || !(exists g :: Listed(init + [e], q, g)) ==> Insert(flat, e)[q] == IMPLIED
  {
    var items, p := init + [e], e.path;
    TouchAllAttr(flat, p, true, e.attr, q);
    TouchAllNodes(flat, p, true, e.attr);
    LastIsNew(init, e);
    assert forall g :: Listed(items, q, g) <==> Listed(init, q, g) || (g == e && q == p);
    forall g | Listed(init, q, g) && q != Top ensures q in flat && (Under(q, p) && q != p ==> g.attr.isDir) {
      assert Under(q, g.path);
      assert g in items && e in items && (Under(q, p) && q != p ==> Above(g, e));
    }
  }

  lemma LastIsNew(init: seq<Item>, e: Item)
    requires DistinctPaths(init + [e])
    ensures forall g :: g in init ==> g.path != e.path
  {
    var items := init + [e];
    forall g | g in init ensures g.path != e.path {
      var i :| 0 <= i < |init| && init[i] == g;
      assert items[i] == g && items[|init|] == e;
    }
  }

  lemma AttributesAgree(x: Flat, y: Flat, a: seq<Item>, b: seq<Item>)
    requires Attributed(x, a) && Attributed(y, b) && x.Keys == y.Keys
    requires forall e :: e in a <==> e in b
    ensures x == y
  {
    forall q | q in x ensures x[q] == y[q] {
      assert forall e :: Listed(a, q, e) <==> Listed(b, q, e);
      if q != Top && exists e :: Listed(a, q, e) {
        var e :| Listed(a, q, e);
        assert x[q] == e.attr && y[q] == e.attr;
      }
    }
  }

  lemma SameNodes(x: Flat, y: Flat, a: seq<Item>, b: seq<Item>)
    requires forall e :: e in a <==> e in b
    requires forall q :: q in x <==> q == Top || exists e :: e in a && Under(q, e.path)
    requires forall q :: q in y <==> q == Top || exists e :: e in b && Under(q, e.path)
    ensures x.Keys == y.Keys
  {
    forall q ensures q in x <==> q in y {
      if e :| e in a && Under(q, e.path) { assert e in b; }
    }
  }

  lemma SameTree(a: seq<Item>, b: seq<Item>)
    requires multiset(a) == multiset(b) && DistinctPaths(a) && Consistent(a)
    ensures Build(a) == Build(b)
  {
    SameEntries(a, b);
    DistinctPathsKept(a, b);
    BuildAttributes(a);
    BuildAttributes(b);
    PrefixClosure(a);
    PrefixClosure(b);
    SameNodes(Build(a), Build(b), a, b);
    AttributesAgree(Build(a), Build(b), a, b);
  }

  lemma SameEntries(a: seq<Item>, b: seq<Item>)
    requires multiset(a) == multiset(b)
    ensures forall e :: e in a <==> e in b
  {
    assert forall e :: e in a <==> e in multiset(a);
    assert forall e :: e in b <==> e in multiset(b);
  }

  lemma DistinctPathsKept(a: seq<Item>, b: seq<Item>)
    requires multiset(a) == multiset(b) && DistinctPaths(a)
    ensures DistinctPaths(b)
  {
    DistinctPermutation(a, b);
    SameEntries(a, b);
    forall i, j | 0 <= i < j < |b| ensures b[i].path != b[j].path {
      assert b[i] in a && b[j] in a && b[i] != b[j];
    }
  }

  /** A file that is inserted last is a file; one that something is inserted below is a directory. */
  lemma LastInsertCounts(x: Flat, y: Flat, e: Item, f: Item)
    requires Above(e, f) && !e.attr.isDir && e.path in x
    ensures e.path in Insert(x, f) && Insert(x, f)[e.path].isDir
    ensures e.path in Insert(y, e) && !Insert(y, e)[e.path].isDir
  {
    var p := e.path;
    TouchAllNodes(x, f.path, true, f.attr);
    TouchAllNodes(y, p, true, e.attr);
    TouchAllAttr(x, f.path, true, f.attr, p);
    TouchAllAttr(y, p, true, e.attr, p);
  }

  lemma BuildTwo(rest: seq<Item>, e: Item, f: Item)
    ensures Build(rest + [e, f]) == Insert(Insert(Build(rest), e), f)
  {
    assert (rest + [e, f])[..|rest| + 1] == rest + [e] && (rest + [e])[..|rest|] == rest;
  }

  lemma OrderShows(rest: seq<Item>, e: Item, f: Item)
    requires Above(e, f) && !e.attr.isDir
    ensures Build(rest + [e, f]) != Build(rest + [f, e])
  {
    BuildTwo(rest, e, f);
    BuildTwo(rest, f, e);
    TouchAllNodes(Build(rest), e.path, true, e.attr);
    LastInsertCounts(Insert(Build(rest), e), Insert(Build(rest), f), e, f);
  }

  lemma TakeOut(s: seq<Item>, x: Item) returns (rest: seq<Item>)
    requires x in s
    ensures multiset(s) == multiset(rest) + multiset{x}
  {
    var i :| 0 <= i < |s| && s[i] == x;
    rest := s[..i] + s[i + 1..];
    assert s == s[..i] + [x] + s[i + 1..];
  }

  lemma InconsistentOrders(items: seq<Item>, e: Item, f: Item)
    requires e in items && f in items && Above(e, f) && !e.attr.isDir
    ensures exists other :: multiset(other) == multiset(items) && Build(other) != Build(items)
  {
    var rest := TakeOutTwo(items, e, f);
    OrderShows(rest, e, f);
  }

  lemma TakeOutTwo(items: seq<Item>, e: Item, f: Item) returns (rest: seq<Item>)
    requires e in items && f in items && e != f
    ensures multiset(rest + [e, f]) == multiset(items) && multiset(rest + [f, e]) == multiset(items)
  {
    var others := TakeOut(items, e);
    assert f in multiset(items) && f in multiset(others);
    rest := TakeOut(others, f);
  }

  /** For a listing with distinct paths, the tree and its attributes are the same in every order of the items
      if and only if no file has another entry below it. */
  lemma OrderIndependence(items: seq<Item>)
    requires DistinctPaths(items)
    ensures (forall other :: multiset(other) == multiset(items) ==> Build(other) == Build(items)) <==> Consistent(items)
  {
    if Consistent(items) {
      forall other | multiset(other) == multiset(items) ensures Build(other) == Build(items) { SameTree(items, other); }
    } else {
      var e, f :| e in items && f in items && Above(e, f) && !e.attr.isDir;
      InconsistentOrders(items, e, f);
    }
  }

  // ----- the whole command

  /** The nodes are the root and whatever lies on the way to an entry. A listed node says what its last entry says,
      and is a directory if something is listed below it later; all others are implied directories. */
  ghost predicate TreeOf(entries: seq<Entry>, tree: Flat) {
    && (forall names :: PathOf(names) in tree <==> names == [] || OnTheWay(entries, names))
    && (forall i: nat, names :: LastSpelled(entries, i, names) ==>
          && PathOf(names) in tree
          && tree[PathOf(names)] ==
             Attr(entries[i].isDir || SpelledBelow(entries, i + 1, names), entries[i].size, entries[i].modTime))
    && (forall names :: PathOf(names) in tree && !SpelledFrom(entries, 0, names) ==>
          tree[PathOf(names)] == Attr(true, 0, ""))
  }

  lemma BuiltFromText(entries: seq<Entry>)
    ensures TreeOf(entries, Build(Items(entries)))
  {
    var said := ReadsExists(entries);
    TreeFromText(entries, Items(entries), said);
  }

  lemma TreeFromText(entries: seq<Entry>, items: seq<Item>, said: seq<seq<string>>)
    requires Reads(entries, items, said)
    ensures TreeOf(entries, Build(items))
  {
    var tree := Build(items);
    forall names { NodesFromText(entries, items, said, names); }
    forall i: nat, names | LastSpelled(entries, i, names) { AttrFromText(entries, items, said, i, names); }
    forall names | PathOf(names) in tree && !SpelledFrom(entries, 0, names) {
      ImpliedFromText(entries, items, said, names);
    }
  }

  method BuildTree(entries: seq<Entry>) returns (root: TreeNode, ghost nodes: Nodes, ghost repr: set<TreeNode>)
    ensures Linked(nodes, repr) && nodes[Top] == root && fresh(repr)
    ensures Shows(nodes, repr, Build(Items(entries)))
    ensures TreeOf(entries, Build(Items(entries)))
  {
    root := new TreeNode(Top, IMPLIED);
    nodes, repr := map[Top := root], {root};
    ghost var flat, items := ROOT, Items(entries);
    for i := 0 to |entries|
      invariant Linked(nodes, repr) && nodes[Top] == root && Shows(nodes, repr, flat)
      invariant forall o :: o in repr ==> fresh(o)
      invariant flat == Build(items[..i])
    {
      var e := entries[i];
      BuildNext(items, i);
      LastPart(e.path);
      nodes, repr := AddEntry(root, Parts(e.path), Attr(e.isDir, e.size, e.modTime), nodes, repr, flat);
      flat := Build(items[..i + 1]);
    }
    assert items[..|entries|] == items;
    BuiltFromText(entries);
  }
}
