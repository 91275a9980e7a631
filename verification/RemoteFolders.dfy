/**
 Destination folders on the remote. The remote has no atomic "create if missing": a path is walked by
 separate look-up and create requests, and nothing stops two folders of one parent from having the same
 name (rclone/client.go, Mkdir). `runBackup` therefore creates every destination folder before any
 worker starts (cli/backup.go).
 */
module RemoteFolders {
  import opened Text

  type Id = nat

  const ROOT: Id := 0

  datatype Folder = Folder(parent: Id, name: string)

  /** Files are known by folder and name. */
  datatype Remote = Remote(folders: map<Id, Folder>, files: set<(Id, string)>)

  type Path = seq<string>

  /** The non-empty segments of a slash-separated path. */
  function Components(path: string): Path {
    NonEmpty(Split(path, '/'))
  }

  /** The segments are the names the path spells, whatever slashes there are around and between them. */
  lemma ComponentsSpelled(path: string, names: Path)
    ensures Components(path) == names <==> Spells(path, '/', names)
  {
    SpelledParts(path, '/', names);
  }

  predicate IsChild(folders: map<Id, Folder>, at: Id, name: string, child: Id) {
    child in folders && folders[child] == Folder(at, name)
  }

  /** One way a walk down `path` from `at` can end. */
  ghost predicate Leads(folders: map<Id, Folder>, at: Id, path: Path, to: Id)
    decreases |path|
  {
    if path == [] then to == at
    else exists child: Id :: IsChild(folders, at, path[0], child) && Leads(folders, child, path[1..], to)
  }

  ghost predicate Present(folders: map<Id, Folder>, path: Path) {
    LeadsOn(folders, ROOT, path)
  }

  ghost predicate LeadsOn(folders: map<Id, Folder>, at: Id, path: Path) {
    exists to: Id :: Leads(folders, at, path, to)
  }

  /** At every step of the walk there is at most one folder to go to. */
  ghost predicate Unforked(folders: map<Id, Folder>, at: Id, path: Path)
    decreases |path|
  {
    path != [] ==>
      && (forall c: Id, d: Id :: IsChild(folders, at, path[0], c) && IsChild(folders, at, path[0], d) ==> c == d)
      && (forall c: Id :: IsChild(folders, at, path[0], c) ==> Unforked(folders, c, path[1..]))
  }

  /** At every step of the walk there is exactly one folder to go to. */
  ghost predicate Clear(folders: map<Id, Folder>, at: Id, path: Path)
    decreases |path|
  {
    path != [] ==>
    exists c: Id :: IsChild(folders, at, path[0], c)
      && (forall d: Id :: IsChild(folders, at, path[0], d) ==> d == c)
      && Clear(folders, c, path[1..])
  }

  lemma {:induction false} ClearIsUnforkedAndPresent(folders: map<Id, Folder>, at: Id, path: Path)
    ensures Clear(folders, at, path) <==> Unforked(folders, at, path) && LeadsOn(folders, at, path)
    decreases |path|
  {
    if path == [] {
      assert Leads(folders, at, path, at);
    } else {
      forall c: Id
        ensures Clear(folders, c, path[1..]) <==> Unforked(folders, c, path[1..]) && LeadsOn(folders, c, path[1..])
      {
        ClearIsUnforkedAndPresent(folders, c, path[1..]);
      }
      if c: Id :| IsChild(folders, at, path[0], c) && LeadsOn(folders, c, path[1..]) {
        var to: Id :| Leads(folders, c, path[1..], to);
        assert Leads(folders, at, path, to);
      }
      if to: Id :| Leads(folders, at, path, to) {
        var c: Id :| IsChild(folders, at, path[0], c) && Leads(folders, c, path[1..], to);
        assert LeadsOn(folders, c, path[1..]);
      }
    }
  }

  /** A clear walk ends in one place. */
  lemma {:induction false} ClearLeadsToOne(folders: map<Id, Folder>, at: Id, path: Path, a: Id, b: Id)
    requires Unforked(folders, at, path) && Leads(folders, at, path, a) && Leads(folders, at, path, b)
    ensures a == b
    decreases |path|
  {
    if path != [] {
      var c: Id :| IsChild(folders, at, path[0], c) && Leads(folders, c, path[1..], a);
      var d: Id :| IsChild(folders, at, path[0], d) && Leads(folders, d, path[1..], b);
      assert c == d;
      ClearLeadsToOne(folders, c, path[1..], a, b);
    }
  }

  /** No two folders have the same parent and name, hence no two have the same path. */
  predicate Unambiguous(folders: map<Id, Folder>) {
    forall i, j :: i in folders && j in folders && folders[i] == folders[j] ==> i == j
  }

  ghost predicate Grows(before: map<Id, Folder>, after: map<Id, Folder>) {
    before.Keys <= after.Keys && forall i :: i in before ==> after[i] == before[i]
  }

  /** What sequential creation does: folders are added only where there was none of that parent and name, under
      ids nobody refers to yet. */
  ghost predicate Extends(before: map<Id, Folder>, after: map<Id, Folder>) {
    && Grows(before, after)
    && ROOT !in after.Keys - before.Keys
    && (forall i, j :: i in after && i !in before && j in after && after[j] == after[i] ==> j == i)
    && (forall j :: j in before && before[j].parent in after ==> before[j].parent in before)
  }

  lemma ExtendsTransitive(a: map<Id, Folder>, b: map<Id, Folder>, c: map<Id, Folder>)
    requires Extends(a, b) && Extends(b, c)
    ensures Extends(a, c)
  {
    forall i, j | i in c && i !in a && j in c && c[j] == c[i] ensures j == i {
      if i in b {
        assert j !in b ==> j == i;
        assert j in b ==> b[j] == b[i];
      }
    }
  }

  /** Below a folder that is new everything is new. */
  lemma {:induction false} NewIsUnforked(before: map<Id, Folder>, after: map<Id, Folder>, at: Id, path: Path)
    requires Extends(before, after) && at in after && at !in before
    ensures Unforked(after, at, path)
    decreases |path|
  {
    if path != [] {
      assert forall j :: j in before ==> before[j].parent != at;
      forall c: Id | IsChild(after, at, path[0], c) ensures c !in before && Unforked(after, c, path[1..]) {
        NewIsUnforked(before, after, c, path[1..]);
      }
    }
  }

  /** Sequential creation forks no walk and mends none. */
  lemma {:induction false} ExtendsUnforked(before: map<Id, Folder>, after: map<Id, Folder>, at: Id, path: Path)
    requires Extends(before, after) && at !in after.Keys - before.Keys
    ensures Unforked(before, at, path) <==> Unforked(after, at, path)
    decreases |path|
  {
    if path != [] {
      var name := path[0];
      forall c: Id | IsChild(after, at, name, c) ensures c !in before ==> Unforked(after, c, path[1..]) {
        if c !in before { NewIsUnforked(before, after, c, path[1..]); }
      }
      forall c: Id | IsChild(before, at, name, c)
        ensures IsChild(after, at, name, c) && (Unforked(before, c, path[1..]) <==> Unforked(after, c, path[1..]))
        ensures forall d: Id :: IsChild(after, at, name, d) ==> d in before
      {
        ExtendsUnforked(before, after, c, path[1..]);
      }
      assert forall c: Id :: IsChild(after, at, name, c) && c in before ==> IsChild(before, at, name, c);
      assert forall c: Id, d: Id ::
          IsChild(after, at, name, c) && IsChild(after, at, name, d) && c !in before ==> c == d;
    }
  }

  lemma {:induction false} LeadsAfterGrowth(before: map<Id, Folder>, after: map<Id, Folder>, at: Id, path: Path, to: Id)
    requires Grows(before, after) && Leads(before, at, path, to)
    ensures Leads(after, at, path, to)
    decreases |path|
  {
    if path != [] {
      var c: Id :| IsChild(before, at, path[0], c) && Leads(before, c, path[1..], to);
      LeadsAfterGrowth(before, after, c, path[1..], to);
      assert IsChild(after, at, path[0], c);
    }
  }

  lemma {:induction false} LeadsSnoc(folders: map<Id, Folder>, at: Id, path: Path, mid: Id, name: string, to: Id)
    requires Leads(folders, at, path, mid) && IsChild(folders, mid, name, to)
    ensures Leads(folders, at, path + [name], to)
    decreases |path|
  {
    if path == [] {
      assert Leads(folders, to, (path + [name])[1..], to);
    } else {
      var c: Id :| IsChild(folders, at, path[0], c) && Leads(folders, c, path[1..], mid);
      assert (path + [name])[1..] == path[1..] + [name];
      LeadsSnoc(folders, c, path[1..], mid, name, to);
    }
  }

  // ----- before the workers start

  /** `file` is the archive's name in the destination folder `path`. */
  datatype Job = Job(path: string, file: string)

  function Destinations(jobs: seq<Job>): (paths: seq<string>)
    ensures |paths| == |jobs| && forall i :: 0 <= i < |jobs| ==> paths[i] == jobs[i].path
  {
    seq(|jobs|, i requires 0 <= i < |jobs| => jobs[i].path)
  }

  /** Each distinct non-empty destination, in first-seen order. */
  method UniqueRemoteDirs(jobs: seq<Job>) returns (dirs: seq<string>)
    ensures forall d :: d in dirs <==> d in Destinations(jobs) && d != ""
    ensures forall i, j :: 0 <= i < j < |dirs| ==>
            FirstAt(Destinations(jobs), dirs[i]) < FirstAt(Destinations(jobs), dirs[j])
  {
    dirs := [];
    var seen: set<string> := {};
    ghost var paths := Destinations(jobs);
    for i := 0 to |jobs|
      invariant forall d :: d in dirs <==> d in seen
      invariant forall d :: d in seen <==> d in paths[..i] && d != ""
      invariant forall k :: 0 <= k < |dirs| ==> FirstAt(paths, dirs[k]) < i
      invariant forall j, k :: 0 <= j < k < |dirs| ==> FirstAt(paths, dirs[j]) < FirstAt(paths, dirs[k])
    {
      assert paths[..i + 1] == paths[..i] + [paths[i]];
      var path := jobs[i].path;
      if path == "" || path in seen { continue; }
      FirstAtIs(paths, i);
      seen := seen + {path};
      dirs := dirs + [path];
    }
    assert paths[..|paths|] == paths;
  }

  function FirstAt(paths: seq<string>, d: string): nat {
    if paths == [] || paths[0] == d then 0 else 1 + FirstAt(paths[1..], d)
  }

  lemma {:induction false} FirstAtIs(paths: seq<string>, i: nat)
    requires i < |paths| && paths[i] !in paths[..i]
    ensures FirstAt(paths, paths[i]) == i
  {
    if i > 0 {
      assert paths[0] in paths[..i];
      assert forall d :: d in paths[1..][..i - 1] ==> d in paths[..i];
      FirstAtIs(paths[1..], i - 1);
    }
  }

  class Drive {
    var folders: map<Id, Folder>

    constructor (folders: map<Id, Folder>)
      ensures this.folders == folders
    {
      this.folders := folders;
    }

    /** The first child of that name, if the request gets an answer. */
    method Lookup(at: Id, name: string) returns (child: Option<Id>)
      ensures child.Some? ==> IsChild(folders, at, name, child.value)
      ensures child.None? ==> forall c :: !IsChild(folders, at, name, c)
    {
      if c :| c in folders && folders[c] == Folder(at, name) { return Some(c); }
      return None;
    }

    method Create(at: Id, name: string) returns (child: Id)
      modifies this
      ensures child !in old(folders) && child != ROOT && child != at
      ensures forall i :: i in old(folders) ==> old(folders)[i].parent != child
      ensures folders == old(folders)[child := Folder(at, name)]
    {
      child := FreshId(folders.Keys + (set i | i in folders :: folders[i].parent) + {at});
      folders := folders[child := Folder(at, name)];
    }

    /** Look the segment up, create it if it is missing; either request may fail. */
    method EnsureChild(at: Id, name: string, lookupUp: bool, createUp: bool) returns (child: Option<Id>)
      modifies this
      ensures Extends(old(folders), folders)
      ensures child.Some? ==> IsChild(folders, at, name, child.value)
      ensures (exists c: Id :: IsChild(old(folders), at, name, c)) ==> folders == old(folders)
      ensures child.None? <==> !lookupUp || (!createUp && !exists c: Id :: IsChild(old(folders), at, name, c))
    {
      if !lookupUp { return None; }
      child := Lookup(at, name);
      if child == None && createUp {
        assert forall i: Id | i in folders :: !IsChild(folders, at, name, i);
        var made := Create(at, name);
        child := Some(made);
      }
    }

    /** `rclone mkdir`, undisturbed; request `k` fails when `!up(k)` and ends the walk. Where the way is
        clear nothing is created. */
    method Mkdir(path: Path, up: nat -> bool) returns (ok: bool)
      modifies this
      ensures Extends(old(folders), folders)
      ensures ok ==> Present(folders, path)
      ensures (forall k :: up(k)) ==> ok
      ensures Clear(old(folders), ROOT, path) ==> folders == old(folders)
    {
      var at := ROOT;
      for i := 0 to |path|
        invariant Extends(old(folders), folders)
        invariant Leads(folders, ROOT, path[..i], at)
        invariant Clear(old(folders), ROOT, path) ==> folders == old(folders) && Clear(folders, at, path[i..])
      {
        ghost var before := folders;
        var child := EnsureChild(at, path[i], up(2 * i), up(2 * i + 1));
        ExtendsTransitive(old(folders), before, folders);
        if child == None { return false; }
        LeadsAfterGrowth(before, folders, ROOT, path[..i], at);
        LeadsSnoc(folders, ROOT, path[..i], at, path[i], child.value);
        assert path[..i + 1] == path[..i] + [path[i]];
        assert path[i..][0] == path[i] && path[i..][1..] == path[i + 1..];
        at := child.value;
      }
      assert path[..|path|] == path;
      LeadsIsPresent(folders, path, at);
      return true;
    }

    /** The loop `runBackup` runs before `runJobs`; any failure ends the command. */
    method PrecreateAll(dirs: seq<string>, up: (nat, nat) -> bool) returns (ok: bool)
      modifies this
      ensures Extends(old(folders), folders)
      ensures ok ==> forall d :: d in dirs ==> Present(folders, Components(d))
      ensures (forall i, k :: up(i, k)) ==> ok
    {
      ghost var walks := Walks(dirs);
      for i := 0 to |dirs|
        invariant Extends(old(folders), folders)
        invariant forall w :: w in walks[..i] ==> Present(folders, w)
      {
        ghost var before := folders;
        var walk := Components(dirs[i]);
        var made := Mkdir(walk, (k: nat) => up(i, k));
        ExtendsTransitive(old(folders), before, folders);
        if !made { return false; }
        forall w | w in walks[..i] ensures Present(folders, w) { PresentAfterGrowth(before, folders, w); }
        assert walks[..i + 1] == walks[..i] + [walk];
      }
      WalksOf(dirs);
      return true;
    }

    /** What `runBackup` does with the destinations of its jobs before the workers start. When it succeeds, each job
        is free of trouble in every run from here on if and only if the walk to its own destination was not forked to
        begin with; and all runs leave the folders alone and find all uploads if and only if no walk was. */
    method Prepare(jobs: seq<Job>, up: (nat, nat) -> bool) returns (ok: bool)
      modifies this
      ensures Extends(old(folders), folders)
      ensures (forall i, k :: up(i, k)) ==> ok
      ensures ok ==>
                forall files :: NewNames(files, jobs) ==>
                  (Undisturbed(Remote(folders, files), jobs) <==>
                   forall j :: j in jobs ==> Unforked(old(folders), ROOT, Components(j.path)))
      ensures ok ==>
                forall files, i :: 0 <= i < |jobs| && NewName(files, jobs[i].file) ==>
                  (TroubleFree(Remote(folders, files), jobs, i) <==>
                   Unforked(old(folders), ROOT, Components(jobs[i].path)))
    {
      var dirs := UniqueRemoteDirs(jobs);
      ok := PrecreateAll(dirs, up);
      if ok {
        AllPresent(folders, jobs, dirs);
        forall files | NewNames(files, jobs)
          ensures Undisturbed(Remote(folders, files), jobs) <==>
                  forall j :: j in jobs ==> Unforked(old(folders), ROOT, Components(j.path))
        {
          PreparedIsExact(old(folders), folders, files, jobs);
        }
        forall files, i | 0 <= i < |jobs| && NewName(files, jobs[i].file)
          ensures TroubleFree(Remote(folders, files), jobs, i) <==>
                  Unforked(old(folders), ROOT, Components(jobs[i].path))
        {
          PreparedJob(old(folders), folders, files, jobs, i);
        }
      }
    }
  }

  function Walks(dirs: seq<string>): (walks: seq<Path>)
    ensures |walks| == |dirs| && forall i :: 0 <= i < |dirs| ==> walks[i] == Components(dirs[i])
  {
    seq(|dirs|, i requires 0 <= i < |dirs| => Components(dirs[i]))
  }

  lemma WalksOf(dirs: seq<string>)
    ensures Walks(dirs)[..|dirs|] == Walks(dirs) && forall d :: d in dirs ==> Components(d) in Walks(dirs)
  {
    forall d | d in dirs ensures Components(d) in Walks(dirs) {
      var i :| 0 <= i < |dirs| && dirs[i] == d;
      assert Walks(dirs)[i] == Components(d);
    }
  }

  lemma PresentAfterGrowth(before: map<Id, Folder>, after: map<Id, Folder>, path: Path)
    requires Grows(before, after) && Present(before, path)
    ensures Present(after, path)
  {
    var to: Id :| Leads(before, ROOT, path, to);
    LeadsAfterGrowth(before, after, ROOT, path, to);
  }

  lemma LeadsIsPresent(folders: map<Id, Folder>, path: Path, at: Id)
    requires Leads(folders, ROOT, path, at)
    ensures Present(folders, path)
  {
  }

  /** Some id that is neither the root nor in use. */
  method FreshId(used: set<Id>) returns (id: Id)
    ensures id !in used && id != ROOT
  {
    var rest := used;
    id := 1;
    while rest != {}
      invariant forall i :: i in used ==> i in rest || i < id
      invariant id > 0
      decreases rest
    {
      var i :| i in rest;
      rest := rest - {i};
      if i >= id { id := i + 1; }
    }
  }

  // ----- the workers

  /** A worker walks to its folder for the archive upload, again for the manifest upload, and again for
      the hash check. */
  datatype Phase = Archive | Manifest | Hash

  datatype Pc =
    | Walk(phase: Phase, at: Id, rest: Path)
    | Missing(phase: Phase, at: Id, rest: Path)   // the look-up of rest[0] found nothing
    | Verified(at: Id)
    | NotFound                                    // the hash check did not find the upload
    | Failed

  datatype Worker = Worker(dir: Path, file: string, pc: Pc, landed: Option<Id>)

  datatype State = State(remote: Remote, workers: seq<Worker>)

  datatype Action =
    | Look(w: nat, child: Option<Id>)   // which of the matching children the request returned
    | Make(w: nat, made: Id)
    | Transfer(w: nat)                  // at the folder: put the file, or ask for its hash
    | Fail(w: nat)

  const MANIFEST_SUFFIX := ".manifest.json"

  predicate Enabled(s: State, a: Action) {
    a.w < |s.workers| &&
    var pc := s.workers[a.w].pc;
    match a
    case Look(_, child) =>
      && pc.Walk? && pc.rest != []
      && (match child
          case Some(c) => IsChild(s.remote.folders, pc.at, pc.rest[0], c)
          case None => forall c :: c in s.remote.folders ==> s.remote.folders[c] != Folder(pc.at, pc.rest[0]))
    case Make(_, child) => pc.Missing? && pc.rest != [] && child !in s.remote.folders && child != ROOT
    case Transfer(_) => pc.Walk? && pc.rest == []
    case Fail(_) => pc.Walk? || pc.Missing?
  }

  function Next(s: State, a: Action): State
    requires Enabled(s, a)
  {
    var w := s.workers[a.w];
    match a
    case Look(i, child) =>
      var pc := if child.Some? then Walk(w.pc.phase, child.value, w.pc.rest[1..])
                else if w.pc.phase.Hash? then NotFound
                else Missing(w.pc.phase, w.pc.at, w.pc.rest);
      s.(workers := s.workers[i := w.(pc := pc)])
    case Make(i, child) =>
      State(s.remote.(folders := s.remote.folders[child := Folder(w.pc.at, w.pc.rest[0])]),
            s.workers[i := w.(pc := Walk(w.pc.phase, child, w.pc.rest[1..]))])
    case Transfer(i) =>
      (match w.pc.phase
       case Archive =>
         State(s.remote.(files := s.remote.files + {(w.pc.at, w.file)}),
               s.workers[i := w.(pc := Walk(Manifest, ROOT, w.dir), landed := Some(w.pc.at))])
       case Manifest =>
         State(s.remote.(files := s.remote.files + {(w.pc.at, w.file + MANIFEST_SUFFIX)}),
               s.workers[i := w.(pc := Walk(Hash, ROOT, w.dir))])
       case Hash =>
         var pc := if (w.pc.at, w.file) in s.remote.files then Verified(w.pc.at) else NotFound;
         s.(workers := s.workers[i := w.(pc := pc)]))
    case Fail(i) => s.(workers := s.workers[i := w.(pc := Failed)])
  }

  ghost predicate Steps(s: State, s': State) {
    exists a :: Enabled(s, a) && s' == Next(s, a)
  }

  ghost predicate Fresh(s: State) {
    forall w :: w in s.workers ==> w.pc == Walk(Archive, ROOT, w.dir) && w.landed == None
  }

  ghost predicate Run(run: seq<State>) {
    && |run| > 0
    && Fresh(run[0])
    && forall i :: 0 <= i < |run| - 1 ==> Steps(run[i], run[i + 1])
  }

  /** `(x, name)` is one of the look-ups of the walk. */
  ghost predicate OnWalk(folders: map<Id, Folder>, at: Id, path: Path, x: Id, name: string)
    decreases |path|
  {
    path != [] &&
    ((x == at && name == path[0])
     || exists c: Id :: IsChild(folders, at, path[0], c) && OnWalk(folders, c, path[1..], x, name))
  }

  /** On a clear walk every look-up finds a folder. */
  lemma {:induction false} StepsExist(folders: map<Id, Folder>, at: Id, path: Path, x: Id, name: string)
    requires Clear(folders, at, path) && OnWalk(folders, at, path, x, name)
    ensures exists c: Id :: IsChild(folders, x, name, c)
    decreases |path|
  {
    if !(x == at && name == path[0]) {
      var c: Id :| IsChild(folders, at, path[0], c) && OnWalk(folders, c, path[1..], x, name);
      StepsExist(folders, c, path[1..], x, name);
    }
  }

  /** A folder made off a clear walk leaves the walk as it is. */
  lemma {:induction false} OffWalk(folders: map<Id, Folder>, made: Id, x: Id, name: string, at: Id, path: Path)
    requires made !in folders && Clear(folders, at, path) && !OnWalk(folders, at, path, x, name)
    ensures var after := folders[made := Folder(x, name)];
            && Clear(after, at, path)
            && (forall to: Id :: Leads(folders, at, path, to) <==> Leads(after, at, path, to))
            && (forall y: Id, m :: OnWalk(folders, at, path, y, m) <==> OnWalk(after, at, path, y, m))
    decreases |path|
  {
    if path != [] {
      var after := folders[made := Folder(x, name)];
      var c: Id :| IsChild(folders, at, path[0], c) && Clear(folders, c, path[1..]);
      OffWalk(folders, made, x, name, c, path[1..]);
      assert !(x == at && name == path[0]);
      forall d: Id ensures IsChild(after, at, path[0], d) <==> IsChild(folders, at, path[0], d) {
        assert d == made ==> after[d] == Folder(x, name);
      }
    }
  }

  /** Where worker `w` stands, given the one end of its walk. */
  ghost predicate AtHome(r: Remote, w: Worker, home: Id) {
    && (w.landed.Some? ==> w.landed == Some(home) && (home, w.file) in r.files)
    && match w.pc
       case Walk(phase, at, rest) =>
         && Leads(r.folders, at, rest, home) && Clear(r.folders, at, rest)
         && (forall x: Id, name :: OnWalk(r.folders, at, rest, x, name) ==> OnWalk(r.folders, ROOT, w.dir, x, name))
         && (!phase.Archive? ==> w.landed.Some?)
       case Missing(_, _, _) => false
       case Verified(at) => at == home && w.landed.Some?
       case NotFound => false
       case Failed => true
  }

  /** Nobody is about to make a folder that a look-up of the walk would see. */
  ghost predicate NobodyForks(s: State, dir: Path) {
    forall w :: w in s.workers && w.pc.Missing? && w.pc.rest != [] ==>
      !OnWalk(s.remote.folders, ROOT, dir, w.pc.at, w.pc.rest[0])
  }

  /** Worker `i` is fine, whatever the others do. */
  ghost predicate Settled(s: State, i: nat, home: Id) {
    && i < |s.workers|
    && Clear(s.remote.folders, ROOT, s.workers[i].dir)
    && Leads(s.remote.folders, ROOT, s.workers[i].dir, home)
    && AtHome(s.remote, s.workers[i], home)
    && NobodyForks(s, s.workers[i].dir)
  }

  lemma LookKeepsSettled(s: State, a: Action, i: nat, home: Id)
    requires Settled(s, i, home) && a.Look? && Enabled(s, a)
    ensures Settled(Next(s, a), i, home)
  {
    var s', pc := Next(s, a), s.workers[a.w].pc;
    var dir := s.workers[i].dir;
    if a.child == None {
      if OnWalk(s.remote.folders, ROOT, dir, pc.at, pc.rest[0]) {
        StepsExist(s.remote.folders, ROOT, dir, pc.at, pc.rest[0]);
      }
    }
    if a.w == i {
      var c: Id :| IsChild(s.remote.folders, pc.at, pc.rest[0], c) && Clear(s.remote.folders, c, pc.rest[1..]);
      assert a.child == Some(c);
    }
    forall w | w in s'.workers && w.pc.Missing? && w.pc.rest != []
      ensures !OnWalk(s'.remote.folders, ROOT, dir, w.pc.at, w.pc.rest[0])
    {
      var j :| 0 <= j < |s'.workers| && s'.workers[j] == w;
      assert j != a.w ==> s.workers[j] in s.workers;
    }
  }

  lemma MakeKeepsSettled(s: State, a: Action, i: nat, home: Id)
    requires Settled(s, i, home) && a.Make? && Enabled(s, a)
    ensures Settled(Next(s, a), i, home)
  {
    var s', pc, w := Next(s, a), s.workers[a.w].pc, s.workers[i];
    var x, name := pc.at, pc.rest[0];
    assert s.workers[a.w] in s.workers && w in s.workers;
    OffWalk(s.remote.folders, a.made, x, name, ROOT, w.dir);
    if w.pc.Walk? { OffWalk(s.remote.folders, a.made, x, name, w.pc.at, w.pc.rest); }
    forall v | v in s'.workers && v.pc.Missing? && v.pc.rest != []
      ensures !OnWalk(s'.remote.folders, ROOT, w.dir, v.pc.at, v.pc.rest[0])
    {
      var j :| 0 <= j < |s'.workers| && s'.workers[j] == v;
      assert j != a.w && s.workers[j] in s.workers;
    }
  }

  /** A worker that is not about to make a folder forks nothing. */
  lemma StillNobodyForks(s: State, s': State, w: nat, dir: Path)
    requires NobodyForks(s, dir) && s'.remote.folders == s.remote.folders
    requires w < |s'.workers| == |s.workers| && !s'.workers[w].pc.Missing?
    requires forall j :: 0 <= j < |s.workers| && j != w ==> s'.workers[j] == s.workers[j]
    ensures NobodyForks(s', dir)
  {
    forall v | v in s'.workers && v.pc.Missing? && v.pc.rest != []
      ensures !OnWalk(s'.remote.folders, ROOT, dir, v.pc.at, v.pc.rest[0])
    {
      var j :| 0 <= j < |s'.workers| && s'.workers[j] == v;
      assert s.workers[j] in s.workers;
    }
  }

  lemma TransferKeepsSettled(s: State, a: Action, i: nat, home: Id)
    requires Settled(s, i, home) && a.Transfer? && Enabled(s, a)
    ensures Settled(Next(s, a), i, home)
  {
    var s' := Next(s, a);
    assert s.remote.files <= s'.remote.files;
    assert AtHome(s'.remote, s'.workers[i], home);
    StillNobodyForks(s, s', a.w, s.workers[i].dir);
  }

  lemma FailKeepsSettled(s: State, a: Action, i: nat, home: Id)
    requires Settled(s, i, home) && a.Fail? && Enabled(s, a)
    ensures Settled(Next(s, a), i, home)
  {
    StillNobodyForks(s, Next(s, a), a.w, s.workers[i].dir);
  }

  lemma StepKeepsSettled(s: State, a: Action, i: nat, home: Id)
    requires Settled(s, i, home) && Enabled(s, a)
    ensures Settled(Next(s, a), i, home) && Next(s, a).workers[i].dir == s.workers[i].dir
  {
    match a
    case Look(_, _) => LookKeepsSettled(s, a, i, home);
    case Make(_, _) => MakeKeepsSettled(s, a, i, home);
    case Transfer(_) => TransferKeepsSettled(s, a, i, home);
    case Fail(_) => FailKeepsSettled(s, a, i, home);
  }

  lemma {:induction false} RunKeepsSettled(run: seq<State>, k: nat, i: nat, home: Id)
    requires Run(run) && k < |run| && i < |run[0].workers|
    requires Clear(run[0].remote.folders, ROOT, run[0].workers[i].dir)
    requires Leads(run[0].remote.folders, ROOT, run[0].workers[i].dir, home)
    ensures |run[k].workers| == |run[0].workers| && run[k].workers[i].dir == run[0].workers[i].dir
    ensures Settled(run[k], i, home)
  {
    if k == 0 {
      assert run[0].workers[i] in run[0].workers;
    } else {
      RunKeepsSettled(run, k - 1, i, home);
      assert Steps(run[k - 1], run[k - 1 + 1]);
      var a :| Enabled(run[k - 1], a) && run[k] == Next(run[k - 1], a);
      StepKeepsSettled(run[k - 1], a, i, home);
    }
  }

  /** A job with one way to its destination beforehand is safe whatever the other jobs race for: nobody makes a
      folder on its walk, it never makes one itself, and its hash check looks in the one folder the upload landed
      in and finds the upload there. */
  lemma NoDuplicateFolders(run: seq<State>, k: nat, i: nat)
    requires Run(run) && k < |run| && i < |run[0].workers|
    requires Clear(run[0].remote.folders, ROOT, run[0].workers[i].dir)
    ensures |run[k].workers| == |run[0].workers|
    ensures var w := run[k].workers[i];
            && w.dir == run[0].workers[i].dir && Clear(run[k].remote.folders, ROOT, w.dir)
            && (forall to: Id :: Leads(run[k].remote.folders, ROOT, w.dir, to) <==>
                Leads(run[0].remote.folders, ROOT, w.dir, to))
            && !w.pc.NotFound? && !w.pc.Missing?
            && (w.pc.Verified? ==> w.landed == Some(w.pc.at) && Leads(run[k].remote.folders, ROOT, w.dir, w.pc.at))
  {
    var dir := run[0].workers[i].dir;
    ClearIsUnforkedAndPresent(run[0].remote.folders, ROOT, dir);
    var home: Id :| Leads(run[0].remote.folders, ROOT, dir, home);
    RunKeepsSettled(run, k, i, home);
    ClearIsUnforkedAndPresent(run[k].remote.folders, ROOT, dir);
    forall to: Id ensures Leads(run[k].remote.folders, ROOT, dir, to) ==> to == home {
      if Leads(run[k].remote.folders, ROOT, dir, to) { ClearLeadsToOne(run[k].remote.folders, ROOT, dir, to, home); }
    }
    forall to: Id ensures Leads(run[0].remote.folders, ROOT, dir, to) ==> to == home {
      if Leads(run[0].remote.folders, ROOT, dir, to) { ClearLeadsToOne(run[0].remote.folders, ROOT, dir, to, home); }
    }
  }

  /** With one way to every destination nobody makes any folder. */
  lemma {:induction false} RunKeepsFolders(run: seq<State>, k: nat)
    requires Run(run) && k < |run|
    requires forall w :: w in run[0].workers ==> Clear(run[0].remote.folders, ROOT, w.dir)
    ensures run[k].remote.folders == run[0].remote.folders
    ensures forall w :: w in run[k].workers ==> !w.pc.NotFound?
  {
    forall w | w in run[k].workers ensures !w.pc.NotFound? {
      SizeStays(run, k);
      var i :| 0 <= i < |run[k].workers| && run[k].workers[i] == w;
      assert run[0].workers[i] in run[0].workers;
      NoDuplicateFolders(run, k, i);
    }
    if k > 0 {
      RunKeepsFolders(run, k - 1);
      SizeStays(run, k - 1);
      assert Steps(run[k - 1], run[k - 1 + 1]);
      var a :| Enabled(run[k - 1], a) && run[k] == Next(run[k - 1], a);
      assert run[0].workers[a.w] in run[0].workers;
      NoDuplicateFolders(run, k - 1, a.w);
    }
  }

  lemma {:induction false} SizeStays(run: seq<State>, k: nat)
    requires Run(run) && k < |run|
    ensures |run[k].workers| == |run[0].workers|
  {
    if k > 0 {
      SizeStays(run, k - 1);
      assert Steps(run[k - 1], run[k - 1 + 1]);
    }
  }

  // ----- a clear way is needed, too

  function Starting(job: Job): Worker {
    Worker(Components(job.path), job.file, Walk(Archive, ROOT, Components(job.path)), None)
  }

  function Start(r: Remote, jobs: seq<Job>): State {
    State(r, seq(|jobs|, i requires 0 <= i < |jobs| => Starting(jobs[i])))
  }

  /** Archive names carry the time of the run; none is on the remote yet. */
  ghost predicate NewNames(files: set<(Id, string)>, jobs: seq<Job>) {
    forall f, j :: f in files && j in jobs ==> f.1 != j.file
  }

  /** A folder was made, or a hash check missed the upload. */
  predicate Spoilt(r: Remote, s: State) {
    s.remote.folders != r.folders || exists w :: w in s.workers && w.pc.NotFound?
  }

  ghost predicate Reachable(start: State, s: State) {
    exists run: seq<State> :: Run(run) && run[0] == start && run[|run| - 1] == s
  }

  /** In no run of these jobs from this remote is a folder made or an upload missed. */
  ghost predicate Undisturbed(r: Remote, jobs: seq<Job>) {
    forall s :: Reachable(Start(r, jobs), s) ==> !Spoilt(r, s)
  }

  lemma Reached(start: State, s: State, a: Action)
    requires Reachable(start, s) && Enabled(s, a)
    ensures Reachable(start, Next(s, a))
  {
    var run: seq<State> :| Run(run) && run[0] == start && run[|run| - 1] == s;
    var longer := run + [Next(s, a)];
    assert Steps(s, Next(s, a));
    forall i | 0 <= i < |longer| - 1 ensures Steps(longer[i], longer[i + 1]) {
      if i < |run| - 1 { assert Steps(run[i], run[i + 1]); }
    }
    assert Run(longer);
  }

  function Moved(s: State, i: nat, pc: Pc): State
    requires i < |s.workers|
  {
    s.(workers := s.workers[i := s.workers[i].(pc := pc)])
  }

  /** A worker can be sent to any end of its walk. */
  lemma {:induction false} WalkTo(start: State, s: State, i: nat, to: Id)
    requires Reachable(start, s) && i < |s.workers| && s.workers[i].pc.Walk?
    requires var pc := s.workers[i].pc; Leads(s.remote.folders, pc.at, pc.rest, to)
    ensures Reachable(start, Moved(s, i, Walk(s.workers[i].pc.phase, to, [])))
    decreases |s.workers[i].pc.rest|
  {
    var pc := s.workers[i].pc;
    if pc.rest == [] {
      assert Moved(s, i, Walk(pc.phase, to, [])) == s;
    } else {
      var c: Id :| IsChild(s.remote.folders, pc.at, pc.rest[0], c) && Leads(s.remote.folders, c, pc.rest[1..], to);
      Reached(start, s, Look(i, Some(c)));
      var s' := Moved(s, i, Walk(pc.phase, c, pc.rest[1..]));
      assert s' == Next(s, Look(i, Some(c)));
      WalkTo(start, s', i, to);
      assert Moved(s', i, Walk(pc.phase, to, [])) == Moved(s, i, Walk(pc.phase, to, []));
    }
  }

  /** Some walk comes to a folder that is missing. */
  ghost predicate GetsStuck(folders: map<Id, Folder>, at: Id, path: Path)
    decreases |path|
  {
    path != [] &&
    ((forall c: Id :: !IsChild(folders, at, path[0], c))
     || exists c: Id :: IsChild(folders, at, path[0], c) && GetsStuck(folders, c, path[1..]))
  }

  lemma {:induction false} StuckComesToMissing(start: State, s: State, i: nat) returns (s': State)
    requires Reachable(start, s) && i < |s.workers| && s.workers[i].pc.Walk? && s.workers[i].pc.phase.Archive?
    requires var pc := s.workers[i].pc; GetsStuck(s.remote.folders, pc.at, pc.rest)
    ensures Reachable(start, s') && s'.remote == s.remote && |s'.workers| == |s.workers|
    ensures s'.workers[i].pc.Missing? && s'.workers[i].pc.rest != []
    decreases |s.workers[i].pc.rest|
  {
    var pc := s.workers[i].pc;
    if forall c: Id :: !IsChild(s.remote.folders, pc.at, pc.rest[0], c) {
      assert forall c :: c in s.remote.folders ==> !IsChild(s.remote.folders, pc.at, pc.rest[0], c);
      Reached(start, s, Look(i, None));
      s' := Next(s, Look(i, None));
    } else {
      var c: Id :| IsChild(s.remote.folders, pc.at, pc.rest[0], c) && GetsStuck(s.remote.folders, c, pc.rest[1..]);
      Reached(start, s, Look(i, Some(c)));
      s' := StuckComesToMissing(start, Next(s, Look(i, Some(c))), i);
    }
  }

  lemma MissingIsMade(start: State, s: State, i: nat) returns (s': State)
    requires Reachable(start, s) && i < |s.workers| && s.workers[i].pc.Missing? && s.workers[i].pc.rest != []
    ensures Reachable(start, s') && s'.remote.folders != s.remote.folders
  {
    var made := Beyond(s.remote.folders.Keys);
    Reached(start, s, Make(i, made));
    s' := Next(s, Make(i, made));
    assert made in s'.remote.folders && made !in s.remote.folders;
  }

  lemma {:induction false} Beyond(used: set<Id>) returns (bound: Id)
    ensures bound > ROOT && forall i :: i in used ==> i < bound
    decreases |used|
  {
    bound := 1;
    if used != {} {
      var i: Id :| i in used;
      var others := used - {i};
      var rest := Beyond(others);
      bound := if i < rest then rest else i + 1;
      forall j | j in used ensures j < bound { assert j == i || j in others; }
    }
  }

  lemma {:induction false} NeverStuckLeadsOn(folders: map<Id, Folder>, at: Id, path: Path) returns (to: Id)
    requires !GetsStuck(folders, at, path)
    ensures Leads(folders, at, path, to)
    decreases |path|
  {
    if path == [] { return at; }
    var c: Id :| IsChild(folders, at, path[0], c);
    to := NeverStuckLeadsOn(folders, c, path[1..]);
  }

  /** A folder has one parent, so walks of one length that meet at the end began together. */
  lemma {:induction false} OneWayUp(folders: map<Id, Folder>, c: Id, d: Id, path: Path, to: Id)
    requires Leads(folders, c, path, to) && Leads(folders, d, path, to)
    ensures c == d
    decreases |path|
  {
    if path != [] {
      var c1: Id :| IsChild(folders, c, path[0], c1) && Leads(folders, c1, path[1..], to);
      var d1: Id :| IsChild(folders, d, path[0], d1) && Leads(folders, d1, path[1..], to);
      OneWayUp(folders, c1, d1, path[1..], to);
    }
  }

  /** What is not clear gets stuck somewhere or ends in two places. */
  lemma {:induction false} NotClear(folders: map<Id, Folder>, at: Id, path: Path) returns (a: Id, b: Id)
    requires !Clear(folders, at, path) && !GetsStuck(folders, at, path)
    ensures a != b && Leads(folders, at, path, a) && Leads(folders, at, path, b)
    decreases |path|
  {
    var c: Id :| IsChild(folders, at, path[0], c);
    if Clear(folders, c, path[1..]) {
      var d: Id :| IsChild(folders, at, path[0], d) && d != c;
      a := NeverStuckLeadsOn(folders, c, path[1..]);
      b := NeverStuckLeadsOn(folders, d, path[1..]);
      if a == b { OneWayUp(folders, c, d, path[1..], a); }
    } else {
      a, b := NotClear(folders, c, path[1..]);
    }
  }

  /** One walk to an end of the worker's choice, and what it does there. */
  lemma Round(start: State, s: State, i: nat, to: Id) returns (s': State)
    requires Reachable(start, s) && i < |s.workers|
    requires var w := s.workers[i];
             w.pc.Walk? && w.pc == Walk(w.pc.phase, ROOT, w.dir) && Leads(s.remote.folders, ROOT, w.dir, to)
    ensures Reachable(start, s') && s'.remote.folders == s.remote.folders && |s'.workers| == |s.workers|
    ensures s'.workers[i].dir == s.workers[i].dir && s'.workers[i].file == s.workers[i].file
    ensures var w, file := s.workers[i], s.workers[i].file;
            match w.pc.phase
            case Archive =>
              s'.workers[i].pc == Walk(Manifest, ROOT, w.dir) && s'.remote.files == s.remote.files + {(to, file)}
            case Manifest =>
              s'.workers[i].pc == Walk(Hash, ROOT, w.dir) &&
              s'.remote.files == s.remote.files + {(to, file + ".manifest.json")}
            case Hash => (to, file) !in s.remote.files ==> s'.workers[i].pc.NotFound?
  {
    WalkTo(start, s, i, to);
    var there := Moved(s, i, Walk(s.workers[i].pc.phase, to, []));
    Reached(start, there, Transfer(i));
    s' := Next(there, Transfer(i));
  }

  /** The upload goes to one end of the walk, the hash check to the other. */
  lemma TwoEndsMissUpload(start: State, i: nat, a: Id, b: Id) returns (s: State)
    requires Fresh(start) && i < |start.workers| && a != b
    requires forall f :: f in start.remote.files ==> f.1 != start.workers[i].file
    requires Leads(start.remote.folders, ROOT, start.workers[i].dir, a) &&
             Leads(start.remote.folders, ROOT, start.workers[i].dir, b)
    ensures Reachable(start, s) && s.remote.folders == start.remote.folders
    ensures i < |s.workers| && s.workers[i].pc.NotFound?
  {
    assert start.workers[i] in start.workers && Run([start]) && Reachable(start, start);
    s := Round(start, start, i, a);
    s := Round(start, s, i, a);
    assert (b, start.workers[i].file) !in start.remote.files;
    s := Round(start, s, i, b);
  }

  /** Over all runs no folder is made and no hash check misses if and only if the way to every destination is clear. */
  lemma UndisturbedExactly(r: Remote, jobs: seq<Job>)
    requires NewNames(r.files, jobs)
    ensures Undisturbed(r, jobs) <==> forall j :: j in jobs ==> Clear(r.folders, ROOT, Components(j.path))
  {
    if forall j :: j in jobs ==> Clear(r.folders, ROOT, Components(j.path)) {
      forall s | Reachable(Start(r, jobs), s) ensures !Spoilt(r, s) { ClearStaysClean(r, jobs, s); }
    } else {
      var i :| 0 <= i < |jobs| && !Clear(r.folders, ROOT, Components(jobs[i].path));
      var s := Spoiling(r, jobs, i);
    }
  }

  lemma ClearStaysClean(r: Remote, jobs: seq<Job>, s: State)
    requires forall j :: j in jobs ==> Clear(r.folders, ROOT, Components(j.path))
    requires Reachable(Start(r, jobs), s)
    ensures !Spoilt(r, s)
  {
    var run: seq<State> :| Run(run) && run[0] == Start(r, jobs) && run[|run| - 1] == s;
    forall w | w in run[0].workers ensures Clear(run[0].remote.folders, ROOT, w.dir) {
      var i :| 0 <= i < |jobs| && run[0].workers[i] == w;
      assert jobs[i] in jobs;
    }
    RunKeepsFolders(run, |run| - 1);
  }

  lemma Spoiling(r: Remote, jobs: seq<Job>, i: nat) returns (s: State)
    requires i < |jobs| && NewNames(r.files, jobs) && !Clear(r.folders, ROOT, Components(jobs[i].path))
    ensures Reachable(Start(r, jobs), s) && Spoilt(r, s)
  {
    assert jobs[i] in jobs;
    s := Troubling(r, jobs, i);
    if s.workers[i].pc.Missing? && s.remote.folders == r.folders {
      s := MissingIsMade(Start(r, jobs), s, i);
    } else {
      assert s.workers[i] in s.workers;
    }
  }

  // ----- one job alone

  /** The worker came to a folder that is missing, which it then makes, or its hash check missed the upload. */
  predicate Troubled(s: State, i: nat) {
    i < |s.workers| && ((s.workers[i].pc.Missing? && s.workers[i].pc.rest != []) || s.workers[i].pc.NotFound?)
  }

  ghost predicate TroubleFree(r: Remote, jobs: seq<Job>, i: nat) {
    forall s :: Reachable(Start(r, jobs), s) ==> !Troubled(s, i)
  }

  ghost predicate NewName(files: set<(Id, string)>, file: string) {
    forall f :: f in files ==> f.1 != file
  }

  lemma Troubling(r: Remote, jobs: seq<Job>, i: nat) returns (s: State)
    requires i < |jobs| && NewName(r.files, jobs[i].file) && !Clear(r.folders, ROOT, Components(jobs[i].path))
    ensures Reachable(Start(r, jobs), s) && Troubled(s, i)
  {
    var start, path := Start(r, jobs), Components(jobs[i].path);
    assert Run([start]) && Reachable(start, start);
    if GetsStuck(r.folders, ROOT, path) {
      s := StuckComesToMissing(start, start, i);
    } else {
      var a, b := NotClear(r.folders, ROOT, path);
      s := TwoEndsMissUpload(start, i, a, b);
    }
  }

  /** Over all runs, with whatever the other jobs do, a job is free of trouble if and only if the way to its own
      destination is clear. */
  lemma TroubleFreeExactly(r: Remote, jobs: seq<Job>, i: nat)
    requires i < |jobs| && NewName(r.files, jobs[i].file)
    ensures TroubleFree(r, jobs, i) <==> Clear(r.folders, ROOT, Components(jobs[i].path))
  {
    if Clear(r.folders, ROOT, Components(jobs[i].path)) {
      forall s | Reachable(Start(r, jobs), s) ensures !Troubled(s, i) {
        var run: seq<State> :| Run(run) && run[0] == Start(r, jobs) && run[|run| - 1] == s;
        NoDuplicateFolders(run, |run| - 1, i);
      }
    } else {
      var s := Troubling(r, jobs, i);
    }
  }

  // ----- from the jobs to the run

  /** A job without a destination works in the root. */
  lemma AllPresent(folders: map<Id, Folder>, jobs: seq<Job>, dirs: seq<string>)
    requires forall d :: d in dirs ==> Present(folders, Components(d))
    requires forall d :: d in Destinations(jobs) && d != "" ==> d in dirs
    ensures forall j :: j in jobs ==> Present(folders, Components(j.path))
  {
    forall j | j in jobs ensures j.path in Destinations(jobs) {
      var i :| 0 <= i < |jobs| && jobs[i] == j;
      assert Destinations(jobs)[i] == j.path;
    }
    assert Split("", '/') == [""];
    assert Components("") == [];
    assert Leads(folders, ROOT, [], ROOT);
  }

  lemma PreparedWalk(before: map<Id, Folder>, after: map<Id, Folder>, walk: Path)
    requires Extends(before, after) && Present(after, walk)
    ensures Clear(after, ROOT, walk) <==> Unforked(before, ROOT, walk)
  {
    ClearIsUnforkedAndPresent(after, ROOT, walk);
    ExtendsUnforked(before, after, ROOT, walk);
  }

  lemma PreparedJob(before: map<Id, Folder>, after: map<Id, Folder>, files: set<(Id, string)>, jobs: seq<Job>, i: nat)
    requires Extends(before, after) && i < |jobs| && NewName(files, jobs[i].file)
    requires forall j :: j in jobs ==> Present(after, Components(j.path))
    ensures TroubleFree(Remote(after, files), jobs, i) <==> Unforked(before, ROOT, Components(jobs[i].path))
  {
    assert jobs[i] in jobs;
    TroubleFreeExactly(Remote(after, files), jobs, i);
    PreparedWalk(before, after, Components(jobs[i].path));
  }

  lemma PreparedIsExact(before: map<Id, Folder>, after: map<Id, Folder>, files: set<(Id, string)>, jobs: seq<Job>)
    requires Extends(before, after) && NewNames(files, jobs)
    requires forall j :: j in jobs ==> Present(after, Components(j.path))
    ensures Undisturbed(Remote(after, files), jobs) <==>
            forall j :: j in jobs ==> Unforked(before, ROOT, Components(j.path))
  {
    UndisturbedExactly(Remote(after, files), jobs);
    forall j | j in jobs
      ensures Clear(after, ROOT, Components(j.path)) <==> Unforked(before, ROOT, Components(j.path))
    {
      PreparedWalk(before, after, Components(j.path));
    }
  }

  // ----- the race the pre-creation closes

  const DIR_A: Path := ["stage", "a"]
  const DIR_B: Path := ["stage", "b"]

  /** Folders 1, 2 and 3 in the order they are made; 1 and 2 are the two copies of `stage`. */
  function Made(n: nat): map<Id, Folder> {
    if n == 0 then map[]
    else if n == 1 then Made(0)[1 := Folder(ROOT, "stage")]
    else if n == 2 then Made(1)[2 := Folder(ROOT, "stage")]
    else Made(2)[3 := Folder(1, "a")]
  }

  function Two(folders: nat, files: set<(Id, string)>, a: Pc, landed: Option<Id>, b: Pc): State {
    State(Remote(Made(folders), files), [Worker(DIR_A, "x", a, landed), Worker(DIR_B, "y", b, None)])
  }

  function Race(i: nat): (State, Action) {
    var none: set<(Id, string)> := {};
    var up := none + {(3, "x")};
    var all := up + {(3, "x" + MANIFEST_SUFFIX)};
    var behind := Missing(Archive, ROOT, DIR_B);
    var ready := Walk(Archive, 2, DIR_B[1..]);
    match i
    case 0 => (Two(0, none, Walk(Archive, ROOT, DIR_A), None, Walk(Archive, ROOT, DIR_B)), Look(0, None))
    case 1 => (Two(0, none, Missing(Archive, ROOT, DIR_A), None, Walk(Archive, ROOT, DIR_B)), Look(1, None))
    case 2 => (Two(0, none, Missing(Archive, ROOT, DIR_A), None, behind), Make(0, 1))
    case 3 => (Two(1, none, Walk(Archive, 1, DIR_A[1..]), None, behind), Make(1, 2))
    case 4 => (Two(2, none, Walk(Archive, 1, DIR_A[1..]), None, ready), Look(0, None))
    case 5 => (Two(2, none, Missing(Archive, 1, DIR_A[1..]), None, ready), Make(0, 3))
    case 6 => (Two(3, none, Walk(Archive, 3, DIR_A[1..][1..]), None, ready), Transfer(0))
    case 7 => (Two(3, up, Walk(Manifest, ROOT, DIR_A), Some(3), ready), Look(0, Some(1)))
    case 8 => (Two(3, up, Walk(Manifest, 1, DIR_A[1..]), Some(3), ready), Look(0, Some(3)))
    case 9 => (Two(3, up, Walk(Manifest, 3, DIR_A[1..][1..]), Some(3), ready), Transfer(0))
    case 10 => (Two(3, all, Walk(Hash, ROOT, DIR_A), Some(3), ready), Look(0, Some(2)))
    case 11 => (Two(3, all, Walk(Hash, 2, DIR_A[1..]), Some(3), ready), Look(0, None))
    case _ => (Two(3, all, NotFound, Some(3), ready), Fail(1))
  }

  lemma RaceMoves(i: nat)
    requires i < 12
    ensures Steps(Race(i).0, Race(i + 1).0)
  {
    var (s, a) := Race(i);
    assert Enabled(s, a) && Race(i + 1).0 == Next(s, a) by {
      if i < 6 { EarlyRace(i); } else { LateRace(i); }
    }
  }

  lemma EarlyRace(i: nat)
    requires i < 6
    ensures Enabled(Race(i).0, Race(i).1) && Race(i + 1).0 == Next(Race(i).0, Race(i).1)
  {
    match i
    case 0 => case 1 => case 2 => case 3 => case 4 => case 5 =>
  }

  lemma LateRace(i: nat)
    requires 6 <= i < 12
    ensures Enabled(Race(i).0, Race(i).1) && Race(i + 1).0 == Next(Race(i).0, Race(i).1)
  {
    match i
    case 6 => case 7 => case 8 => case 9 => case 10 => case 11 =>
  }

  lemma RaceEnds()
    ensures Unambiguous(Race(0).0.remote.folders)
    ensures LostUpload(Race(12).0)
  {
    var folders := Race(12).0.remote.folders;
    assert 1 in folders && 2 in folders && folders[1] == folders[2];
    assert Race(12).0.workers[0].pc.NotFound? && Race(12).0.workers[0].landed.Some?;
  }

  /** Two folders share a path, and a worker's completed upload is not where its hash check looked. */
  predicate LostUpload(s: State) {
    && !Unambiguous(s.remote.folders)
    && exists i :: 0 <= i < |s.workers| && s.workers[i].pc.NotFound? && s.workers[i].landed.Some?
  }

  /** Without the pre-creation two workers that share a missing ancestor can each create it, and the hash
      check of an upload that succeeded then ends in "not found". */
  lemma RaceWithoutPrecreation()
    ensures exists run: seq<State> ::
              Run(run) && Unambiguous(run[0].remote.folders) && LostUpload(run[|run| - 1])
  {
    var run := seq(13, i requires 0 <= i < 13 => Race(i).0);
    forall i | 0 <= i < |run| - 1 ensures Steps(run[i], run[i + 1]) { RaceMoves(i); }
    RaceEnds();
    assert run[0] == Race(0).0 && run[|run| - 1] == Race(12).0;
    assert Run(run);
  }
}
