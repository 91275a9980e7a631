/** Which backups a prune may delete, and what it leaves (rclone/client.go). */
module Retention {
  import opened Text
  import opened Timestamps

  type Bytes = seq<bv8>

  /** `Instant`s and clocks are in nanoseconds since 0000-01-01T00:00:00Z. */
  datatype FileInfo = FileInfo(name: string, size: nat, modTime: string)

  datatype Entry = Directory | File(data: Bytes, modTime: string)

  /** One remote directory; names are unique in it. */
  type Entries = map<string, Entry>

  /** A failed request may still have been carried out. */
  datatype Reply = Done | Refused | Lost

  const MANIFEST_SUFFIX := ".manifest.json"

  predicate IsArchive(entries: Entries, name: string) {
    name in entries && entries[name].File? && !HasSuffix(name, MANIFEST_SUFFIX)
  }

  lemma ManifestName(n: string)
    ensures HasSuffix(n, MANIFEST_SUFFIX) <==> exists stem :: n == stem + ".manifest.json"
  {
    if HasSuffix(n, MANIFEST_SUFFIX) { assert n == n[..|n| - 14] + ".manifest.json"; }
    if stem :| n == stem + ".manifest.json" { assert n[|stem|..] == ".manifest.json"; }
  }

  function Archives(entries: Entries): set<string> {
    set name | name in entries && IsArchive(entries, name)
  }

  function Info(entries: Entries, name: string): FileInfo
    requires IsArchive(entries, name)
  {
    FileInfo(name, |entries[name].data|, entries[name].modTime)
  }

  /** The order `ListFiles` sorts by. */
  predicate NewerText(a: FileInfo, b: FileInfo) {
    LexLess(b.modTime, a.modTime)
  }

  lemma NewerTextStrictWeak()
    ensures StrictWeak(NewerText)
  {
    LexStrictWeak();
  }

  ghost predicate DistinctNames(files: seq<FileInfo>) {
    forall i, j :: 0 <= i < j < |files| ==> files[i].name != files[j].name
  }

  function Names(files: seq<FileInfo>): set<string> {
    set f | f in files :: f.name
  }

  /** A possible result of `ListFiles`; the order of equal modification times is left open. */
  ghost predicate IsListing(entries: Entries, files: seq<FileInfo>) {
    && Ordered(files, NewerText)
    && DistinctNames(files)
    && (forall f :: f in files ==> IsArchive(entries, f.name) && f == Info(entries, f.name))
    && (forall name :: IsArchive(entries, name) ==> Info(entries, name) in files)
  }

  // ----- FilesToPrune

  const DAY: nat := 86400 * NANOS

  /** `time.Now().AddDate(0, 0, -days)` in a zone without clock changes. */
  function Cutoff(now: int, retentionDays: int): int {
    now - retentionDays * DAY
  }

  /** A modification time that does not parse never makes a file old. */
  predicate OlderThan(f: FileInfo, cutoff: int) {
    Parse(f.modTime).Some? && Instant(Parse(f.modTime).value) < cutoff
  }

  function OldBy(cutoff: int): FileInfo -> bool {
    f => OlderThan(f, cutoff)
  }

  function Filter<T>(s: seq<T>, p: T -> bool): (r: seq<T>)
    ensures |r| <= |s|
  {
    if s == [] then []
    else if p(s[0]) then [s[0]] + Filter(s[1..], p)
    else Filter(s[1..], p)
  }

  lemma {:induction false} FilterMembers<T(!new)>(s: seq<T>, p: T -> bool)
    ensures forall x :: x in Filter(s, p) <==> x in s && p(x)
  {
    if s != [] {
      FilterMembers(s[1..], p);
      assert s == [s[0]] + s[1..];
    }
  }

  function Past<T>(s: seq<T>, p: T -> bool, keep: nat): seq<T> {
    if |s| <= keep then [] else Filter(s[keep..], p)
  }

  function Doomed(files: seq<FileInfo>, cutoff: int, keep: nat): seq<FileInfo> {
    Past(files, OldBy(cutoff), keep)
  }

  /** `out` are the elements of `s` at the positions `at`, in order. */
  ghost predicate Picks<T>(s: seq<T>, out: seq<T>, at: seq<nat>) {
    && |at| == |out|
    && (forall k :: 0 <= k < |at| ==> at[k] < |s| && out[k] == s[at[k]])
    && (forall j, k :: 0 <= j < k < |at| ==> at[j] < at[k])
  }

  function Moved(at: seq<nat>, d: nat): seq<nat> {
    seq(|at|, k requires 0 <= k < |at| => at[k] + d)
  }

  lemma MovedMembers(at: seq<nat>, d: nat)
    ensures forall i: nat :: i in Moved(at, d) <==> i >= d && i - d in at
  {
    forall i: nat | i >= d && i - d in at ensures i in Moved(at, d) {
      var k :| 0 <= k < |at| && at[k] == i - d;
      assert Moved(at, d)[k] == i;
    }
  }

  lemma {:induction false} FilterPicks<T>(s: seq<T>, p: T -> bool) returns (at: seq<nat>)
    ensures Picks(s, Filter(s, p), at) && forall i: nat :: i < |s| ==> (i in at <==> p(s[i]))
    decreases |s|
  {
    if s == [] { return []; }
    var last: nat := |s| - 1;
    var before := FilterPicks(s[..last], p);
    FilterConcat(s[..last], [s[last]], p);
    assert s == s[..last] + [s[last]] && Filter([s[last]], p) == if p(s[last]) then [s[last]] else [];
    at := before + if p(s[last]) then [last] else [];
    assert last !in before;
  }

  lemma DoomedPicks(files: seq<FileInfo>, cutoff: int, keep: nat) returns (at: seq<nat>)
    ensures Picks(files, Doomed(files, cutoff, keep), at)
    ensures forall i: nat :: i < |files| ==> (i in at <==> i >= keep && OlderThan(files[i], cutoff))
  {
    if |files| <= keep { return []; }
    var rest := FilterPicks(files[keep..], OldBy(cutoff));
    MovedMembers(rest, keep);
    at := Moved(rest, keep);
    forall i: nat | i < |files| ensures i in at <==> i >= keep && OlderThan(files[i], cutoff) {
      if i >= keep { assert files[keep..][i - keep] == files[i]; }
    }
  }

  /** A day is 24 hours of nanoseconds. */
  lemma OldByDays(f: FileInfo, now: int, days: int)
    ensures OlderThan(f, Cutoff(now, days)) <==>
            Parse(f.modTime).Some? && Instant(Parse(f.modTime).value) < now - days * 86_400_000_000_000
  {
  }

  lemma PickedByDays(files: seq<FileInfo>, now: int, days: int, keep: nat)
    ensures exists at ::
              && Picks(files, Doomed(files, Cutoff(now, days), keep), at)
              && forall i: nat :: i < |files| ==>
                   (i in at <==>
                    && i >= keep && Parse(files[i].modTime).Some?
                    && Instant(Parse(files[i].modTime).value) < now - days * 86_400_000_000_000)
  {
    var at := DoomedPicks(files, Cutoff(now, days), keep);
    forall i: nat | i < |files|
      ensures i in at <==>
              && i >= keep && Parse(files[i].modTime).Some?
              && Instant(Parse(files[i].modTime).value) < now - days * 86_400_000_000_000
    {
      OldByDays(files[i], now, days);
    }
  }

  /** What is past the newest `minFilesToKeep` and, by a time that parses, more than `retentionDays` times 24 hours
      old. A negative `minFilesToKeep` makes the source slice out of range. */
  method FilesToPrune(files: seq<FileInfo>, now: int, retentionDays: int,
                      minFilesToKeep: int) returns (out: seq<FileInfo>)
    requires minFilesToKeep >= 0
    ensures out == Doomed(files, Cutoff(now, retentionDays), minFilesToKeep)
    ensures exists at ::
              && Picks(files, out, at)
              && forall i: nat :: i < |files| ==>
                   (i in at <==>
                    && i >= minFilesToKeep && Parse(files[i].modTime).Some?
                    && Instant(Parse(files[i].modTime).value) < now - retentionDays * 86_400_000_000_000)
  {
    PickedByDays(files, now, retentionDays, minFilesToKeep);
    out := [];
    if |files| <= minFilesToKeep { return; }
    var candidates := files[minFilesToKeep..];
    var expired := OldBy(Cutoff(now, retentionDays));
    for i := 0 to |candidates|
      invariant out + Filter(candidates[i..], expired) == Filter(candidates, expired)
    {
      assert candidates[i..][1..] == candidates[i + 1..];
      if expired(candidates[i]) { out := out + [candidates[i]]; }
    }
  }

  // ----- a listing that is newest first in time

  /** Every modification time is an RFC 3339 timestamp, and all forms in the listing may be mixed. */
  predicate Comparable(files: seq<FileInfo>) {
    && (forall f :: f in files ==> IsStamp(f.modTime))
    && (forall f, g :: f in files && g in files ==>
          Mixable(Parse(f.modTime).value.form, Parse(g.modTime).value.form))
  }

  predicate IsStamp(text: string) {
    match Parse(text)
    case None => false
    case Some(s) => ValidStamp(s) && StampText(s) == text
  }

  function TimeOf(f: FileInfo): int
    requires IsStamp(f.modTime)
  {
    Instant(Parse(f.modTime).value)
  }

  predicate NewestFirst(files: seq<FileInfo>)
    requires forall f :: f in files ==> IsStamp(f.modTime)
  {
    forall i, j :: 0 <= i < j < |files| ==> TimeOf(files[i]) >= TimeOf(files[j])
  }

  /** What `FilesToPrune` expects of its caller. */
  lemma ListingIsNewestFirst(files: seq<FileInfo>)
    requires Comparable(files) && Ordered(files, NewerText)
    ensures NewestFirst(files)
  {
    forall i, j | 0 <= i < j < |files| ensures TimeOf(files[i]) >= TimeOf(files[j]) {
      var a, b := files[i], files[j];
      assert !NewerText(b, a) && a in files && b in files;
      LexTotal(a.modTime, b.modTime);
      if LexLess(b.modTime, a.modTime) {
        MixableInTime(Parse(b.modTime).value, Parse(a.modTime).value);
      }
    }
  }

  function Max(a: nat, b: nat): nat {
    if a < b then b else a
  }

  function Min(a: nat, b: nat): nat {
    if a < b then a else b
  }

  /** Once `p` holds it holds to the end. */
  ghost predicate Sticky<T>(s: seq<T>, p: T -> bool) {
    forall i, j :: 0 <= i < j < |s| && p(s[i]) ==> p(s[j])
  }

  lemma {:induction false} FilterSticky<T>(s: seq<T>, p: T -> bool)
    requires Sticky(s, p)
    ensures Filter(s, p) == s[|s| - |Filter(s, p)|..]
  {
    if s != [] {
      FilterSticky(s[1..], p);
      if p(s[0]) { FilterAll(s, p); }
    }
  }

  lemma {:induction false} FilterAll<T>(s: seq<T>, p: T -> bool)
    requires forall x :: x in s ==> p(x)
    ensures Filter(s, p) == s
  {
    if s != [] {
      FilterAll(s[1..], p);
      assert s == [s[0]] + s[1..];
    }
  }

  lemma {:induction false} FilterConcat<T>(a: seq<T>, b: seq<T>, p: T -> bool)
    ensures Filter(a + b, p) == Filter(a, p) + Filter(b, p)
  {
    if a == [] {
      assert a + b == b;
    } else {
      var rest := a[1..];
      FilterConcat(rest, b, p);
      assert (a + b)[0] == a[0] && (a + b)[1..] == rest + b;
      Prepend(a[0], Filter(rest, p), Filter(b, p));
    }
  }

  lemma Prepend<T>(x: T, a: seq<T>, b: seq<T>)
    ensures [x] + (a + b) == ([x] + a) + b
  {
  }

  /** How many of `s` a complete prune keeps, for any notion `p` of old. */
  function KeptBy<T>(s: seq<T>, p: T -> bool, keep: nat): (k: nat)
    ensures k <= |s|
  {
    Max(Min(|s|, keep), |s| - |Filter(s, p)|)
  }

  /** What lies past the first `keep` and satisfies `p` is everything past one point. */
  lemma PastSticky<T>(s: seq<T>, p: T -> bool, keep: nat)
    requires Sticky(s, p)
    ensures Past(s, p, keep) == s[KeptBy(s, p, keep)..]
  {
    if |s| <= keep {
      PastNothing(s, p, keep);
    } else if p(s[keep]) {
      PastOld(s, p, keep);
    } else {
      PastYoung(s, p, keep);
    }
  }

  lemma PastNothing<T>(s: seq<T>, p: T -> bool, keep: nat)
    requires |s| <= keep
    ensures KeptBy(s, p, keep) == |s| && Past(s, p, keep) == s[|s|..]
  {
  }

  lemma PastOld<T>(s: seq<T>, p: T -> bool, keep: nat)
    requires Sticky(s, p) && keep < |s| && p(s[keep])
    ensures KeptBy(s, p, keep) == keep && Past(s, p, keep) == s[keep..]
  {
    FilterCount(s, p, keep);
    FilterAll(s[keep..], p);
  }

  lemma PastYoung<T>(s: seq<T>, p: T -> bool, keep: nat)
    requires Sticky(s, p) && keep < |s| && !p(s[keep])
    ensures Past(s, p, keep) == s[KeptBy(s, p, keep)..]
  {
    var tail := s[keep..];
    FilterCount(s, p, keep);
    FilterNone(s[..keep], p);
    FilterSticky(tail, p);
    DropDrop(s, keep, |tail| - |Filter(tail, p)|);
  }

  lemma FilterCount<T>(s: seq<T>, p: T -> bool, k: nat)
    requires k <= |s|
    ensures |Filter(s, p)| == |Filter(s[..k], p)| + |Filter(s[k..], p)|
  {
    FilterConcat(s[..k], s[k..], p);
    assert s == s[..k] + s[k..];
  }

  lemma DropDrop<T>(s: seq<T>, i: nat, j: nat)
    requires i + j <= |s|
    ensures s[i..][j..] == s[i + j..]
  {
  }

  lemma {:induction false} FilterNone<T>(s: seq<T>, p: T -> bool)
    requires forall i :: 0 <= i < |s| ==> !p(s[i])
    ensures Filter(s, p) == []
  {
    if s != [] { FilterNone(s[1..], p); }
  }

  /** How many files are not older than the cutoff. */
  function Recent(files: seq<FileInfo>, cutoff: int): nat {
    |files| - |Filter(files, OldBy(cutoff))|
  }

  /** How many files a complete prune keeps. */
  function Kept(files: seq<FileInfo>, cutoff: int, keep: nat): (k: nat)
    ensures k <= |files|
  {
    KeptBy(files, OldBy(cutoff), keep)
  }

  lemma OldIsSticky(files: seq<FileInfo>, cutoff: int)
    requires Comparable(files) && Ordered(files, NewerText)
    ensures Sticky(files, OldBy(cutoff))
  {
    ListingIsNewestFirst(files);
    forall i, j | 0 <= i < j < |files| && OldBy(cutoff)(files[i]) ensures OldBy(cutoff)(files[j]) {
      assert files[j] in files && TimeOf(files[i]) >= TimeOf(files[j]);
    }
  }

  /** The files to prune are exactly what lies past the newest `Kept`. */
  lemma DoomedIsSuffix(files: seq<FileInfo>, cutoff: int, keep: nat)
    requires Comparable(files) && Ordered(files, NewerText)
    ensures Doomed(files, cutoff, keep) == files[Kept(files, cutoff, keep)..]
  {
    OldIsSticky(files, cutoff);
    StickyDoomed(files, cutoff, keep);
  }

  lemma StickyDoomed(files: seq<FileInfo>, cutoff: int, keep: nat)
    requires Sticky(files, OldBy(cutoff))
    ensures Doomed(files, cutoff, keep) == files[Kept(files, cutoff, keep)..]
  {
    PastSticky(files, OldBy(cutoff), keep);
  }

  // ----- the directory

  /** What an upload left behind: the bytes sent, other bytes, or nothing; and whether it reported success. */
  datatype Transfer = Transfer(stored: Option<Bytes>, modTime: string, reported: bool)

  function Sidecar(name: string): string {
    name + MANIFEST_SUFFIX
  }

  lemma SidecarIsNoArchive(entries: Entries, name: string)
    ensures !IsArchive(entries, Sidecar(name))
  {
    assert Sidecar(name)[|name|..] == MANIFEST_SUFFIX;
  }

  function NameSeq(files: seq<FileInfo>): seq<string> {
    if files == [] then [] else NameSeq(files[..|files| - 1]) + [files[|files| - 1].name]
  }

  lemma {:induction false} NameSeqMembers(files: seq<FileInfo>)
    ensures forall n :: n in NameSeq(files) <==> exists f :: f in files && f.name == n
    ensures |NameSeq(files)| == |files|
  {
    if files != [] {
      var last := |files| - 1;
      NameSeqMembers(files[..last]);
      assert files == files[..last] + [files[last]];
    }
  }

  /** Deleting `doomed` in order, stopping at the first reported failure, with best-effort sidecar deletes. */
  ghost predicate PruneEffect(before: Entries, after: Entries, doomed: seq<FileInfo>, pruned: seq<string>, ok: bool) {
    && |pruned| <= |doomed|
    && pruned == NameSeq(doomed[..|pruned|])
    && (ok <==> |pruned| == |doomed|)
    && after.Keys <= before.Keys
    && (forall n :: n in after ==> after[n] == before[n])
    && (forall n :: n in before && n !in after ==> MayGo(doomed, pruned, n))
    && (forall n :: n in pruned ==> n !in after)
  }

  /** Archives of the list, up to the one whose delete failed, and sidecars of deleted archives. */
  ghost predicate MayGo(doomed: seq<FileInfo>, pruned: seq<string>, n: string) {
    || n in pruned
    || (|pruned| < |doomed| && n == doomed[|pruned|].name)
    || (exists m :: m in pruned && n == Sidecar(m))
  }

  /** Request `2 i` deletes archive `i` of the list, request `2 i + 1` its sidecar; from archive `i` on. */
  function DeleteAll(entries: Entries, doomed: seq<FileInfo>, reply: nat -> Reply, i: nat): Entries
    requires i <= |doomed|
    decreases |doomed| - i
  {
    if i == |doomed| then entries
    else if !reply(2 * i).Done? then Without(entries, doomed[i].name, reply(2 * i))
    else DeleteAll(Without(entries - {doomed[i].name}, Sidecar(doomed[i].name), reply(2 * i + 1)), doomed, reply, i + 1)
  }

  function Without(entries: Entries, name: string, reply: Reply): Entries {
    if reply.Refused? then entries else entries - {name}
  }

  /** Which names the requests take away: archives whose delete was carried out, up to the first that did not report
      success, and the sidecars of those before it whose own delete was carried out. */
  ghost predicate TakenAway(doomed: seq<FileInfo>, reply: nat -> Reply, i: nat, n: string) {
    exists j: nat ::
      && i <= j < |doomed| && (forall k :: i <= k < j ==> reply(2 * k).Done?)
      && ((n == doomed[j].name && !reply(2 * j).Refused?)
          || (n == doomed[j].name + ".manifest.json" && reply(2 * j).Done? && !reply(2 * j + 1).Refused?))
  }

  lemma TakenNext(doomed: seq<FileInfo>, reply: nat -> Reply, i: nat, n: string)
    requires i < |doomed|
    ensures TakenAway(doomed, reply, i, n) <==>
            || (n == doomed[i].name && !reply(2 * i).Refused?)
            || (n == doomed[i].name + ".manifest.json" && reply(2 * i).Done? && !reply(2 * i + 1).Refused?)
            || (reply(2 * i).Done? && TakenAway(doomed, reply, i + 1, n))
  {
    if reply(2 * i).Done? && TakenAway(doomed, reply, i + 1, n) {
      var j: nat :|
        && i + 1 <= j < |doomed| && (forall k :: i + 1 <= k < j ==> reply(2 * k).Done?)
        && ((n == doomed[j].name && !reply(2 * j).Refused?)
            || (n == doomed[j].name + ".manifest.json" && reply(2 * j).Done? && !reply(2 * j + 1).Refused?));
      assert forall k :: i <= k < j ==> reply(2 * k).Done?;
    }
  }

  /** What a prune leaves, for every pattern of replies: everything else, as it was. */
  lemma {:induction false} DeletedExactly(entries: Entries, doomed: seq<FileInfo>, reply: nat -> Reply, i: nat)
    requires i <= |doomed|
    ensures forall n :: n in DeleteAll(entries, doomed, reply, i) <==> n in entries && !TakenAway(doomed, reply, i, n)
    ensures forall n :: n in DeleteAll(entries, doomed, reply, i) ==>
            DeleteAll(entries, doomed, reply, i)[n] == entries[n]
    decreases |doomed| - i
  {
    if i < |doomed| {
      forall n { TakenNext(doomed, reply, i, n); }
      if reply(2 * i).Done? {
        var rest := Without(entries - {doomed[i].name}, Sidecar(doomed[i].name), reply(2 * i + 1));
        DeletedExactly(rest, doomed, reply, i + 1);
      }
    }
  }

  predicate AllDone(count: nat, reply: nat -> Reply) {
    forall i :: 0 <= i < count ==> reply(2 * i).Done?
  }

  /** Files that are not manifests, newest first by text. */
  method ListEntries(entries: Entries) returns (files: seq<FileInfo>)
    ensures IsListing(entries, files)
  {
    var rest := entries.Keys;
    files := [];
    while rest != {}
      invariant rest <= entries.Keys
      invariant DistinctNames(files)
      invariant forall f :: f in files ==> IsArchive(entries, f.name) && f.name !in rest && f == Info(entries, f.name)
      invariant forall n :: n in entries.Keys - rest && IsArchive(entries, n) ==> Info(entries, n) in files
      decreases rest
    {
      var name :| name in rest;
      rest := rest - {name};
      if entries[name].Directory? || HasSuffix(name, MANIFEST_SUFFIX) { continue; }
      files := files + [FileInfo(name, |entries[name].data|, entries[name].modTime)];
    }
    NewerTextStrictWeak();
    ghost var unsorted := files;
    files := SortBy(files, NewerText);
    SortedIsListing(entries, unsorted, files);
  }

  class RemoteDir {
    var entries: Entries

    constructor (entries: Entries)
      ensures this.entries == entries
    {
      this.entries := entries;
    }

    /** No listing if the request fails or its output does not parse. */
    method ListFiles(listUp: bool) returns (files: Option<seq<FileInfo>>)
      ensures files.None? <==> !listUp
      ensures files.Some? ==> IsListing(entries, files.value)
      ensures files.Some? ==>
                forall n :: n in Names(files.value) <==>
                  n in entries && entries[n].File? && !exists stem :: n == stem + ".manifest.json"
    {
      if !listUp { return None; }
      var listing := ListEntries(entries);
      forall n ensures n in Names(listing) <==> IsArchive(entries, n) {
        if IsArchive(entries, n) { assert Info(entries, n) in listing; }
      }
      forall n { ManifestName(n); }
      files := Some(listing);
    }

    /** `rclone copy` of one file under its own name. */
    method Upload(name: string, t: Transfer) returns (ok: bool)
      modifies this
      ensures ok == t.reported
      ensures entries == if t.stored.Some? then old(entries)[name := File(t.stored.value, t.modTime)] else old(entries)
    {
      if t.stored.Some? { entries := entries[name := File(t.stored.value, t.modTime)]; }
      return t.reported;
    }

    /** `rclone deletefile`. */
    method DeleteFile(name: string, reply: Reply) returns (ok: bool)
      modifies this
      ensures ok <==> reply.Done?
      ensures entries == if reply.Refused? then old(entries) else old(entries) - {name}
    {
      if !reply.Refused? { entries := entries - {name}; }
      return reply.Done?;
    }

    /** The first failed delete of an archive ends it; sidecars go along as best they can. */
    method DeleteDoomed(doomed: seq<FileInfo>, reply: nat -> Reply) returns (pruned: seq<string>, ok: bool)
      modifies this
      ensures PruneEffect(old(entries), entries, doomed, pruned, ok)
      ensures entries == DeleteAll(old(entries), doomed, reply, 0)
      ensures ok == AllDone(|doomed|, reply)
      ensures ok <==> forall i :: 0 <= i < |doomed| ==> reply(2 * i).Done?
    {
      pruned := [];
      for i := 0 to |doomed|
        invariant |pruned| == i && pruned == NameSeq(doomed[..i])
        invariant PruneEffect(old(entries), entries, doomed[..i], pruned, true)
        invariant DeleteAll(entries, doomed, reply, i) == DeleteAll(old(entries), doomed, reply, 0)
        invariant AllDone(i, reply)
      {
        ghost var before := entries;
        var gone := DeleteFile(doomed[i].name, reply(2 * i));
        assert doomed[..i + 1][..i] == doomed[..i];
        if !gone {
          PruneStops(old(entries), before, entries, doomed, i, pruned);
          return pruned, false;
        }
        ghost var was := pruned;
        pruned := pruned + [doomed[i].name];
        var _ := DeleteFile(Sidecar(doomed[i].name), reply(2 * i + 1));
        PruneGoesOn(old(entries), before, entries, doomed, i, was);
      }
      assert doomed[..|doomed|] == doomed;
      return pruned, true;
    }

    method Prune(now: int, retentionDays: int, minFilesToKeep: int, listUp: bool, reply: nat -> Reply)
      returns (pruned: seq<string>, ok: bool, ghost files: seq<FileInfo>)
      requires minFilesToKeep >= 0
      modifies this
      ensures !listUp ==> !ok && entries == old(entries) && pruned == []
      ensures listUp ==>
                && IsListing(old(entries), files)
                && var doomed := Doomed(files, Cutoff(now, retentionDays), minFilesToKeep);
                && PruneEffect(old(entries), entries, doomed, pruned, ok)
                && entries == DeleteAll(old(entries), doomed, reply, 0)
                && ok == AllDone(|doomed|, reply)
      ensures forall i: nat :: i < |files| && (ok || files[i].name in pruned) ==>
                (files[i].name in pruned <==>
                 && i >= minFilesToKeep && Parse(files[i].modTime).Some?
                 && Instant(Parse(files[i].modTime).value) < now - retentionDays * 86_400_000_000_000)
    {
      files := [];
      var listing := ListFiles(listUp);
      if listing.None? { return [], false, files; }
      files := listing.value;
      var doomed := FilesToPrune(listing.value, now, retentionDays, minFilesToKeep);
      pruned, ok := DeleteDoomed(doomed, reply);
      PrunedAreDoomed(files, Cutoff(now, retentionDays), minFilesToKeep, pruned);
      forall i: nat | i < |files| { OldByDays(files[i], now, retentionDays); }
    }
  }

  lemma PrunedAreDoomed(files: seq<FileInfo>, cutoff: int, keep: nat, pruned: seq<string>)
    requires DistinctNames(files) && |pruned| <= |Doomed(files, cutoff, keep)|
    requires pruned == NameSeq(Doomed(files, cutoff, keep)[..|pruned|])
    ensures forall i: nat :: i < |files| && files[i].name in pruned ==> i >= keep && OlderThan(files[i], cutoff)
    ensures |pruned| == |Doomed(files, cutoff, keep)| ==>
              forall i: nat :: i < |files| && i >= keep && OlderThan(files[i], cutoff) ==> files[i].name in pruned
  {
    var at := DoomedPicks(files, cutoff, keep);
    PickedNames(files, Doomed(files, cutoff, keep), at, pruned);
  }

  lemma PickedNames(files: seq<FileInfo>, doomed: seq<FileInfo>, at: seq<nat>, pruned: seq<string>)
    requires DistinctNames(files) && Picks(files, doomed, at)
    requires |pruned| <= |doomed| && pruned == NameSeq(doomed[..|pruned|])
    ensures forall i: nat :: i < |files| && files[i].name in pruned ==> i in at
    ensures |pruned| == |doomed| ==> forall i: nat :: i < |files| && i in at ==> files[i].name in pruned
  {
    NameSeqMembers(doomed[..|pruned|]);
    forall i: nat | i < |files| && files[i].name in pruned ensures i in at {
      var f :| f in doomed[..|pruned|] && f.name == files[i].name;
      var k :| 0 <= k < |pruned| && doomed[k] == f;
      assert at[k] == i;
    }
    if |pruned| == |doomed| {
      assert doomed[..|pruned|] == doomed;
      forall i: nat | i < |files| && i in at ensures files[i].name in pruned {
        var k :| 0 <= k < |at| && at[k] == i;
        assert doomed[k] in doomed;
      }
    }
  }

  lemma SortedIsListing(entries: Entries, unsorted: seq<FileInfo>, files: seq<FileInfo>)
    requires multiset(unsorted) == multiset(files) && Ordered(files, NewerText) && DistinctNames(unsorted)
    requires forall f :: f in unsorted ==> IsArchive(entries, f.name) && f == Info(entries, f.name)
    requires forall n :: IsArchive(entries, n) ==> Info(entries, n) in unsorted
    ensures IsListing(entries, files)
  {
    assert forall f :: f in files <==> f in multiset(files);
    assert forall f :: f in unsorted <==> f in multiset(unsorted);
    DistinctPermutation(unsorted, files);
    forall i, j | 0 <= i < j < |files| ensures files[i].name != files[j].name {
      assert files[i] in files && files[j] in files && files[i] != files[j];
    }
  }

  /** Newest first, with one name behind all others of the same time. */
  predicate NewerOrTied(a: FileInfo, b: FileInfo, name: string) {
    NewerText(a, b) || (a.modTime == b.modTime && a.name != name && b.name == name)
  }

  function TiedLast(name: string): (FileInfo, FileInfo) -> bool {
    (a, b) => NewerOrTied(a, b, name)
  }

  lemma TiedLastStrictWeak(name: string)
    ensures StrictWeak(TiedLast(name))
  {
    var less := TiedLast(name);
    forall x, y | less(x, y) ensures !less(y, x) {
      LexIrreflexive(x.modTime);
      if LexLess(y.modTime, x.modTime) && LexLess(x.modTime, y.modTime) {
        LexTransitive(x.modTime, y.modTime, x.modTime);
      }
    }
    forall x, y, z | !less(y, x) && !less(z, y) ensures !less(z, x) {
      TiedLastChains(x, y, z, name);
    }
  }

  lemma TiedLastChains(x: FileInfo, y: FileInfo, z: FileInfo, name: string)
    requires !NewerOrTied(y, x, name) && !NewerOrTied(z, y, name)
    ensures !NewerOrTied(z, x, name)
  {
    LexStrictWeak();
    assert !LexLess(x.modTime, y.modTime) && !LexLess(y.modTime, z.modTime) && !LexLess(x.modTime, z.modTime);
    LexTotal(y.modTime, x.modTime);
    LexTotal(z.modTime, y.modTime);
    if z.modTime == x.modTime && x.modTime != y.modTime { LexTransitive(x.modTime, y.modTime, x.modTime); }
  }

  lemma {:induction false} InfosOf(entries: Entries, names: set<string>) returns (files: seq<FileInfo>)
    requires forall n :: n in names ==> IsArchive(entries, n)
    ensures DistinctNames(files) && forall f :: f in files <==> f.name in names && f == Info(entries, f.name)
    decreases |names|
  {
    files := [];
    if names != {} {
      var n :| n in names;
      var rest := InfosOf(entries, names - {n});
      files := rest + [Info(entries, n)];
    }
  }

  /** A listing may put any one archive behind all that have the same time. */
  lemma ListingWithTies(entries: Entries, name: string) returns (files: seq<FileInfo>)
    ensures IsListing(entries, files) && Ordered(files, TiedLast(name))
  {
    var unsorted := InfosOf(entries, Archives(entries));
    TiedLastStrictWeak(name);
    files := SortExists(unsorted, TiedLast(name));
    forall i, j | 0 <= i < j < |files| ensures !NewerText(files[j], files[i]) {
      assert !TiedLast(name)(files[j], files[i]);
    }
    SortedIsListing(entries, unsorted, files);
  }

  lemma PruneStops(start: Entries, before: Entries, after: Entries, doomed: seq<FileInfo>, i: nat, pruned: seq<string>)
    requires i < |doomed| && |pruned| == i && PruneEffect(start, before, doomed[..i], pruned, true)
    requires after == before || after == before - {doomed[i].name}
    ensures PruneEffect(start, after, doomed, pruned, false)
  {
    assert doomed[..i][..i] == doomed[..i];
    forall n | n in start && n !in after ensures MayGo(doomed, pruned, n) {
      if n !in before { assert MayGo(doomed[..i], pruned, n); }
    }
  }

  /** The names of the archives from `i` on, and of their sidecars. */
  function Gone(doomed: seq<FileInfo>, i: nat): set<string>
    requires i <= |doomed|
    decreases |doomed| - i
  {
    if i == |doomed| then {} else {doomed[i].name, Sidecar(doomed[i].name)} + Gone(doomed, i + 1)
  }

  lemma {:induction false} GoneMembers(doomed: seq<FileInfo>, i: nat, k: nat)
    requires i <= k < |doomed|
    ensures doomed[k].name in Gone(doomed, i)
    decreases |doomed| - i
  {
    if i < k { GoneMembers(doomed, i + 1, k); }
  }

  lemma {:induction false} GoneFrom(doomed: seq<FileInfo>, i: nat, n: string)
    requires i <= |doomed| && n in Gone(doomed, i)
    ensures exists k :: i <= k < |doomed| && (n == doomed[k].name || n == Sidecar(doomed[k].name))
    decreases |doomed| - i
  {
    if n != doomed[i].name && n != Sidecar(doomed[i].name) { GoneFrom(doomed, i + 1, n); }
  }

  lemma {:induction false} DeleteAllDone(entries: Entries, doomed: seq<FileInfo>, reply: nat -> Reply, i: nat)
    requires i <= |doomed| && forall k :: reply(k).Done?
    ensures DeleteAll(entries, doomed, reply, i) == entries - Gone(doomed, i)
    decreases |doomed| - i
  {
    if i < |doomed| {
      var name := doomed[i].name;
      DeleteAllDone(entries - {name} - {Sidecar(name)}, doomed, reply, i + 1);
      assert entries - {name} - {Sidecar(name)} - Gone(doomed, i + 1) == entries - Gone(doomed, i);
    }
  }

  /** Every archive of the list deleted, with its sidecar. */
  lemma FullPrune(before: Entries, doomed: seq<FileInfo>, reply: nat -> Reply)
    requires forall k :: reply(k).Done?
    ensures PruneEffect(before, before - Gone(doomed, 0), doomed, NameSeq(doomed), true)
    ensures before - Gone(doomed, 0) == DeleteAll(before, doomed, reply, 0) && AllDone(|doomed|, reply)
  {
    NameSeqMembers(doomed);
    DeleteAllDone(before, doomed, reply, 0);
    assert doomed[..|doomed|] == doomed;
    forall n | n in NameSeq(doomed) ensures n in Gone(doomed, 0) {
      var k :| 0 <= k < |doomed| && doomed[k].name == n;
      GoneMembers(doomed, 0, k);
    }
    forall n | n in Gone(doomed, 0) ensures MayGo(doomed, NameSeq(doomed), n) {
      GoneFrom(doomed, 0, n);
    }
  }

  lemma PruneGoesOn(start: Entries, before: Entries, after: Entries, doomed: seq<FileInfo>, i: nat, was: seq<string>)
    requires i < |doomed| && |was| == i && PruneEffect(start, before, doomed[..i], was, true)
    requires var name := doomed[i].name; after == before - {name} || after == before - {name} - {Sidecar(name)}
    ensures PruneEffect(start, after, doomed[..i + 1], was + [doomed[i].name], true)
  {
    var name, pruned, list := doomed[i].name, was + [doomed[i].name], doomed[..i + 1];
    assert doomed[..i][..i] == doomed[..i];
    assert list[..i + 1] == list && list[..i] == doomed[..i];
    forall n | n in start && n !in after ensures MayGo(list, pruned, n) {
      if n !in before {
        assert MayGo(doomed[..i], was, n);
        if m :| m in was && n == Sidecar(m) { assert m in pruned; }
      } else if n != name {
        assert n == Sidecar(name) && name in pruned;
      }
    }
  }

  // ----- the floor

  lemma PastMembers<T(!new)>(s: seq<T>, p: T -> bool, keep: nat, x: T)
    requires x in Past(s, p, keep)
    ensures exists j :: keep <= j < |s| && s[j] == x && p(x)
  {
    FilterMembers(s[keep..], p);
    var j :| 0 <= j < |s[keep..]| && s[keep..][j] == x;
    assert s[keep + j] == x;
  }

  /** A name that may go belongs to a file past the newest `keep`, or is a sidecar's. */
  lemma OnlyDoomedGo(files: seq<FileInfo>, cutoff: int, keep: nat, pruned: seq<string>, n: string)
    requires var doomed := Doomed(files, cutoff, keep);
             |pruned| <= |doomed| && pruned == NameSeq(doomed[..|pruned|]) && MayGo(doomed, pruned, n)
    ensures HasSuffix(n, MANIFEST_SUFFIX) ||
            exists j :: keep <= j < |files| && files[j].name == n && OlderThan(files[j], cutoff)
  {
    var doomed := Doomed(files, cutoff, keep);
    if m :| m in pruned && n == Sidecar(m) {
      assert n[|m|..] == MANIFEST_SUFFIX;
    } else {
      NameSeqMembers(doomed[..|pruned|]);
      var f :| f in doomed && f.name == n;
      PastMembers(files, OldBy(cutoff), keep, f);
    }
  }

  /** Whatever the replies, the newest `keep` archives of the listing stay, untouched. */
  lemma NewestSurvive(before: Entries, after: Entries, files: seq<FileInfo>, cutoff: int, keep: nat,
                      pruned: seq<string>, ok: bool, i: nat)
    requires IsListing(before, files) && PruneEffect(before, after, Doomed(files, cutoff, keep), pruned, ok)
    requires i < Min(keep, |files|)
    ensures IsArchive(after, files[i].name) && after[files[i].name] == before[files[i].name]
  {
    var n := files[i].name;
    assert files[i] in files;
    if n !in after { OnlyDoomedGo(files, cutoff, keep, pruned, n); }
  }

  /** An archive that is not older than the cutoff stays, untouched. */
  lemma RecentSurvive(before: Entries, after: Entries, files: seq<FileInfo>, cutoff: int, keep: nat,
                      pruned: seq<string>, ok: bool, n: string)
    requires IsListing(before, files) && PruneEffect(before, after, Doomed(files, cutoff, keep), pruned, ok)
    requires IsArchive(before, n) && !OlderThan(Info(before, n), cutoff)
    ensures IsArchive(after, n) && after[n] == before[n]
  {
    if n !in after { OnlyDoomedGo(files, cutoff, keep, pruned, n); }
  }

  lemma {:induction false} NamesCount(files: seq<FileInfo>)
    requires DistinctNames(files)
    ensures |Names(files)| == |files|
  {
    if files != [] {
      var last := |files| - 1;
      NamesCount(files[..last]);
      assert Names(files) == Names(files[..last]) + {files[last].name} by {
        assert files == files[..last] + [files[last]];
      }
      assert files[last].name !in Names(files[..last]);
    }
  }

  lemma ListingCount(entries: Entries, files: seq<FileInfo>)
    requires IsListing(entries, files)
    ensures |files| == |Archives(entries)| && Names(files) == Archives(entries)
  {
    NamesCount(files);
    assert Names(files) == Archives(entries) by {
      forall n | n in Archives(entries) ensures n in Names(files) { assert Info(entries, n) in files; }
    }
  }

  lemma PruneFloor(before: Entries, after: Entries, files: seq<FileInfo>, cutoff: int, keep: nat, pruned: seq<string>,
                   ok: bool)
    requires IsListing(before, files) && PruneEffect(before, after, Doomed(files, cutoff, keep), pruned, ok)
    ensures |Archives(after)| >= Min(keep, |Archives(before)|)
  {
    ListingCount(before, files);
    var newest := files[..Min(keep, |files|)];
    NamesCount(newest);
    assert Names(newest) <= Archives(after) by {
      forall n | n in Names(newest) ensures n in Archives(after) {
        var i :| 0 <= i < |newest| && newest[i].name == n;
        NewestSurvive(before, after, files, cutoff, keep, pruned, ok, i);
      }
    }
    SubsetCount(Names(newest), Archives(after));
  }

  lemma {:induction false} SubsetCount<T>(a: set<T>, b: set<T>)
    requires a <= b
    ensures |a| <= |b|
  {
    assert b == a + (b - a);
  }

  datatype Event = Uploaded(name: string, t: Transfer) | Pruned(now: int, retentionDays: int)

  ghost predicate Step(keep: nat, before: Entries, e: Event, after: Entries) {
    match e
    case Uploaded(name, t) =>
      after == if t.stored.Some? then before[name := File(t.stored.value, t.modTime)] else before
    case Pruned(now, retentionDays) =>
      after == before ||
      exists files, pruned, ok :: IsListing(before, files)
        && PruneEffect(before, after, Doomed(files, Cutoff(now, retentionDays), keep), pruned, ok)
  }

  /** Any sequence of uploads and prunes of one directory, with any failures. */
  ghost predicate Run(keep: nat, run: seq<Entries>, events: seq<Event>) {
    |run| == |events| + 1 && forall i :: 0 < i <= |events| ==> Step(keep, run[i - 1], events[i - 1], run[i])
  }

  /** The event put an archive there under a new name. */
  predicate Arrives(before: Entries, e: Event) {
    e.Uploaded? && e.t.stored.Some? && !HasSuffix(e.name, MANIFEST_SUFFIX) && !IsArchive(before, e.name)
  }

  /** Arrivals among the first `i` events. */
  function Arrivals(run: seq<Entries>, events: seq<Event>, i: nat): nat
    requires |run| == |events| + 1 && i <= |events|
  {
    if i == 0 then 0
    else Arrivals(run, events, i - 1) + if Arrives(run[i - 1], events[i - 1]) then 1 else 0
  }

  lemma UploadCount(before: Entries, name: string, t: Transfer, after: Entries)
    requires Step(0, before, Uploaded(name, t), after)
    requires name in before ==> before[name].File?
    ensures |Archives(after)| == |Archives(before)| + if Arrives(before, Uploaded(name, t)) then 1 else 0
  {
    if t.stored.Some? {
      PutFile(before, name, File(t.stored.value, t.modTime));
      if IsArchive(before, name) {
        assert Archives(before) + {name} == Archives(before);
      } else {
        assert |Archives(before) + {name}| == |Archives(before)| + 1;
      }
    }
  }

  lemma PutFile(before: Entries, name: string, file: Entry)
    requires file.File? && (name in before ==> before[name].File?)
    ensures Archives(before[name := file]) ==
            if HasSuffix(name, MANIFEST_SUFFIX) then Archives(before) else Archives(before) + {name}
    ensures name in Archives(before) <==> IsArchive(before, name)
  {
  }

  /** A folder is never overwritten by a file of the same name. */
  ghost predicate FilesOnly(run: seq<Entries>, events: seq<Event>) {
    forall i :: 0 <= i < |events| && i < |run| ==>
      (events[i].Uploaded? && events[i].name in run[i] ==> run[i][events[i].name].File?)
  }

  lemma StepFloor(keep: nat, before: Entries, e: Event, after: Entries)
    requires Step(keep, before, e, after)
    requires e.Uploaded? && e.name in before ==> before[e.name].File?
    ensures |Archives(after)| >= Min(keep, |Archives(before)| + if Arrives(before, e) then 1 else 0)
  {
    if e.Uploaded? {
      UploadCount(before, e.name, e.t, after);
    } else if after != before {
      var files, pruned, ok :| IsListing(before, files)
        && PruneEffect(before, after, Doomed(files, Cutoff(e.now, e.retentionDays), keep), pruned, ok);
      PruneFloor(before, after, files, Cutoff(e.now, e.retentionDays), keep, pruned, ok);
    }
  }

  /** At every point of every run the archive count is at least `min(keep, archives at the start + archives
      that arrived so far)`. */
  lemma {:induction false} RetentionFloor(keep: nat, run: seq<Entries>, events: seq<Event>, i: nat)
    requires Run(keep, run, events) && FilesOnly(run, events) && i <= |events|
    ensures |Archives(run[i])| >= Min(keep, |Archives(run[0])| + Arrivals(run, events, i))
  {
    if i > 0 {
      RetentionFloor(keep, run, events, i - 1);
      StepFloor(keep, run[i - 1], events[i - 1], run[i]);
    }
  }

  // ----- a complete prune

  lemma CutListing(before: Entries, after: Entries, files: seq<FileInfo>, k: nat, pruned: seq<string>)
    requires IsListing(before, files) && k <= |files|
    requires PruneEffect(before, after, files[k..], pruned, true)
    ensures IsListing(after, files[..k])
  {
    NameSeqMembers(files[k..]);
    assert files[k..][..|files[k..]|] == files[k..];
    forall n ensures n in pruned <==> exists j :: k <= j < |files| && files[j].name == n {
      if j :| k <= j < |files| && files[j].name == n { assert files[k..][j - k] == files[j]; }
    }
    CutKeeps(before, after, files, k, pruned);
    CutDrops(before, after, files, k, pruned);
  }

  lemma CutKeeps(before: Entries, after: Entries, files: seq<FileInfo>, k: nat, pruned: seq<string>)
    requires IsListing(before, files) && k <= |files|
    requires PruneEffect(before, after, files[k..], pruned, true)
    requires forall n :: n in pruned <==> exists j :: k <= j < |files| && files[j].name == n
    ensures forall f :: f in files[..k] ==> IsArchive(after, f.name) && f == Info(after, f.name)
  {
    forall m: string ensures !IsArchive(before, Sidecar(m)) { SidecarIsNoArchive(before, m); }
    forall i | 0 <= i < k ensures IsArchive(after, files[i].name) && files[i] == Info(after, files[i].name) {
      assert files[i] in files && files[i].name !in pruned;
    }
  }

  lemma CutDrops(before: Entries, after: Entries, files: seq<FileInfo>, k: nat, pruned: seq<string>)
    requires IsListing(before, files) && k <= |files|
    requires PruneEffect(before, after, files[k..], pruned, true)
    requires forall n :: n in pruned <==> exists j :: k <= j < |files| && files[j].name == n
    ensures forall n :: IsArchive(after, n) ==> Info(after, n) in files[..k]
  {
    forall n | IsArchive(after, n) ensures Info(after, n) in files[..k] {
      assert IsArchive(before, n) && Info(before, n) in files;
      var i :| 0 <= i < |files| && files[i] == Info(before, n);
      assert files[..k][i] == files[i];
    }
  }

  lemma StickyPrune(before: Entries, after: Entries, files: seq<FileInfo>, p: FileInfo -> bool, keep: nat,
                    pruned: seq<string>)
    requires IsListing(before, files) && Sticky(files, p)
    requires PruneEffect(before, after, Past(files, p, keep), pruned, true)
    ensures IsListing(after, files[..KeptBy(files, p, keep)])
  {
    PastSticky(files, p, keep);
    CutListing(before, after, files, KeptBy(files, p, keep), pruned);
  }

  /** With every delete done, exactly the newest `Kept` archives are left. */
  lemma CompletePrune(before: Entries, after: Entries, files: seq<FileInfo>, cutoff: int, keep: nat,
                      pruned: seq<string>)
    requires IsListing(before, files) && Comparable(files)
    requires PruneEffect(before, after, Doomed(files, cutoff, keep), pruned, true)
    ensures IsListing(after, files[..Kept(files, cutoff, keep)])
    ensures |Archives(after)| == Max(Min(|files|, keep), Recent(files, cutoff))
  {
    OldIsSticky(files, cutoff);
    StickyPrune(before, after, files, OldBy(cutoff), keep, pruned);
    ListingCount(after, files[..Kept(files, cutoff, keep)]);
  }

  /** A file that a complete prune left behind although it is old is one of the newest `keep`. */
  lemma OldSurvivorsAreEarly(before: Entries, after: Entries, files: seq<FileInfo>, p: FileInfo -> bool, keep: nat,
                             pruned: seq<string>, i: nat)
    requires PruneEffect(before, after, Past(files, p, keep), pruned, true)
    requires i < |files| && files[i].name in after && p(files[i])
    ensures i < keep
  {
    var doomed := Past(files, p, keep);
    assert doomed[..|doomed|] == doomed;
    NameSeqMembers(doomed);
    if i >= keep { LateAndOldIsDoomed(files, p, keep, i); }
  }

  lemma LateAndOldIsDoomed(files: seq<FileInfo>, p: FileInfo -> bool, keep: nat, i: nat)
    requires keep <= i < |files| && p(files[i])
    ensures files[i] in Past(files, p, keep)
  {
    FilterMembers(files[keep..], p);
    assert files[keep..][i - keep] == files[i];
  }

  /** Old files that are still there were among the newest `keep` of the listing. */
  ghost predicate SurvivorsEarly(after: Entries, files: seq<FileInfo>, p: FileInfo -> bool, keep: nat) {
    forall i :: 0 <= i < |files| && files[i].name in after && p(files[i]) ==> i < keep
  }

  /** Decided by the modification time alone. */
  ghost predicate ByTime(p: FileInfo -> bool) {
    forall f: FileInfo, g: FileInfo :: f.modTime == g.modTime && p(f) ==> p(g)
  }

  lemma OldIsByTime(cutoff: int)
    ensures ByTime(OldBy(cutoff))
  {
  }

  lemma ListedBefore(before: Entries, after: Entries, files: seq<FileInfo>, again: seq<FileInfo>,
                     k: nat) returns (i: nat)
    requires IsListing(before, files) && IsListing(after, again) && k < |again|
    requires after.Keys <= before.Keys && forall n :: n in after ==> after[n] == before[n]
    ensures i < |files| && files[i] == again[k] && files[i].name in after
  {
    var f := again[k];
    assert f in again && IsArchive(after, f.name) && IsArchive(before, f.name) && Info(before, f.name) == f;
    i :| 0 <= i < |files| && files[i] == f;
  }

  /** What is newer by text was listed before an old survivor then, too, and what has its text is just as old. */
  lemma EarlyPlace(after: Entries, files: seq<FileInfo>, p: FileInfo -> bool, keep: nat, x: nat, y: nat)
    requires Ordered(files, NewerText) && SurvivorsEarly(after, files, p, keep)
    requires x < |files| && y < |files| && files[x].name in after && files[y].name in after
    requires p(files[x]) && !NewerText(files[x], files[y]) && ByTime(p)
    ensures y < keep
  {
    LexTotal(files[x].modTime, files[y].modTime);
    if files[y].modTime == files[x].modTime {
      assert p(files[y]);
    } else {
      assert NewerText(files[y], files[x]);
    }
  }

  lemma EarlyBefore(before: Entries, after: Entries, files: seq<FileInfo>, again: seq<FileInfo>, p: FileInfo -> bool,
                    keep: nat, j: nat, k: nat)
    requires IsListing(before, files) && IsListing(after, again) && SurvivorsEarly(after, files, p, keep)
    requires after.Keys <= before.Keys && forall n :: n in after ==> after[n] == before[n]
    requires k <= j < |again| && p(again[j]) && ByTime(p)
    ensures again[k].name in Names(files[..Min(keep, |files|)])
  {
    var x := ListedBefore(before, after, files, again, j);
    var y := ListedBefore(before, after, files, again, k);
    NewerTextStrictWeak();
    assert !NewerText(again[j], again[k]);
    EarlyPlace(after, files, p, keep, x, y);
    assert files[..Min(keep, |files|)][y] == again[k];
  }

  lemma OldSurvivorIsEarly(before: Entries, after: Entries, files: seq<FileInfo>, again: seq<FileInfo>,
                           p: FileInfo -> bool, keep: nat, j: nat)
    requires IsListing(before, files) && IsListing(after, again) && SurvivorsEarly(after, files, p, keep)
    requires after.Keys <= before.Keys && forall n :: n in after ==> after[n] == before[n]
    requires j < |again| && ByTime(p)
    ensures p(again[j]) ==> j < keep
  {
    if p(again[j]) {
      forall n | n in Names(again[..j + 1]) ensures n in Names(files[..Min(keep, |files|)]) {
        var k :| 0 <= k < j + 1 && again[..j + 1][k].name == n;
        EarlyBefore(before, after, files, again, p, keep, j, k);
      }
      FewerNames(again[..j + 1], files[..Min(keep, |files|)]);
    }
  }

  lemma FewerNames(a: seq<FileInfo>, b: seq<FileInfo>)
    requires DistinctNames(a) && DistinctNames(b) && Names(a) <= Names(b)
    ensures |a| <= |b|
  {
    NamesCount(a);
    NamesCount(b);
    SubsetCount(Names(a), Names(b));
  }

  /** After a complete prune a second one at the same clock finds nothing to delete, whatever the timestamps are. */
  lemma PruneTwice(before: Entries, after: Entries, files: seq<FileInfo>, again: seq<FileInfo>, cutoff: int, keep: nat,
                   pruned: seq<string>)
    requires IsListing(before, files) && IsListing(after, again)
    requires PruneEffect(before, after, Doomed(files, cutoff, keep), pruned, true)
    ensures Doomed(again, cutoff, keep) == []
  {
    OldIsByTime(cutoff);
    NothingLeft(before, after, files, again, OldBy(cutoff), keep, pruned);
  }

  lemma NothingLeft(before: Entries, after: Entries, files: seq<FileInfo>, again: seq<FileInfo>, p: FileInfo -> bool,
                    keep: nat, pruned: seq<string>)
    requires IsListing(before, files) && IsListing(after, again) && ByTime(p)
    requires PruneEffect(before, after, Past(files, p, keep), pruned, true)
    ensures Past(again, p, keep) == []
  {
    forall i | 0 <= i < |files| && files[i].name in after && p(files[i]) ensures i < keep {
      OldSurvivorsAreEarly(before, after, files, p, keep, pruned, i);
    }
    if |again| > keep {
      forall i | 0 <= i < |again[keep..]| ensures !p(again[keep..][i]) {
        OldSurvivorIsEarly(before, after, files, again, p, keep, keep + i);
      }
      FilterNone(again[keep..], p);
    }
  }
}
