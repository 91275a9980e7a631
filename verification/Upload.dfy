/**
 `UploadArchive` and the local copies it keeps (backup/run.go, backup/local_retention.go,
 backup/manifest.go). Every external step has its outcome in an `Env`.
 */
module Upload {
  import opened Text
  import opened Timestamps
  import opened Retention

  /** The two hash functions, taken as given. */
  datatype Digests = Digests(sha256: Bytes -> string, md5: Bytes -> string)

  datatype ArchiveManifest = ArchiveManifest(
    jobName: string, backupType: string, fileName: string, sha256: string, md5: string, sizeBytes: nat)

  /** JSON encoding of manifests. */
  datatype Codec = Codec(encode: ArchiveManifest -> Bytes, decode: Bytes -> Option<ArchiveManifest>)

  datatype Job = Job(
    name: string, backupType: string, retentionDays: int, minFilesToKeep: int,
    localBackupDir: string, localRetentionCount: int)

  /** File times in range of the four-digit years. */
  type Moment = t: nat | t / NANOS < RANGE witness 0

  datatype LocalEntry = LocalDirectory | LocalFile(data: Bytes, mtime: Moment)

  type LocalEntries = map<string, LocalEntry>

  /** A broken copy may leave a partial file under the new name. */
  datatype Copy = Copied | Broken(left: Option<Bytes>)

  datatype Env = Env(
    statUp: bool, hashUp: bool, manifestWriteUp: bool,
    mkdirUp: bool, copy: Copy, manifestCopy: Copy, copiedAt: Moment,
    readDirUp: bool, infoFails: set<string>, localRemove: nat -> Reply, now: nat,
    upload: Transfer, manifestUpload: Transfer, hashsumUp: bool,
    pruneListUp: bool, pruneReply: nat -> Reply)

  datatype Error = Stat | UploadFailed | HashUnavailable | HashMismatch

  datatype Result = Success(warning: bool) | Failure(error: Error)

  /** What an upload leaves no other trace of. */
  datatype Trail = Trail(localWarning: bool, files: seq<FileInfo>, pruned: seq<string>, pruneOk: bool)

  /** Local files as `pruneLocalCopies` lists them: times in UTC, whole seconds. */
  function View(local: LocalEntries): Entries {
    map n | n in local ::
      match local[n] case LocalDirectory => Directory case LocalFile(data, mtime) => File(data, FormatUtc(mtime))
  }

  function ComputeManifest(d: Digests, job: Job, name: string, data: Bytes): ArchiveManifest {
    ArchiveManifest(job.name, job.backupType, name, d.sha256(data), d.md5(data), |data|)
  }

  predicate ManifestWritten(env: Env) {
    env.hashUp && env.manifestWriteUp
  }

  predicate RetentionOn(job: Job) {
    job.localRetentionCount > 0 && job.localBackupDir != ""
  }

  function PutCopy(local: LocalEntries, name: string, data: Bytes, c: Copy, at: Moment): LocalEntries {
    match c
    case Copied => local[name := LocalFile(data, at)]
    case Broken(None) => local
    case Broken(Some(left)) => local[name := LocalFile(left, at)]
  }

  /** The local directory once the copies are in place. */
  function WithCopies(local: LocalEntries, name: string, data: Bytes, manifest: Option<Bytes>, env: Env): LocalEntries {
    var withArchive := PutCopy(local, name, data, env.copy, env.copiedAt);
    if env.copy.Broken? || manifest.None? then withArchive
    else PutCopy(withArchive, Sidecar(name), manifest.value, env.manifestCopy, env.copiedAt)
  }

  /** What `retainLocalCopy` does to the local directory, and whether it warns. Nothing in it depends on the remote. */
  ghost predicate LocalOutcome(before: LocalEntries, after: LocalEntries, job: Job, name: string, data: Bytes,
                               manifest: Option<Bytes>,
                               env: Env, warning: bool) {
    if !RetentionOn(job) then after == before && !warning
    else if !env.mkdirUp then after == before && warning
    else
      var copied := WithCopies(before, name, data, manifest, env);
      if env.copy.Broken? || !env.readDirUp then after == copied && warning
      else exists ok :: LocalPrune(copied, after, job.localRetentionCount, env, ok)
             && warning == (!ok || (manifest.Some? && env.manifestCopy.Broken?))
  }

  ghost predicate LocalPrune(before: LocalEntries, after: LocalEntries, keep: nat, env: Env, ok: bool) {
    exists files, pruned ::
      && IsListing(View(before) - env.infoFails, files)
      && PruneEffect(View(before), View(after), Doomed(files, Cutoff(env.now, 0), keep), pruned, ok)
      && View(after) == DeleteAll(View(before), Doomed(files, Cutoff(env.now, 0), keep), env.localRemove, 0)
      && ok == AllDone(|Doomed(files, Cutoff(env.now, 0), keep)|, env.localRemove)
      && Within(after, before)
  }

  lemma PruneSeen(before: LocalEntries, after: LocalEntries, keep: nat, env: Env, ok: bool,
                  files: seq<FileInfo>, pruned: seq<string>, doomed: seq<FileInfo>)
    requires IsListing(View(before) - env.infoFails, files) && doomed == Doomed(files, Cutoff(env.now, 0), keep)
    requires PruneEffect(View(before), View(after), doomed, pruned, ok) && Within(after, before)
    requires View(after) == DeleteAll(View(before), doomed, env.localRemove, 0) &&
             ok == AllDone(|doomed|, env.localRemove)
    ensures LocalPrune(before, after, keep, env, ok)
  {
  }

  lemma RetainedAndPruned(before: LocalEntries, after: LocalEntries, job: Job, name: string, data: Bytes,
                          manifest: Option<Bytes>,
                          env: Env, ok: bool)
    requires RetentionOn(job) && env.mkdirUp && env.copy.Copied? && env.readDirUp
    requires LocalPrune(WithCopies(before, name, data, manifest, env), after, job.localRetentionCount, env, ok)
    ensures LocalOutcome(before, after, job, name, data, manifest, env,
                         !ok || (manifest.Some? && env.manifestCopy.Broken?))
  {
  }

  ghost predicate Within(after: LocalEntries, before: LocalEntries) {
    forall n :: n in after ==> n in before && after[n] == before[n]
  }

  lemma ViewMinus(local: LocalEntries, names: set<string>)
    ensures View(local - names) == View(local) - names
  {
  }

  class Archiver {
    const remote: RemoteDir
    var local: LocalEntries

    constructor (remote: RemoteDir, local: LocalEntries)
      ensures this.remote == remote && this.local == local
    {
      this.remote := remote;
      this.local := local;
    }

    method Remove(name: string, reply: Reply) returns (ok: bool)
      modifies this`local
      ensures ok <==> reply.Done?
      ensures local == if reply.Refused? then old(local) else old(local) - {name}
      ensures View(local) == if reply.Refused? then View(old(local)) else View(old(local)) - {name}
    {
      ViewMinus(local, {name});
      if !reply.Refused? { local := local - {name}; }
      return reply.Done?;
    }

    method RemoveAll(doomed: seq<FileInfo>, reply: nat -> Reply) returns (ok: bool, ghost pruned: seq<string>)
      modifies this`local
      ensures PruneEffect(View(old(local)), View(local), doomed, pruned, ok)
      ensures View(local) == DeleteAll(View(old(local)), doomed, reply, 0)
      ensures ok == AllDone(|doomed|, reply)
      ensures Within(local, old(local))
    {
      pruned := [];
      ghost var start := View(local);
      for i := 0 to |doomed|
        invariant |pruned| == i && pruned == NameSeq(doomed[..i])
        invariant PruneEffect(start, View(local), doomed[..i], pruned, true)
        invariant DeleteAll(View(local), doomed, reply, i) == DeleteAll(start, doomed, reply, 0)
        invariant AllDone(i, reply) && Within(local, old(local))
      {
        ghost var before := View(local);
        assert doomed[..i + 1][..i] == doomed[..i];
        ok := Remove(doomed[i].name, reply(2 * i));
        if !ok {
          PruneStops(start, before, View(local), doomed, i, pruned);
          return;
        }
        var _ := Remove(Sidecar(doomed[i].name), reply(2 * i + 1));
        PruneGoesOn(start, before, View(local), doomed, i, pruned);
        pruned := pruned + [doomed[i].name];
      }
      assert doomed[..|doomed|] == doomed;
      ok := true;
    }

    /** Files whose `Info` call fails are passed over. */
    method PruneLocalCopies(keep: nat, env: Env) returns (done: bool)
      modifies this`local
      ensures !env.readDirUp ==> !done && local == old(local)
      ensures env.readDirUp ==> LocalPrune(old(local), local, keep, env, done)
    {
      if !env.readDirUp { return false; }
      var files := ListEntries(View(local) - env.infoFails);
      var doomed := FilesToPrune(files, env.now, 0, keep);
      ghost var pruned, before := [], local;
      done, pruned := RemoveAll(doomed, env.localRemove);
      PruneSeen(before, local, keep, env, done, files, pruned, doomed);
    }

    /** Best effort: the only sign of a failure is the warning. */
    method RetainLocalCopy(job: Job, name: string, data: Bytes, manifest: Option<Bytes>,
                           env: Env) returns (warning: bool)
      modifies this`local
      ensures LocalOutcome(old(local), local, job, name, data, manifest, env, warning)
    {
      if job.localRetentionCount <= 0 || job.localBackupDir == "" { return false; }
      if !env.mkdirUp { return true; }
      local := PutCopy(local, name, data, env.copy, env.copiedAt);
      if env.copy.Broken? { return true; }
      warning := false;
      if manifest.Some? {
        local := PutCopy(local, Sidecar(name), manifest.value, env.manifestCopy, env.copiedAt);
        warning := env.manifestCopy.Broken?;
      }
      assert local == WithCopies(old(local), name, data, manifest, env);
      var ok := PruneLocalCopies(job.localRetentionCount, env);
      if env.readDirUp { RetainedAndPruned(old(local), local, job, name, data, manifest, env, ok); }
      return !ok || warning;
    }

    /** A hash that cannot be had or differs is an error, not a warning. */
    method VerifyRemoteHash(d: Digests, name: string, md5: string, hashsumUp: bool) returns (error: Option<Error>)
      ensures var there := name in remote.entries && remote.entries[name].File?;
              && (error.None? <==> hashsumUp && there && d.md5(remote.entries[name].data) == md5)
              && (error == Some(HashUnavailable) <==> !hashsumUp || !there)
              && (error.Some? ==> error.value in {HashUnavailable, HashMismatch})
    {
      var seen := RemoteHash(d, remote.entries, name);
      if !hashsumUp || seen.None? { return Some(HashUnavailable); }
      if seen.value != md5 { return Some(HashMismatch); }
      return None;
    }

    /** A failed prune is a warning. */
    method PruneWithWarning(job: Job, env: Env) returns (ok: bool, ghost files: seq<FileInfo>,
                            ghost pruned: seq<string>)
      requires job.minFilesToKeep >= 0
      modifies remote
      ensures RemoteOutcome(old(remote.entries), remote.entries, job, env, files, pruned, ok)
    {
      files, pruned := [], [];
      if job.retentionDays <= 0 { return true, files, pruned; }
      pruned, ok, files := remote.Prune(env.now, job.retentionDays, job.minFilesToKeep, env.pruneListUp,
                                        env.pruneReply);
    }

    /** Both uploads; only that of the archive is an error if it fails. */
    method Send(name: string, manifest: Option<Bytes>, env: Env) returns (ok: bool, warning: bool)
      modifies remote
      ensures remote.entries == AfterUploads(old(remote.entries), name, manifest, env)
      ensures ok == env.upload.reported && warning == (ok && manifest.Some? && !env.manifestUpload.reported)
    {
      ok := remote.Upload(name, env.upload);
      if !ok || manifest.None? { return ok, false; }
      var sent := remote.Upload(Sidecar(name), env.manifestUpload);
      return true, !sent;
    }

    /** Upload, then the hash check if there is a manifest to check against. */
    method SendAndVerify(name: string, manifest: Option<Bytes>, ghost data: Bytes, md5: string, d: Digests, env: Env)
      returns (error: Option<Error>, warning: bool)
      requires env.statUp && (manifest.Some? <==> ManifestWritten(env)) && md5 == d.md5(data)
      modifies remote
      ensures remote.entries == AfterUploads(old(remote.entries), name, manifest, env)
      ensures error == FailureOf(env, data, d, name, remote.entries)
      ensures error.None? ==> warning == (manifest.Some? && !env.manifestUpload.reported)
    {
      var sent;
      sent, warning := Send(name, manifest, env);
      if !sent { return Some(UploadFailed), false; }
      error := None;
      if manifest.Some? { error := VerifyRemoteHash(d, name, md5, env.hashsumUp); }
    }

    /** Hash, local copy, upload, verify, prune, in this order. */
    method UploadArchive(job: Job, name: string, data: Bytes, d: Digests, codec: Codec, env: Env) returns (r: Result,
                         ghost trail: Trail)
      requires job.minFilesToKeep >= 0
      modifies this`local, remote
      ensures Uploads(job, name, data, d, codec, env, old(local), local, old(remote.entries), remote.entries, r, trail)
    {
      trail := Trail(false, [], [], true);
      if !env.statUp { return Failure(Stat), trail; }
      var manifest := None;
      var m := ComputeManifest(d, job, name, data);
      if env.hashUp && env.manifestWriteUp { manifest := Some(codec.encode(m)); }
      var warning := RetainLocalCopy(job, name, data, manifest, env);
      trail := trail.(localWarning := warning);
      var error, unsent := SendAndVerify(name, manifest, data, m.md5, d, env);
      if error.Some? { return Failure(error.value), trail; }
      ghost var files, pruned;
      var ok;
      ok, files, pruned := PruneWithWarning(job, env);
      trail := trail.(files := files, pruned := pruned, pruneOk := ok);
      return Success(warning || manifest.None? || unsent || !ok), trail;
    }
  }

  /** What the remote says about the hash of a file: nothing if it is not there. */
  function RemoteHash(d: Digests, entries: Entries, name: string): Option<string> {
    if name in entries && entries[name].File? then Some(d.md5(entries[name].data)) else None
  }

  /** Everything `UploadArchive` promises: result and warning, the local directory, the remote directory. */
  ghost predicate Uploads(job: Job, name: string, data: Bytes, d: Digests, codec: Codec, env: Env,
                           local: LocalEntries, local': LocalEntries, remote: Entries, remote': Entries, r: Result,
                           trail: Trail)
    requires job.minFilesToKeep >= 0
  {
    var manifest := ManifestBytes(job, name, data, d, codec, env);
    var uploaded := AfterUploads(remote, name, manifest, env);
    && (r.Failure? <==> FailureOf(env, data, d, name, uploaded).Some?)
    && (r.Failure? ==> r.error == FailureOf(env, data, d, name, uploaded).value)
    && (if env.statUp then LocalOutcome(local, local', job, name, data, manifest, env, trail.localWarning)
        else local' == local)
    && (r.Failure? ==> remote' == if env.statUp then uploaded else remote)
    && (r.Success? ==>
          && RemoteOutcome(uploaded, remote', job, env, trail.files, trail.pruned, trail.pruneOk)
          && (r.warning <==>
              trail.localWarning || !ManifestWritten(env) || !env.manifestUpload.reported || !trail.pruneOk))
  }

  function ManifestBytes(job: Job, name: string, data: Bytes, d: Digests, codec: Codec, env: Env): Option<Bytes> {
    if ManifestWritten(env) then Some(codec.encode(ComputeManifest(d, job, name, data))) else None
  }

  /** Why a backup counts as failed, if it does. The hash is compared only if there is a manifest. */
  function FailureOf(env: Env, data: Bytes, d: Digests, name: string, uploaded: Entries): Option<Error> {
    if !env.statUp then Some(Stat)
    else if !env.upload.reported then Some(UploadFailed)
    else if !ManifestWritten(env) then None
    else if !env.hashsumUp || RemoteHash(d, uploaded, name).None? then Some(HashUnavailable)
    else if RemoteHash(d, uploaded, name) != Some(d.md5(data)) then Some(HashMismatch)
    else None
  }

  function PutRemote(entries: Entries, name: string, t: Transfer): Entries {
    if t.stored.Some? then entries[name := File(t.stored.value, t.modTime)] else entries
  }

  /** The remote directory after the uploads and before any prune. */
  function AfterUploads(entries: Entries, name: string, manifest: Option<Bytes>, env: Env): Entries {
    var withArchive := PutRemote(entries, name, env.upload);
    if env.upload.reported && manifest.Some? then PutRemote(withArchive, Sidecar(name), env.manifestUpload)
    else withArchive
  }

  ghost predicate RemoteOutcome(uploaded: Entries, after: Entries, job: Job, env: Env, files: seq<FileInfo>,
                                pruned: seq<string>, ok: bool)
    requires job.minFilesToKeep >= 0
  {
    if job.retentionDays <= 0 then after == uploaded && ok
    else if !env.pruneListUp then after == uploaded && !ok
    else
      var doomed := Doomed(files, Cutoff(env.now, job.retentionDays), job.minFilesToKeep);
      && IsListing(uploaded, files)
      && PruneEffect(uploaded, after, doomed, pruned, ok)
      && after == DeleteAll(uploaded, doomed, env.pruneReply, 0) && ok == AllDone(|doomed|, env.pruneReply)
  }

  // ----- each outcome in terms of the single requests

  /** Which error, and exactly when there is one. */
  lemma FailsExactly(env: Env, data: Bytes, d: Digests, name: string, uploaded: Entries)
    ensures var (e, sent) := (FailureOf(env, data, d, name, uploaded), env.statUp && env.upload.reported);
            var (checked, there) := (env.hashUp && env.manifestWriteUp, name in uploaded && uploaded[name].File?);
            && (e == Some(Stat) <==> !env.statUp)
            && (e == Some(UploadFailed) <==> env.statUp && !env.upload.reported)
            && (e == Some(HashUnavailable) <==> sent && checked && (!env.hashsumUp || !there))
            && (e == Some(HashMismatch) <==>
                  sent && checked && env.hashsumUp && there && d.md5(uploaded[name].data) != d.md5(data))
            && (e == None <==>
                  sent && (checked ==> env.hashsumUp && there && d.md5(uploaded[name].data) == d.md5(data)))
  {
  }

  lemma LocalExactly(before: LocalEntries, after: LocalEntries, job: Job, name: string, data: Bytes,
                     manifest: Option<Bytes>, env: Env, warning: bool)
    requires LocalOutcome(before, after, job, name, data, manifest, env, warning)
    ensures job.localRetentionCount <= 0 || job.localBackupDir == "" ==> after == before && !warning
    ensures job.localRetentionCount > 0 && job.localBackupDir != "" && !env.mkdirUp ==> after == before && warning
    ensures job.localRetentionCount > 0 && job.localBackupDir != "" && env.mkdirUp ==>
              && (env.copy.Broken? || !env.readDirUp ==>
                    warning && after == WithCopies(before, name, data, manifest, env))
              && (manifest.Some? && env.manifestCopy.Broken? ==> warning)
  {
  }

  lemma RemoteExactly(uploaded: Entries, after: Entries, job: Job, env: Env, files: seq<FileInfo>,
                      pruned: seq<string>, ok: bool)
    requires job.minFilesToKeep >= 0 && RemoteOutcome(uploaded, after, job, env, files, pruned, ok)
    ensures job.retentionDays <= 0 ==> after == uploaded && ok
    ensures job.retentionDays > 0 && !env.pruneListUp ==> after == uploaded && !ok
    ensures job.retentionDays > 0 && env.pruneListUp ==>
              && IsListing(uploaded, files)
              && var doomed := Doomed(files, Cutoff(env.now, job.retentionDays), job.minFilesToKeep);
              && (ok <==> forall i :: 0 <= i < |doomed| ==> env.pruneReply(2 * i).Done?)
              && (forall n :: n in after <==> n in uploaded && !TakenAway(doomed, env.pruneReply, 0, n))
  {
    if job.retentionDays > 0 && env.pruneListUp {
      var doomed := Doomed(files, Cutoff(env.now, job.retentionDays), job.minFilesToKeep);
      DeletedExactly(uploaded, doomed, env.pruneReply, 0);
    }
  }

  /** A success without a warning: nothing at all went wrong. */
  lemma SilentUpload(job: Job, name: string, data: Bytes, d: Digests, codec: Codec, env: Env,
                     local: LocalEntries, local': LocalEntries, remote: Entries, remote': Entries, r: Result,
                     trail: Trail)
    requires job.minFilesToKeep >= 0 && r == Success(false)
    requires Uploads(job, name, data, d, codec, env, local, local', remote, remote', r, trail)
    ensures env.statUp && env.hashUp && env.manifestWriteUp && env.hashsumUp
    ensures env.upload.reported && env.manifestUpload.reported
    ensures job.localRetentionCount > 0 && job.localBackupDir != "" ==>
              env.mkdirUp && env.copy.Copied? && env.manifestCopy.Copied? && env.readDirUp
    ensures job.retentionDays > 0 ==>
              && env.pruneListUp
              && forall i :: 0 <= i < |Doomed(trail.files, Cutoff(env.now, job.retentionDays), job.minFilesToKeep)| ==>
                   env.pruneReply(2 * i).Done?
  {
    var manifest := ManifestBytes(job, name, data, d, codec, env);
    var uploaded := AfterUploads(remote, name, manifest, env);
    FailsExactly(env, data, d, name, uploaded);
    LocalExactly(local, local', job, name, data, manifest, env, trail.localWarning);
    RemoteExactly(uploaded, remote', job, env, trail.files, trail.pruned, trail.pruneOk);
  }

  // ----- the local copy

  /** The local steps all went through. */
  predicate LocalStepsUp(job: Job, env: Env) {
    RetentionOn(job) && env.mkdirUp && env.copy.Copied? && env.readDirUp && env.infoFails == {}
  }

  /** The new copy replaces no directory, and every file time lies in the past. */
  ghost predicate ClocksAgree(before: LocalEntries, name: string, env: Env) {
    && (name in before ==> before[name].LocalFile?)
    && env.copiedAt < env.now
    && forall n :: n in before && before[n].LocalFile? ==> before[n].mtime < env.now
  }

  lemma FormatUtcIsStamp(t: Moment)
    ensures IsStamp(FormatUtc(t)) && Parse(FormatUtc(t)).value.form == UTC_SECONDS
    ensures Instant(Parse(FormatUtc(t)).value) == t / NANOS * NANOS
  {
    var s := Stamp(CivilOf(t / NANOS), 0, UTC_SECONDS);
    ParseStampText(s);
    assert ZoneMinutes(s.form.zone) == 0 && FractionNanos(s) == 0;
  }

  predicate LocalArchive(local: LocalEntries, n: string) {
    n in local && local[n].LocalFile? && !HasSuffix(n, MANIFEST_SUFFIX)
  }

  function LocalArchives(local: LocalEntries): set<string> {
    set n | n in local && LocalArchive(local, n)
  }

  function Second(local: LocalEntries, n: string): nat
    requires LocalArchive(local, n)
  {
    local[n].mtime / NANOS
  }

  lemma ViewArchives(local: LocalEntries)
    ensures forall n :: IsArchive(View(local), n) <==> LocalArchive(local, n)
    ensures Archives(View(local)) == LocalArchives(local)
  {
  }

  /** A listing of the local directory is all its archives, newest second first. */
  ghost predicate Ranked(local: LocalEntries, files: seq<FileInfo>) {
    && DistinctNames(files)
    && (forall i :: 0 <= i < |files| ==> LocalArchive(local, files[i].name))
    && (forall n :: LocalArchive(local, n) ==> exists i :: 0 <= i < |files| && files[i].name == n)
    && (forall i, j :: 0 <= i < j < |files| ==> Second(local, files[i].name) >= Second(local, files[j].name))
  }

  lemma LocalTimes(local: LocalEntries, files: seq<FileInfo>, f: FileInfo)
    requires IsListing(View(local), files) && f in files
    ensures LocalArchive(local, f.name) && f.modTime == FormatUtc(local[f.name].mtime)
  {
    assert IsArchive(View(local), f.name);
  }

  lemma ListingIsRanked(local: LocalEntries, files: seq<FileInfo>)
    requires IsListing(View(local), files)
    ensures Ranked(local, files)
  {
    forall i | 0 <= i < |files| ensures LocalArchive(local, files[i].name) { LocalTimes(local, files, files[i]); }
    ViewArchives(local);
    forall n | LocalArchive(local, n) ensures exists i :: 0 <= i < |files| && files[i].name == n {
      assert Info(View(local), n) in files;
    }
    forall i, j | 0 <= i < j < |files| ensures Second(local, files[i].name) >= Second(local, files[j].name) {
      LocalTimes(local, files, files[i]);
      LocalTimes(local, files, files[j]);
      assert !NewerText(files[j], files[i]);
      FormattedOrder(local[files[i].name].mtime, local[files[j].name].mtime);
    }
  }

  lemma LocalComparable(local: LocalEntries, files: seq<FileInfo>)
    requires IsListing(View(local), files)
    ensures Comparable(files)
  {
    forall f | f in files ensures IsStamp(f.modTime) && Parse(f.modTime).value.form == UTC_SECONDS {
      LocalTimes(local, files, f);
      FormatUtcIsStamp(local[f.name].mtime);
    }
  }

  /** With `retentionDays` zero every local file counts as old. */
  lemma EveryLocalIsOld(local: LocalEntries, files: seq<FileInfo>, now: nat)
    requires IsListing(View(local), files)
    requires forall n :: n in local && local[n].LocalFile? ==> local[n].mtime < now
    ensures Recent(files, Cutoff(now, 0)) == 0
  {
    forall f | f in files ensures OldBy(Cutoff(now, 0))(f) {
      LocalTimes(local, files, f);
      FormatUtcIsStamp(local[f.name].mtime);
      WholeSeconds(local[f.name].mtime);
    }
    FilterAll(files, OldBy(Cutoff(now, 0)));
  }

  lemma WholeSeconds(t: nat)
    ensures t / NANOS * NANOS <= t
  {
  }

  /** `copied` is pruned to a newest-first prefix; sidecars go only with their archive. */
  ghost predicate PrunedTo(copied: LocalEntries, after: LocalEntries, files: seq<FileInfo>, k: nat) {
    && k <= |files|
    && Ranked(copied, files)
    && Ranked(after, files[..k])
    && Within(after, copied)
    && forall n :: n in copied && n !in after ==>
         || LocalArchive(copied, n)
         || exists m :: LocalArchive(copied, m) && m !in after && n == Sidecar(m)
  }

  lemma LocalDoomed(local: LocalEntries, files: seq<FileInfo>, keep: nat, now: nat)
    requires IsListing(View(local), files)
    requires forall n :: n in local && local[n].LocalFile? ==> local[n].mtime < now
    ensures Doomed(files, Cutoff(now, 0), keep) == files[Min(|files|, keep)..]
  {
    LocalComparable(local, files);
    DoomedIsSuffix(files, Cutoff(now, 0), keep);
    EveryLocalIsOld(local, files, now);
  }

  lemma LocalPruneLeaves(copied: LocalEntries, after: LocalEntries, keep: nat, env: Env,
                         ok: bool) returns (files: seq<FileInfo>)
    requires LocalPrune(copied, after, keep, env, ok) && env.infoFails == {}
    requires forall k :: env.localRemove(k).Done?
    requires forall n :: n in copied && copied[n].LocalFile? ==> copied[n].mtime < env.now
    ensures PrunedTo(copied, after, files, Min(|files|, keep))
  {
    var pruned;
    files, pruned :|
      && IsListing(View(copied) - env.infoFails, files)
      && PruneEffect(View(copied), View(after), Doomed(files, Cutoff(env.now, 0), keep), pruned, ok)
      && View(after) == DeleteAll(View(copied), Doomed(files, Cutoff(env.now, 0), keep), env.localRemove, 0)
      && ok == AllDone(|Doomed(files, Cutoff(env.now, 0), keep)|, env.localRemove)
      && Within(after, copied);
    assert View(copied) - env.infoFails == View(copied);
    LocalDoomed(copied, files, keep, env.now);
    CutLocal(copied, after, files, Min(|files|, keep), pruned);
  }

  lemma CutLocal(copied: LocalEntries, after: LocalEntries, files: seq<FileInfo>, k: nat, pruned: seq<string>)
    requires IsListing(View(copied), files) && k <= |files|
    requires PruneEffect(View(copied), View(after), files[k..], pruned, true) && Within(after, copied)
    ensures PrunedTo(copied, after, files, k)
  {
    CutListing(View(copied), View(after), files, k, pruned);
    ListingIsRanked(copied, files);
    ListingIsRanked(after, files[..k]);
    WhatWent(copied, after, files, files[k..], pruned);
  }

  lemma WhatWent(copied: LocalEntries, after: LocalEntries, files: seq<FileInfo>, doomed: seq<FileInfo>,
                 pruned: seq<string>)
    requires IsListing(View(copied), files) && PruneEffect(View(copied), View(after), doomed, pruned, true)
    requires forall f :: f in doomed ==> f in files
    ensures forall n :: n in copied && n !in after ==>
              LocalArchive(copied, n) || exists m :: LocalArchive(copied, m) && m !in after && n == Sidecar(m)
  {
    ViewArchives(copied);
    NameSeqMembers(doomed[..|pruned|]);
    forall m | m in pruned ensures LocalArchive(copied, m) && m !in after {
      var f :| f in doomed && f.name == m;
      assert m !in View(after) && IsArchive(View(copied), f.name);
    }
    forall n | n in copied && n !in after
      ensures LocalArchive(copied, n) || exists m :: LocalArchive(copied, m) && m !in after && n == Sidecar(m)
    {
      assert n in View(copied) && n !in View(after);
      assert MayGo(doomed, pruned, n);
    }
  }

  /** The newest `keep` archives of `copied`, and no others. */
  ghost predicate NewestOnly(copied: LocalEntries, after: LocalEntries, keep: nat) {
    && |LocalArchives(after)| == Min(|LocalArchives(copied)|, keep)
    && LocalArchives(after) <= LocalArchives(copied)
    && forall n, m :: n in LocalArchives(after) && m in LocalArchives(copied) - LocalArchives(after) ==>
         Second(copied, n) >= Second(copied, m)
  }

  lemma RankedCount(local: LocalEntries, files: seq<FileInfo>)
    requires Ranked(local, files)
    ensures |LocalArchives(local)| == |files|
  {
    NamesCount(files);
    assert Names(files) == LocalArchives(local);
  }

  lemma PrefixIsNewest(copied: LocalEntries, after: LocalEntries, files: seq<FileInfo>, keep: nat)
    requires PrunedTo(copied, after, files, Min(|files|, keep))
    ensures NewestOnly(copied, after, keep)
  {
    RankedCount(copied, files);
    RankedCount(after, files[..Min(|files|, keep)]);
    forall n, m | n in LocalArchives(after) && m in LocalArchives(copied) - LocalArchives(after)
      ensures Second(copied, n) >= Second(copied, m)
    {
      KeptBeforeGone(copied, after, files, Min(|files|, keep), n, m);
    }
  }

  lemma KeptBeforeGone(copied: LocalEntries, after: LocalEntries, files: seq<FileInfo>, k: nat, n: string, m: string)
    requires PrunedTo(copied, after, files, k)
    requires LocalArchive(after, n) && LocalArchive(copied, n) && LocalArchive(copied, m) && !LocalArchive(after, m)
    ensures Second(copied, n) >= Second(copied, m)
  {
    forall q | 0 <= q < k ensures LocalArchive(after, files[q].name) { assert files[..k][q] == files[q]; }
    var i :| 0 <= i < k && files[..k][i].name == n;
    var j :| 0 <= j < |files| && files[j].name == m;
    assert files[i].name == n;
  }

  /** The other archives that are at least as new, to the second. */
  function AsNew(local: LocalEntries, name: string, second: nat): set<string> {
    set n | n in local && LocalArchive(local, n) && n != name && Second(local, n) >= second
  }

  lemma RankBound(copied: LocalEntries, files: seq<FileInfo>, name: string, keep: nat) returns (j: nat)
    requires Ranked(copied, files) && LocalArchive(copied, name)
    requires |AsNew(copied, name, Second(copied, name))| < keep
    ensures j < Min(|files|, keep) && files[j].name == name
  {
    j :| 0 <= j < |files| && files[j].name == name;
    NamesCount(files[..j]);
    assert Names(files[..j]) <= AsNew(copied, name, Second(copied, name)) by {
      forall f | f in files[..j] ensures f.name in AsNew(copied, name, Second(copied, name)) {
        var i :| 0 <= i < j && files[..j][i] == f;
        assert files[i].name == f.name && LocalArchive(copied, files[i].name);
      }
    }
    SubsetCount(Names(files[..j]), AsNew(copied, name, Second(copied, name)));
  }

  /** Whatever the remote leg does - refused upload, hash mismatch, failed prune - the local directory ends
      with exactly the newest `localRetentionCount` archives. If fewer than that many of the others are as new as
      the new one, it is among them, with its manifest if one was written and copied. */
  lemma LocalCopySurvives(before: LocalEntries, after: LocalEntries, job: Job, name: string, data: Bytes,
                          manifest: Option<Bytes>,
                          env: Env, warning: bool)
    requires LocalOutcome(before, after, job, name, data, manifest, env, warning)
    requires LocalStepsUp(job, env) && ClocksAgree(before, name, env) && !HasSuffix(name, MANIFEST_SUFFIX)
    requires forall k :: env.localRemove(k).Done?
    ensures NewestOnly(WithCopies(before, name, data, manifest, env), after, job.localRetentionCount)
    ensures |AsNew(before, name, env.copiedAt / NANOS)| < job.localRetentionCount ==>
              name in after && after[name] == LocalFile(data, env.copiedAt)
    ensures |AsNew(before, name, env.copiedAt / NANOS)| < job.localRetentionCount && manifest.Some? &&
            env.manifestCopy.Copied? ==>
              Sidecar(name) in after && after[Sidecar(name)] == LocalFile(manifest.value, env.copiedAt)
  {
    var copied, keep := WithCopies(before, name, data, manifest, env), job.localRetentionCount;
    CopiedTimes(before, name, data, manifest, env);
    var ok :| LocalPrune(copied, after, keep, env, ok);
    var files := LocalPruneLeaves(copied, after, keep, env, ok);
    PrefixIsNewest(copied, after, files, keep);
    if |AsNew(before, name, env.copiedAt / NANOS)| < keep {
      var j := RankBound(copied, files, name, keep);
      assert LocalArchive(after, files[..Min(|files|, keep)][j].name);
      SidecarStays(copied, after, files, Min(|files|, keep), name);
    }
  }

  /** In a listing that puts the new copy last among its equals, everything as new comes before it. */
  lemma TiesComeFirst(copied: LocalEntries, files: seq<FileInfo>, name: string, j: nat)
    requires IsListing(View(copied), files) && Ordered(files, TiedLast(name)) && LocalArchive(copied, name)
    requires j < |files| && files[j].name == name
    ensures j >= |AsNew(copied, name, Second(copied, name))|
  {
    var newer := AsNew(copied, name, Second(copied, name));
    forall n | n in newer ensures n in Names(files[..j]) { NamedBefore(copied, files, name, j, n); }
    assert DistinctNames(files[..j]);
    FewNames(newer, files[..j]);
  }

  lemma PlaceOf(copied: LocalEntries, files: seq<FileInfo>, name: string) returns (j: nat)
    requires IsListing(View(copied), files) && LocalArchive(copied, name)
    ensures j < |files| && files[j].name == name
  {
    ListingIsRanked(copied, files);
    j :| 0 <= j < |files| && files[j].name == name;
  }

  lemma FewNames(names: set<string>, files: seq<FileInfo>)
    requires DistinctNames(files) && forall n :: n in names ==> n in Names(files)
    ensures |names| <= |files|
  {
    NamesCount(files);
    SubsetCount(names, Names(files));
  }

  lemma NamedBefore(copied: LocalEntries, files: seq<FileInfo>, name: string, j: nat, n: string)
    requires IsListing(View(copied), files) && Ordered(files, TiedLast(name)) && LocalArchive(copied, name)
    requires j < |files| && files[j].name == name && n in AsNew(copied, name, Second(copied, name))
    ensures n in Names(files[..j])
  {
    ListingIsRanked(copied, files);
    var i :| 0 <= i < |files| && files[i].name == n;
    AsNewIsBefore(copied, files, name, i, j);
    assert files[..j][i] == files[i] && files[i] in files[..j];
  }

  lemma AsNewIsBefore(copied: LocalEntries, files: seq<FileInfo>, name: string, i: nat, j: nat)
    requires IsListing(View(copied), files) && Ordered(files, TiedLast(name)) && LocalArchive(copied, name)
    requires i < |files| && j < |files| && files[j].name == name && files[i].name != name
    requires LocalArchive(copied, files[i].name) && Second(copied, files[i].name) >= Second(copied, name)
    ensures i < j
  {
    LocalTimes(copied, files, files[i]);
    LocalTimes(copied, files, files[j]);
    FormattedOrder(copied[files[i].name].mtime, copied[name].mtime);
    LexTotal(files[i].modTime, files[j].modTime);
    assert TiedLast(name)(files[i], files[j]);
  }

  /** The prune in which every delete succeeds. */
  lemma PruneHappens(copied: LocalEntries, files: seq<FileInfo>, doomed: seq<FileInfo>, keep: nat, env: Env)
    requires IsListing(View(copied), files) && doomed == Doomed(files, Cutoff(env.now, 0), keep)
    requires env.infoFails == {} && forall k :: env.localRemove(k).Done?
    ensures LocalPrune(copied, copied - Gone(doomed, 0), keep, env, true)
  {
    ViewMinus(copied, Gone(doomed, 0));
    assert View(copied) - env.infoFails == View(copied);
    FullPrune(View(copied), doomed, env.localRemove);
    PruneSeen(copied, copied - Gone(doomed, 0), keep, env, true, files, NameSeq(doomed), doomed);
  }

  lemma SuffixGone(files: seq<FileInfo>, doomed: seq<FileInfo>, keep: nat, j: nat)
    requires keep <= j < |files| && doomed == files[keep..]
    ensures files[j].name in Gone(doomed, 0)
  {
    GoneMembers(doomed, 0, j - keep);
  }

  /** The new copy is certain to be kept exactly when fewer than `localRetentionCount` of the other archives are as
      new, to the second: file times are compared without fractions, and the order of equal ones is left open. */
  lemma NewCopyKeptExactly(before: LocalEntries, job: Job, name: string, data: Bytes, manifest: Option<Bytes>, env: Env)
    requires LocalStepsUp(job, env) && ClocksAgree(before, name, env) && !HasSuffix(name, MANIFEST_SUFFIX)
    requires forall k :: env.localRemove(k).Done?
    ensures (forall after, warning :: LocalOutcome(before, after, job, name, data, manifest, env, warning) ==>
             name in after)
            <==> |AsNew(before, name, env.copiedAt / NANOS)| < job.localRetentionCount
  {
    var copied, keep := WithCopies(before, name, data, manifest, env), job.localRetentionCount;
    CopiedTimes(before, name, data, manifest, env);
    if |AsNew(before, name, env.copiedAt / NANOS)| < keep {
      forall after, warning | LocalOutcome(before, after, job, name, data, manifest, env, warning)
        ensures name in after
      {
        LocalCopySurvives(before, after, job, name, data, manifest, env, warning);
      }
    } else {
      var files := ListingWithTies(View(copied), name);
      var j := PlaceOf(copied, files, name);
      TiesComeFirst(copied, files, name, j);
      var doomed := Doomed(files, Cutoff(env.now, 0), keep);
      var after := copied - Gone(doomed, 0);
      PruneHappens(copied, files, doomed, keep, env);
      LocalDoomed(copied, files, keep, env.now);
      SuffixGone(files, doomed, keep, j);
      RetainedAndPruned(before, after, job, name, data, manifest, env, true);
      assert name !in after;
    }
  }

  lemma SidecarInjective(a: string, b: string)
    ensures Sidecar(a) == Sidecar(b) ==> a == b
  {
    assert a == Sidecar(a)[..|a|] && b == Sidecar(b)[..|b|];
  }

  lemma SidecarStays(copied: LocalEntries, after: LocalEntries, files: seq<FileInfo>, k: nat, name: string)
    requires PrunedTo(copied, after, files, k) && name in after
    ensures Sidecar(name) in copied ==> Sidecar(name) in after
  {
    assert Sidecar(name)[|name|..] == MANIFEST_SUFFIX;
    forall m ensures Sidecar(name) == Sidecar(m) ==> m == name { SidecarInjective(name, m); }
  }

  lemma CopiedTimes(before: LocalEntries, name: string, data: Bytes, manifest: Option<Bytes>, env: Env)
    requires env.copy.Copied? && ClocksAgree(before, name, env) && !HasSuffix(name, MANIFEST_SUFFIX)
    ensures var copied := WithCopies(before, name, data, manifest, env);
            && LocalArchive(copied, name) && copied[name] == LocalFile(data, env.copiedAt)
            && (manifest.Some? && env.manifestCopy.Copied? ==>
                  Sidecar(name) in copied && copied[Sidecar(name)] == LocalFile(manifest.value, env.copiedAt))
            && (forall n :: n in copied && copied[n].LocalFile? ==> copied[n].mtime < env.now)
            && AsNew(copied, name, Second(copied, name)) == AsNew(before, name, env.copiedAt / NANOS)
  {
    assert Sidecar(name)[|name|..] == MANIFEST_SUFFIX;
  }

  // ----- the remote copy

  /** An upload that ends in an error has deleted no remote file, and has touched no name but its own two. */
  lemma UploadsOnlyAdd(job: Job, name: string, data: Bytes, d: Digests, codec: Codec, env: Env,
                       local: LocalEntries, local': LocalEntries, remote: Entries, remote': Entries, r: Result,
                       trail: Trail)
    requires job.minFilesToKeep >= 0 && r.Failure?
    requires Uploads(job, name, data, d, codec, env, local, local', remote, remote', r, trail)
    ensures remote.Keys <= remote'.Keys
    ensures forall n :: n in remote' && n != name && n != Sidecar(name) ==> n in remote && remote'[n] == remote[n]
  {
  }

  /** The archive is not old yet, or the prune counts it among the newest it must keep. */
  ghost predicate Spared(uploaded: Entries, job: Job, env: Env, name: string, files: seq<FileInfo>) {
    || job.retentionDays <= 0
    || !env.pruneListUp
    || (IsArchive(uploaded, name) && !OlderThan(Info(uploaded, name), Cutoff(env.now, job.retentionDays)))
    || exists i ::
         0 <= i < Min(if job.minFilesToKeep < 0 then 0 else job.minFilesToKeep, |files|) && files[i].name == name
  }

  /** A backup that ends in success leaves an archive on the remote whose hash is the dump's, unless the prune was
      free to take it: the upload was dated before the cutoff and is not among the newest. */
  lemma SuccessMeansStored(job: Job, name: string, data: Bytes, d: Digests, codec: Codec, env: Env,
                           local: LocalEntries, local': LocalEntries, remote: Entries, remote': Entries, r: Result,
                           trail: Trail)
    requires job.minFilesToKeep >= 0 && r.Success? && ManifestWritten(env) && !HasSuffix(name, MANIFEST_SUFFIX)
    requires Uploads(job, name, data, d, codec, env, local, local', remote, remote', r, trail)
    requires Spared(AfterUploads(remote, name, ManifestBytes(job, name, data, d, codec, env), env), job, env, name,
                    trail.files)
    ensures IsArchive(remote', name) && d.md5(remote'[name].data) == d.md5(data)
    ensures (forall x :: d.md5(x) == d.md5(data) ==> x == data) ==> remote'[name].data == data
  {
    var uploaded := AfterUploads(remote, name, ManifestBytes(job, name, data, d, codec, env), env);
    assert IsArchive(uploaded, name) && d.md5(uploaded[name].data) == d.md5(data);
    SparedStays(uploaded, remote', job, env, name, trail);
  }

  lemma SparedStays(uploaded: Entries, after: Entries, job: Job, env: Env, name: string, trail: Trail)
    requires job.minFilesToKeep >= 0 && IsArchive(uploaded, name)
    requires RemoteOutcome(uploaded, after, job, env, trail.files, trail.pruned, trail.pruneOk)
    requires Spared(uploaded, job, env, name, trail.files)
    ensures IsArchive(after, name) && after[name] == uploaded[name]
  {
    if job.retentionDays > 0 && env.pruneListUp {
      var cutoff := Cutoff(env.now, job.retentionDays);
      if !OlderThan(Info(uploaded, name), cutoff) {
        RecentSurvive(uploaded, after, trail.files, cutoff, job.minFilesToKeep, trail.pruned, trail.pruneOk, name);
      } else {
        var i :| 0 <= i < Min(job.minFilesToKeep, |trail.files|) && trail.files[i].name == name;
        NewestSurvive(uploaded, after, trail.files, cutoff, job.minFilesToKeep, trail.pruned, trail.pruneOk, i);
      }
    }
  }

  /** The manifest goes only with its archive: if that is still there and the manifest was uploaded intact, so is the
      manifest. */
  lemma ManifestStored(job: Job, name: string, data: Bytes, d: Digests, codec: Codec, env: Env,
                       local: LocalEntries, local': LocalEntries, remote: Entries, remote': Entries, r: Result,
                       trail: Trail)
    requires job.minFilesToKeep >= 0 && r.Success? && ManifestWritten(env)
    requires Uploads(job, name, data, d, codec, env, local, local', remote, remote', r, trail)
    requires env.manifestUpload.stored == Some(codec.encode(ComputeManifest(d, job, name, data))) && name in remote'
    ensures Sidecar(name) in remote' &&
            remote'[Sidecar(name)] == File(codec.encode(ComputeManifest(d, job, name, data)),
                                           env.manifestUpload.modTime)
    ensures Sidecar(name) == name + ".manifest.json"
    ensures ComputeManifest(d, job, name, data) ==
            ArchiveManifest(job.name, job.backupType, name, d.sha256(data), d.md5(data), |data|)
  {
    var uploaded := AfterUploads(remote, name, ManifestBytes(job, name, data, d, codec, env), env);
    assert Sidecar(name) in uploaded;
    if job.retentionDays > 0 && env.pruneListUp {
      var doomed := Doomed(trail.files, Cutoff(env.now, job.retentionDays), job.minFilesToKeep);
      SidecarSurvives(uploaded, remote', trail.files, Cutoff(env.now, job.retentionDays), job.minFilesToKeep,
                      trail.pruned, trail.pruneOk, name);
    }
  }

  lemma SidecarSurvives(before: Entries, after: Entries, files: seq<FileInfo>, cutoff: int, keep: nat,
                        pruned: seq<string>, ok: bool, name: string)
    requires IsListing(before, files) && PruneEffect(before, after, Doomed(files, cutoff, keep), pruned, ok)
    requires Sidecar(name) in before && name in after
    ensures Sidecar(name) in after && after[Sidecar(name)] == before[Sidecar(name)]
  {
    var doomed := Doomed(files, cutoff, keep);
    NameSeqMembers(doomed[..|pruned|]);
    SidecarIsNoArchive(before, name);
    forall f | f in doomed ensures f.name != Sidecar(name) {
      PastMembers(files, OldBy(cutoff), keep, f);
      assert f in files;
    }
    forall m ensures Sidecar(name) == Sidecar(m) ==> m == name { SidecarInjective(name, m); }
    assert !MayGo(doomed, pruned, Sidecar(name));
  }
}
