/** The n8n backup: stop, tools, upload, and always start again (backup/n8n/n8n.go). */
module N8nBackup {
  import opened Text
  import opened Retention
  import opened Host
  import Upload
  import Restore

  datatype Error = NoContainer | NoVolume | StopCall | TempDir | TarCall | Upload(error: Upload.Error)

  /** `startToo`: the restart failed as well, which the wrapped error mentions. */
  datatype Result = Success(warning: bool) | Failure(error: Error, startToo: bool)

  /** The backup up to the deferred restart. */
  datatype Body = Good(warning: bool) | Bad(error: Error)

  /** The deferred function: an earlier error is kept, a good backup only gains a warning. */
  function Close(body: Body, started: bool): Result {
    match body
    case Good(warning) => Success(warning || !started)
    case Bad(error) => Failure(error, !started)
  }

  predicate Stopped(target: Restore.Target, from: nat, reply: nat -> Reply) {
    target.container != "" && target.volume != "" && reply(from).Done?
  }

  /** The docker calls of a backup on a host that has seen `from` calls before. */
  function Calls(target: Restore.Target, tempUp: bool, from: nat, reply: nat -> Reply): seq<Action> {
    if target.container == "" || target.volume == "" then []
    else if !reply(from).Done? then [Stop(target.container)]
    else if tempUp then [Stop(target.container), Archive(target.volume), Start(target.container)]
    else [Stop(target.container), Start(target.container)]
  }

  /** The archive was made. */
  predicate Tarred(target: Restore.Target, tempUp: bool, from: nat, reply: nat -> Reply) {
    target.container != "" && target.volume != "" && reply(from).Done? && tempUp && reply(from + 1).Done?
  }

  /** The part between stop and restart. Nothing is uploaded unless the archive was made. */
  method TarAndUpload(docker: Docker, archiver: Upload.Archiver, job: Upload.Job, target: Restore.Target, name: string,
                      d: Upload.Digests, codec: Upload.Codec, tempUp: bool, env: Upload.Env)
    returns (body: Body, ghost up: Upload.Result, ghost trail: Upload.Trail)
    requires job.minFilesToKeep >= 0
    modifies docker, archiver`local, archiver.remote
    ensures docker.trace == old(docker.trace) + if tempUp then [Archive(target.volume)] else []
    ensures !tempUp ==> body == Bad(TempDir)
    ensures tempUp && !docker.reply(|old(docker.trace)|).Done? ==> body == Bad(TarCall)
    ensures !tempUp || !docker.reply(|old(docker.trace)|).Done? ==>
              archiver.local == old(archiver.local) && archiver.remote.entries == old(archiver.remote.entries)
    ensures tempUp && docker.reply(|old(docker.trace)|).Done? ==>
              && (up.Success? ==> body == Good(up.warning))
              && (up.Failure? ==> body == Bad(Upload(up.error)))
              && Upload.Uploads(job, name, docker.tools.pack(Volume(old(docker.Now()), target.volume)), d, codec, env,
                                old(archiver.local), archiver.local, old(archiver.remote.entries),
                                archiver.remote.entries, up, trail)
  {
    up, trail := Upload.Failure(Upload.Stat), Upload.Trail(false, [], [], true);
    if !tempUp { return Bad(TempDir), up, trail; }
    var data := docker.tools.pack(Volume(docker.Now(), target.volume));
    var ok := docker.Do(Archive(target.volume));
    if !ok { return Bad(TarCall), up, trail; }
    var result;
    result, trail := archiver.UploadArchive(job, name, data, d, codec, env);
    up := result;
    body := match result case Success(warning) => Good(warning) case Failure(error) => Bad(Upload(error));
  }

  /** From the stop to the deferred restart, which comes last whatever happened. */
  method WhileStopped(docker: Docker, archiver: Upload.Archiver, job: Upload.Job, target: Restore.Target, name: string,
                      d: Upload.Digests, codec: Upload.Codec, tempUp: bool, env: Upload.Env)
    returns (r: Result, ghost up: Upload.Result, ghost trail: Upload.Trail)
    requires job.minFilesToKeep >= 0
    modifies docker, archiver`local, archiver.remote
    ensures docker.trace == old(docker.trace) +
            (if tempUp then [Archive(target.volume)] else []) + [Start(target.container)]
    ensures var tarred := tempUp && docker.reply(|old(docker.trace)|).Done?;
            var started := docker.reply(|old(docker.trace)| + if tempUp then 1 else 0).Done?;
            && (r.Success? <==> tarred && up.Success?)
            && (r.Success? ==> (r.warning <==> up.warning || !started))
            && (r.Failure? ==> (r.startToo <==> !started))
            && (r.Failure? ==> r.error == if !tempUp then TempDir else if !tarred then TarCall else Upload(up.error))
            && if tarred
               then Upload.Uploads(job, name, docker.tools.pack(Volume(old(docker.Now()), target.volume)),
                                   d, codec, env, old(archiver.local), archiver.local,
                                   old(archiver.remote.entries), archiver.remote.entries, up, trail)
               else archiver.local == old(archiver.local) && archiver.remote.entries == old(archiver.remote.entries)
  {
    var body;
    body, up, trail := TarAndUpload(docker, archiver, job, target, name, d, codec, tempUp, env);
    var started := docker.Do(Start(target.container));
    r := Close(body, started);
  }

  /** The backup succeeds exactly when each step did, the restart apart; its error is that of the first step that did
      not, whatever becomes of the restart; and what is uploaded is the volume as it was before. */
  method Backup(docker: Docker, archiver: Upload.Archiver, job: Upload.Job, target: Restore.Target, name: string,
                d: Upload.Digests, codec: Upload.Codec, tempUp: bool, env: Upload.Env)
    returns (r: Result, ghost up: Upload.Result, ghost trail: Upload.Trail)
    requires job.minFilesToKeep >= 0
    modifies docker, archiver`local, archiver.remote
    ensures var (c, v) := (target.container, target.volume);
            docker.trace == old(docker.trace) +
            if c == "" || v == "" then [] else if !docker.reply(|old(docker.trace)|).Done? then [Stop(c)]
            else if tempUp then [Stop(c), Archive(v), Start(c)] else [Stop(c), Start(c)]
    ensures docker.trace == old(docker.trace) + Calls(target, tempUp, |old(docker.trace)|, docker.reply)
    ensures target.container == "" ==> r == Failure(NoContainer, false)
    ensures target.container != "" && target.volume == "" ==> r == Failure(NoVolume, false)
    ensures target.container != "" && target.volume != "" && !docker.reply(|old(docker.trace)|).Done? ==>
              r == Failure(StopCall, false)
    ensures target.container != "" && target.volume != "" && docker.reply(|old(docker.trace)|).Done? ==>
              var tarred := tempUp && docker.reply(|old(docker.trace)| + 1).Done?;
              var started := docker.reply(|old(docker.trace)| + if tempUp then 2 else 1).Done?;
              && (r.Success? <==> tarred && up.Success?)
              && (r.Success? ==> (r.warning <==> up.warning || !started))
              && (r.Failure? ==> (r.startToo <==> !started))
              && (r.Failure? ==>
                    r.error == if !tempUp then TempDir else if !tarred then TarCall else Upload(up.error))
    ensures if Tarred(target, tempUp, |old(docker.trace)|, docker.reply)
            then Upload.Uploads(job, name, docker.tools.pack(Volume(old(docker.Now()), target.volume)),
                                d, codec, env, old(archiver.local), archiver.local,
                                old(archiver.remote.entries), archiver.remote.entries, up, trail)
            else archiver.local == old(archiver.local) && archiver.remote.entries == old(archiver.remote.entries)
  {
    up, trail := Upload.Failure(Upload.Stat), Upload.Trail(false, [], [], true);
    if target.container == "" { return Failure(NoContainer, false), up, trail; }
    if target.volume == "" { return Failure(NoVolume, false), up, trail; }
    var ok := docker.Do(Stop(target.container));
    if !ok { return Failure(StopCall, false), up, trail; }
    StopKeepsVolumes(docker, old(docker.trace), target.container);
    assert Volume(docker.Now(), target.volume) == Volume(old(docker.Now()), target.volume);
    r, up, trail := WhileStopped(docker, archiver, job, target, name, d, codec, tempUp, env);
  }

  lemma StopKeepsVolumes(docker: Docker, before: seq<Action>, c: string)
    requires docker.trace == before + [Stop(c)]
    ensures docker.Now().volumes == AfterAll(docker.initial, before, docker.reply, docker.tools).volumes
  {
    AfterLast(docker.initial, before, Stop(c), docker.reply, docker.tools);
  }

  /** After a successful stop the restart is attempted exactly once, as the last docker call, whatever happened
      in between; without one there is no restart at all. */
  lemma RestartsExactlyOnce(target: Restore.Target, tempUp: bool, from: nat, reply: nat -> Reply)
    ensures var calls := Calls(target, tempUp, from, reply);
            && multiset(calls)[Start(target.container)] == (if Stopped(target, from, reply) then 1 else 0)
            && (Stopped(target, from, reply) ==> calls[|calls| - 1] == Start(target.container))
            && (forall a :: a in calls && a.Start? ==> a == Start(target.container))
  {
  }

  lemma DownAfterStop(c: string, v: string, tempUp: bool, initial: World, trace: seq<Action>, reply: nat -> Reply,
                      tools: Tools)
    requires reply(|trace|).Done?
    ensures c !in Played(initial, trace, [Stop(c)] + (if tempUp then [Archive(v)] else []), reply, tools).running
  {
    PlayedNext(initial, trace, [], Stop(c), reply, tools);
    assert [] + [Stop(c)] == [Stop(c)] && [Stop(c)] + [] == [Stop(c)];
    PlayedNext(initial, trace, [Stop(c)], Archive(v), reply, tools);
  }

  lemma AfterStopCall(c: string, initial: World, trace: seq<Action>, reply: nat -> Reply, tools: Tools)
    ensures Played(initial, trace, [Stop(c)], reply, tools).running ==
            AfterAll(initial, trace, reply, tools).running - if reply(|trace|).Refused? then {} else {c}
  {
    PlayedNone(initial, trace, reply, tools);
    PlayedNext(initial, trace, [], Stop(c), reply, tools);
    assert [] + [Stop(c)] == [Stop(c)];
  }

  lemma AfterRestart(c: string, v: string, tempUp: bool, initial: World, trace: seq<Action>, reply: nat -> Reply,
                     tools: Tools, calls: seq<Action>)
    requires reply(|trace|).Done? && calls == [Stop(c)] + if tempUp then [Archive(v)] else []
    ensures c in Played(initial, trace, calls + [Start(c)], reply, tools).running <==>
            !reply(|trace| + |calls|).Refused?
  {
    DownAfterStop(c, v, tempUp, initial, trace, reply, tools);
    PlayedNext(initial, trace, calls, Start(c), reply, tools);
  }

  /** A container that ran before the backup runs after it, except in exactly two cases: the stop was carried out
      but reported as failed, or the restart was refused. */
  lemma RunsAgain(target: Restore.Target, tempUp: bool, initial: World, trace: seq<Action>, reply: nat -> Reply,
                  tools: Tools)
    requires target.container != "" && target.volume != ""
    requires target.container in AfterAll(initial, trace, reply, tools).running
    ensures var calls := Calls(target, tempUp, |trace|, reply);
            target.container in Played(initial, trace, calls, reply, tools).running <==>
            reply(|trace|).Refused? || (reply(|trace|).Done? && !reply(|trace| + |calls| - 1).Refused?)
  {
    var c := target.container;
    if reply(|trace|).Done? {
      assert Calls(target, tempUp, |trace|, reply) ==
             [Stop(c)] + (if tempUp then [Archive(target.volume)] else []) + [Start(c)];
      AfterRestart(c, target.volume, tempUp, initial, trace, reply, tools,
                   [Stop(c)] + if tempUp then [Archive(target.volume)] else []);
    } else {
      AfterStopCall(c, initial, trace, reply, tools);
    }
  }

  /** From volume to volume: `files` is what the tar call of a successful backup saw and the upload is what `Backup`
      promises; then, over any later changes of the remote directory that leave the manifest alone and on any later
      host, a restore that succeeds without a warning puts back those files, beside what its wipe left. */
  lemma VolumeComesBack(files: Files, target: Restore.Target, env: Restore.Env, job: Upload.Job, name: string,
                        upload: Upload.Env,
                        local: Upload.LocalEntries, local': Upload.LocalEntries, remote: Entries, remote': Entries,
                        up: Upload.Result, stored: Upload.Trail, later: Entries,
                        initial: World, trace: seq<Action>, reply: nat -> Reply, tools: Tools)
    requires job.minFilesToKeep >= 0 && up.Success? && Upload.ManifestWritten(upload) && name in remote'
    requires Upload.Uploads(job, name, tools.pack(files), env.digests, env.codec, upload, local, local', remote,
                            remote', up, stored)
    requires var m := Upload.ComputeManifest(env.digests, job, name, tools.pack(files));
             upload.manifestUpload.stored == Some(env.codec.encode(m)) &&
             env.codec.decode(env.codec.encode(m)) == Some(m)
    requires Restore.SidecarUnchanged(remote', later, name) && Restore.FetchedFrom(later, name, env)
    requires tools.unpack(tools.pack(files)) == Some(files) && Restore.CollisionFree(env.digests, tools.pack(files))
    requires Restore.Compatible(Leftover(Volume(AfterAll(initial, trace, reply, tools), target.volume), tools), files)
    requires Restore.Plan(Restore.N8n, target, env, |trace|, reply, tools).0 == Restore.Restored(false)
    ensures var was := Volume(AfterAll(initial, trace, reply, tools), target.volume);
            var after := Played(initial, trace, Restore.Plan(Restore.N8n, target, env, |trace|, reply, tools).1, reply,
                                tools);
            && Volume(after, target.volume) == Leftover(was, tools) + files
            && target.container !in after.running
  {
    Restore.ManifestStaysIntact(Restore.N8n, env, job, name, tools.pack(files), upload, local, local', remote, remote',
                                up, stored, later);
    SilentRestoreBringsBack(files, target, env, job, name, initial, trace, reply, tools);
  }

  lemma SilentRestoreBringsBack(files: Files, target: Restore.Target, env: Restore.Env, job: Upload.Job, name: string,
                                 initial: World, trace: seq<Action>, reply: nat -> Reply, tools: Tools)
    requires tools.unpack(tools.pack(files)) == Some(files) && Restore.CollisionFree(env.digests, tools.pack(files))
    requires env.fetch.manifest == None || Restore.ManifestIntact(Restore.N8n, env, job, name, tools.pack(files))
    requires Restore.Compatible(Leftover(Volume(AfterAll(initial, trace, reply, tools), target.volume), tools), files)
    requires Restore.Plan(Restore.N8n, target, env, |trace|, reply, tools).0 == Restore.Restored(false)
    ensures var was := Volume(AfterAll(initial, trace, reply, tools), target.volume);
            var after := Played(initial, trace, Restore.Plan(Restore.N8n, target, env, |trace|, reply, tools).1, reply,
                                tools);
            && Volume(after, target.volume) == Leftover(was, tools) + files
            && target.container !in after.running
  {
    var dump := tools.pack(files);
    var script := Restore.Script(Restore.N8n, target, dump);
    Restore.SilentRestore(Restore.N8n, target, env, job, name, dump, |trace|, reply, tools);
    ThreeDone(script, |trace|, reply, tools);
    assert script + [] == script;
    Restore.N8nReplacesVolume(target, dump, files, initial, trace, reply, tools);
  }

  lemma ThreeDone(script: seq<Action>, from: nat, reply: nat -> Reply, tools: Tools)
    requires |script| == 3 && forall j :: 0 <= j < |script| ==> Accepted(script[j], reply(from + j), tools)
    ensures reply(from).Done? && reply(from + 1).Done? && reply(from + 2).Done?
  {
    assert Accepted(script[0], reply(from + 0), tools) && Accepted(script[1], reply(from + 1), tools)
           && Accepted(script[2], reply(from + 2), tools);
  }
}
