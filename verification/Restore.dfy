/**
 The restore executors (the restore package). Downloads, temporary files and docker calls may fail at any point;
 what each of them does is fixed by a `Fetch` and by the host's replies.
 */
module Restore {
  import opened Text
  import opened Retention
  import opened Host
  import Upload

  type Digests = Upload.Digests
  type Codec = Upload.Codec

  datatype Kind = Standard | N8n | Redis | Postgres | RabbitMQ

  datatype Target = Target(container: string, volume: string, credentials: map<string, string>)

  /** gzip, taken as given. */
  datatype Gzip = Gzip(compress: Bytes -> Bytes, expand: Bytes -> Option<Bytes>)

  /** What the downloads leave in the scratch directory; the archive may hold any bytes. */
  datatype Fetch = Fetch(tempUp: bool, archive: Option<Bytes>, readUp: bool, manifest: Option<Bytes>, scratchUp: bool)

  datatype Env = Env(fetch: Fetch, digests: Digests, codec: Codec, gzip: Gzip)

  datatype Error =
    | NoContainer | NoVolume | NoCredentials
    | TempDir | Download | Read | Mismatch | Decompress | Scratch
    | DockerCall

  datatype Verdict = Verified | Unverified | Refuted

  datatype Payload = Ready(data: Bytes, warning: bool) | Unavailable(error: Error)

  datatype Outcome = Restored(warning: bool) | Failed(error: Error)

  const DUMP_RDB := "/data/dump.rdb"
  const DEFINITIONS := "/tmp/dockvault-restore-definitions.json"

  /** A manifest that is missing or does not parse is a warning, never an error. */
  function Verify(env: Env, data: Bytes): Verdict {
    if env.fetch.manifest.None? then Unverified
    else match env.codec.decode(env.fetch.manifest.value)
      case None => Unverified
      case Some(m) => if env.digests.sha256(data) == m.sha256 then Verified else Refuted
  }

  // ----- what each executor is meant to do

  predicate StopsContainer(kind: Kind) {
    kind in {Redis, N8n}
  }

  predicate Gzipped(kind: Kind) {
    kind in {Postgres, RabbitMQ}
  }

  function Credential(target: Target, key: string): string {
    if key in target.credentials then target.credentials[key] else ""
  }

  function PsqlEnv(target: Target): map<string, string> {
    var pw := Credential(target, "POSTGRES_PASSWORD");
    if pw == "" then map[] else map["PGPASSWORD" := pw]
  }

  function Missing(kind: Kind, target: Target): Option<Error> {
    if kind != Standard && target.container == "" then Some(NoContainer)
    else if kind in {Standard, N8n} && target.volume == "" then Some(NoVolume)
    else if kind == Postgres &&
            (Credential(target, "POSTGRES_USER") == "" || Credential(target, "POSTGRES_DB") == "") then
      Some(NoCredentials)
    else None
  }

  /** The docker calls a restore stands or falls with. */
  function Script(kind: Kind, target: Target, payload: Bytes): seq<Action> {
    match kind
    case Standard => [Extract(target.volume, payload)]
    case N8n => [Stop(target.container), Wipe(target.volume), Extract(target.volume, payload)]
    case Redis => [Stop(target.container), CopyIn(target.container, DUMP_RDB, payload)]
    case Postgres =>
      [Psql(target.container, Credential(target, "POSTGRES_USER"), Credential(target, "POSTGRES_DB"),
            PsqlEnv(target), payload)]
    case RabbitMQ => [CopyIn(target.container, DEFINITIONS, payload), Import(target.container, DEFINITIONS)]
  }

  /** The scratch copy is removed on both ways out that follow its creation; nobody looks at the reply. */
  function Cleanup(kind: Kind, target: Target, tried: nat): seq<Action> {
    if kind == RabbitMQ && tried > 1 then [Remove(target.container, DEFINITIONS)] else []
  }

  /** From call `i` on, calls go out one by one until one fails. */
  function Tried(script: seq<Action>, i: nat, from: nat, reply: nat -> Reply, tools: Tools): seq<Action>
    requires i <= |script|
    decreases |script| - i
  {
    if i == |script| then []
    else if !Accepted(script[i], reply(from + i), tools) then [script[i]]
    else [script[i]] + Tried(script, i + 1, from, reply, tools)
  }

  predicate Through(script: seq<Action>, i: nat, from: nat, reply: nat -> Reply, tools: Tools)
    requires i <= |script|
    decreases |script| - i
  {
    i == |script| || (Accepted(script[i], reply(from + i), tools) && Through(script, i + 1, from, reply, tools))
  }

  /** Downloaded, verified, and decompressed where the backup compressed. */
  function Obtain(kind: Kind, env: Env): Payload {
    var f := env.fetch;
    if !f.tempUp then Unavailable(TempDir)
    else if f.archive.None? then Unavailable(Download)
    else if Gzipped(kind) && !f.readUp then Unavailable(Read)
    else
      var verdict := Verify(env, f.archive.value);
      if verdict != Unverified && !f.readUp then Unavailable(Read)
      else if verdict == Refuted then Unavailable(Mismatch)
      else if !Gzipped(kind) then Ready(f.archive.value, verdict == Unverified)
      else match env.gzip.expand(f.archive.value)
        case None => Unavailable(Decompress)
        case Some(data) =>
          if kind == RabbitMQ && !f.scratchUp then Unavailable(Scratch) else Ready(data, verdict == Unverified)
  }

  function Prepare(kind: Kind, target: Target, env: Env): Payload {
    if Missing(kind, target).Some? then Unavailable(Missing(kind, target).value) else Obtain(kind, env)
  }

  /** The result of a restore, and the calls it makes on a host that has seen `from` calls before. */
  function Plan(kind: Kind, target: Target, env: Env, from: nat, reply: nat -> Reply, tools: Tools): (Outcome,
                seq<Action>) {
    match Prepare(kind, target, env)
    case Unavailable(error) => (Failed(error), [])
    case Ready(payload, warning) =>
      var script := Script(kind, target, payload);
      var tried := Tried(script, 0, from, reply, tools);
      (if Through(script, 0, from, reply, tools) then Restored(warning) else Failed(DockerCall),
       tried + Cleanup(kind, target, |tried|))
  }

  /** Either every call succeeds and all go out, or the first that fails is the last. */
  lemma {:induction false} CallsInOrder(script: seq<Action>, i: nat, from: nat, reply: nat -> Reply, tools: Tools)
    requires i <= |script|
    ensures Through(script, i, from, reply, tools) <==>
            forall j :: i <= j < |script| ==> Accepted(script[j], reply(from + j), tools)
    ensures Through(script, i, from, reply, tools) ==> Tried(script, i, from, reply, tools) == script[i..]
    ensures !Through(script, i, from, reply, tools) ==>
              exists n :: i <= n < |script| && FirstRefusal(script, i, n, from, reply, tools)
                          && Tried(script, i, from, reply, tools) == script[i..n + 1]
    decreases |script| - i
  {
    if i < |script| {
      CallsInOrder(script, i + 1, from, reply, tools);
      if Accepted(script[i], reply(from + i), tools) && !Through(script, i + 1, from, reply, tools) {
        var n :| i + 1 <= n < |script| && FirstRefusal(script, i + 1, n, from, reply, tools)
                 && Tried(script, i + 1, from, reply, tools) == script[i + 1..n + 1];
        assert FirstRefusal(script, i, n, from, reply, tools);
      } else if !Accepted(script[i], reply(from + i), tools) {
        assert FirstRefusal(script, i, i, from, reply, tools);
      }
    }
  }

  ghost predicate FirstRefusal(script: seq<Action>, i: nat, n: nat, from: nat, reply: nat -> Reply, tools: Tools) {
    && n < |script| && !Accepted(script[n], reply(from + n), tools)
    && forall j :: i <= j < n ==> Accepted(script[j], reply(from + j), tools)
  }

  lemma TwoCalls(a: Action, b: Action, from: nat, reply: nat -> Reply, tools: Tools)
    ensures Through([a, b], 0, from, reply, tools) <==>
            Accepted(a, reply(from), tools) && Accepted(b, reply(from + 1), tools)
    ensures Tried([a, b], 0, from, reply, tools) == if Accepted(a, reply(from), tools) then [a, b] else [a]
  {
    assert Tried([a, b], 1, from, reply, tools) == [b];
    assert Through([a, b], 1, from, reply, tools) == Accepted(b, reply(from + 1), tools);
  }

  lemma ThreeCalls(a: Action, b: Action, c: Action, from: nat, reply: nat -> Reply, tools: Tools)
    ensures Through([a, b, c], 0, from, reply, tools) <==>
            Accepted(a, reply(from), tools) && Accepted(b, reply(from + 1), tools) &&
            Accepted(c, reply(from + 2), tools)
    ensures Tried([a, b, c], 0, from, reply, tools) ==
            if !Accepted(a, reply(from), tools) then [a]
            else if !Accepted(b, reply(from + 1), tools) then [a, b] else [a, b, c]
  {
    var script := [a, b, c];
    assert Tried(script, 2, from, reply, tools) == [c];
    assert Through(script, 2, from, reply, tools) == Accepted(c, reply(from + 2), tools);
    assert Tried(script, 1, from, reply, tools) == [b] + if Accepted(b, reply(from + 1), tools) then [c] else [];
    assert Through(script, 1, from, reply, tools) ==
           (Accepted(b, reply(from + 1), tools) && Accepted(c, reply(from + 2), tools));
  }

  // ----- the executors

  /** `downloadAndRead` with decompression: the hash is taken over the bytes as uploaded. */
  method DownloadAndRead(env: Env) returns (p: Payload)
    ensures p == Obtain(Postgres, env)
  {
    if !env.fetch.tempUp { return Unavailable(TempDir); }
    if env.fetch.archive.None? { return Unavailable(Download); }
    if !env.fetch.readUp { return Unavailable(Read); }
    var data := env.fetch.archive.value;
    var verdict := Verify(env, data);
    if verdict == Refuted { return Unavailable(Mismatch); }
    match env.gzip.expand(data)
    case None => return Unavailable(Decompress);
    case Some(out) => return Ready(out, verdict == Unverified);
  }

  /** Download to disk and verify, for the executors that hand docker a file. */
  method DownloadAndVerify(env: Env) returns (p: Payload)
    ensures p == Obtain(Standard, env)
  {
    if !env.fetch.tempUp { return Unavailable(TempDir); }
    if env.fetch.archive.None? { return Unavailable(Download); }
    var verdict := Verify(env, env.fetch.archive.value);
    if verdict != Unverified && !env.fetch.readUp { return Unavailable(Read); }
    if verdict == Refuted { return Unavailable(Mismatch); }
    return Ready(env.fetch.archive.value, verdict == Unverified);
  }

  method RestoreStandard(docker: Docker, target: Target, env: Env) returns (r: Outcome)
    modifies docker
    ensures r == Plan(Standard, target, env, |old(docker.trace)|, docker.reply, docker.tools).0
    ensures docker.trace == old(docker.trace) +
            Plan(Standard, target, env, |old(docker.trace)|, docker.reply, docker.tools).1
    ensures r.Restored? ==>
              && env.fetch.archive.Some?
              && docker.trace == old(docker.trace) + [Extract(target.volume, env.fetch.archive.value)]
  {
    if target.volume == "" { return Failed(NoVolume); }
    var p := DownloadAndVerify(env);
    if p.Unavailable? { return Failed(p.error); }
    ghost var script := Script(Standard, target, p.data);
    CallsInOrder(script, 0, |docker.trace|, docker.reply, docker.tools);
    var ok := docker.Do(Extract(target.volume, p.data));
    if !ok { return Failed(DockerCall); }
    return Restored(p.warning);
  }

  method RestoreN8n(docker: Docker, target: Target, env: Env) returns (r: Outcome)
    modifies docker
    ensures r == Plan(N8n, target, env, |old(docker.trace)|, docker.reply, docker.tools).0
    ensures docker.trace == old(docker.trace) +
            Plan(N8n, target, env, |old(docker.trace)|, docker.reply, docker.tools).1
    ensures r.Restored? ==>
              && env.fetch.archive.Some?
              && docker.trace == old(docker.trace) +
                 [Stop(target.container), Wipe(target.volume), Extract(target.volume, env.fetch.archive.value)]
  {
    if target.container == "" { return Failed(NoContainer); }
    if target.volume == "" { return Failed(NoVolume); }
    var p := DownloadAndVerify(env);
    if p.Unavailable? { return Failed(p.error); }
    ThreeCalls(Stop(target.container), Wipe(target.volume), Extract(target.volume, p.data), |docker.trace|,
               docker.reply, docker.tools);
    var ok := docker.Do(Stop(target.container));
    if !ok { return Failed(DockerCall); }
    ok := docker.Do(Wipe(target.volume));
    if !ok { return Failed(DockerCall); }
    ok := docker.Do(Extract(target.volume, p.data));
    if !ok { return Failed(DockerCall); }
    return Restored(p.warning);
  }

  method RestoreRedis(docker: Docker, target: Target, env: Env) returns (r: Outcome)
    modifies docker
    ensures r == Plan(Redis, target, env, |old(docker.trace)|, docker.reply, docker.tools).0
    ensures docker.trace == old(docker.trace) +
            Plan(Redis, target, env, |old(docker.trace)|, docker.reply, docker.tools).1
    ensures r.Restored? ==>
              && env.fetch.archive.Some?
              && docker.trace == old(docker.trace) +
                 [Stop(target.container), CopyIn(target.container, "/data/dump.rdb", env.fetch.archive.value)]
              && target.container !in docker.Now().running
              && (target.container, "/data/dump.rdb") in docker.Now().files
              && docker.Now().files[(target.container, "/data/dump.rdb")] == env.fetch.archive.value
  {
    if target.container == "" { return Failed(NoContainer); }
    var p := DownloadAndVerify(env);
    if p.Unavailable? { return Failed(p.error); }
    TwoCalls(Stop(target.container), CopyIn(target.container, DUMP_RDB, p.data), |docker.trace|, docker.reply,
             docker.tools);
    var ok := docker.Do(Stop(target.container));
    if !ok { return Failed(DockerCall); }
    ok := docker.Do(CopyIn(target.container, DUMP_RDB, p.data));
    if !ok { return Failed(DockerCall); }
    RedisPutsDump(target.container, p.data, docker.initial, old(docker.trace), docker.reply, docker.tools);
    assert docker.trace == old(docker.trace) + [Stop(target.container), CopyIn(target.container, DUMP_RDB, p.data)];
    return Restored(p.warning);
  }

  method RestorePostgres(docker: Docker, target: Target, env: Env) returns (r: Outcome)
    modifies docker
    ensures r == Plan(Postgres, target, env, |old(docker.trace)|, docker.reply, docker.tools).0
    ensures docker.trace == old(docker.trace) +
            Plan(Postgres, target, env, |old(docker.trace)|, docker.reply, docker.tools).1
    ensures r.Restored? ==>
              && env.fetch.archive.Some? && env.gzip.expand(env.fetch.archive.value).Some?
              && "POSTGRES_USER" in target.credentials && "POSTGRES_DB" in target.credentials
              && docker.trace == old(docker.trace) +
                 [Psql(target.container, target.credentials["POSTGRES_USER"], target.credentials["POSTGRES_DB"],
                       (var c := target.credentials;
                        if "POSTGRES_PASSWORD" in c && c["POSTGRES_PASSWORD"] != ""
                        then map["PGPASSWORD" := c["POSTGRES_PASSWORD"]] else map[]),
                       env.gzip.expand(env.fetch.archive.value).value)]
  {
    if target.container == "" { return Failed(NoContainer); }
    var user, db := Credential(target, "POSTGRES_USER"), Credential(target, "POSTGRES_DB");
    if user == "" || db == "" { return Failed(NoCredentials); }
    var p := DownloadAndRead(env);
    if p.Unavailable? { return Failed(p.error); }
    var vars: map<string, string> := map[];
    var pw := Credential(target, "POSTGRES_PASSWORD");
    if pw != "" { vars := vars["PGPASSWORD" := pw]; }
    ghost var script := Script(Postgres, target, p.data);
    CallsInOrder(script, 0, |docker.trace|, docker.reply, docker.tools);
    var ok := docker.Do(Psql(target.container, user, db, vars, p.data));
    if !ok { return Failed(DockerCall); }
    return Restored(p.warning);
  }

  method RestoreRabbitMQ(docker: Docker, target: Target, env: Env) returns (r: Outcome)
    modifies docker
    ensures r == Plan(RabbitMQ, target, env, |old(docker.trace)|, docker.reply, docker.tools).0
    ensures docker.trace == old(docker.trace) +
            Plan(RabbitMQ, target, env, |old(docker.trace)|, docker.reply, docker.tools).1
    ensures r.Restored? ==>
              && env.fetch.archive.Some? && env.gzip.expand(env.fetch.archive.value).Some?
              && var path := "/tmp/dockvault-restore-definitions.json";
                 docker.trace == old(docker.trace) +
                 [CopyIn(target.container, path, env.gzip.expand(env.fetch.archive.value).value),
                  Import(target.container, path), Remove(target.container, path)]
  {
    if target.container == "" { return Failed(NoContainer); }
    var p := DownloadAndRead(env);
    if p.Unavailable? { return Failed(p.error); }
    if !env.fetch.scratchUp { return Failed(Scratch); }
    TwoCalls(CopyIn(target.container, DEFINITIONS, p.data), Import(target.container, DEFINITIONS), |docker.trace|,
             docker.reply, docker.tools);
    var ok := docker.Do(CopyIn(target.container, DEFINITIONS, p.data));
    if !ok { return Failed(DockerCall); }
    ok := docker.Do(Import(target.container, DEFINITIONS));
    r := if ok then Restored(p.warning) else Failed(DockerCall);
    var _ := docker.Do(Remove(target.container, DEFINITIONS));
  }

  /** The container is left down, with the dump where the server looks for it at its next start. */
  lemma RedisPutsDump(c: string, dump: Bytes, initial: World, trace: seq<Action>, reply: nat -> Reply, tools: Tools)
    requires reply(|trace|).Done? && reply(|trace| + 1).Done?
    ensures var after := Played(initial, trace, [Stop(c), CopyIn(c, "/data/dump.rdb", dump)], reply, tools);
            && c !in after.running
            && (c, "/data/dump.rdb") in after.files && after.files[(c, "/data/dump.rdb")] == dump
  {
    var stop, copy := Stop(c), CopyIn(c, "/data/dump.rdb", dump);
    PlayedNone(initial, trace, reply, tools);
    PlayedNext(initial, trace, [], stop, reply, tools);
    PlayedNext(initial, trace, [stop], copy, reply, tools);
    assert [] + [stop] == [stop] && [stop] + [copy] == [stop, copy];
  }

  // ----- what may reach docker

  predicate HasCredential(target: Target, key: string) {
    key in target.credentials && target.credentials[key] != ""
  }

  /** The manifest came and parses. */
  predicate Usable(env: Env) {
    env.fetch.manifest.Some? && env.codec.decode(env.fetch.manifest.value).Some?
  }

  predicate HashDiffers(env: Env) {
    env.fetch.archive.Some? && Usable(env) &&
    env.codec.decode(env.fetch.manifest.value).value.sha256 != env.digests.sha256(env.fetch.archive.value)
  }

  predicate Expands(env: Env) {
    env.fetch.archive.Some? && env.gzip.expand(env.fetch.archive.value).Some?
  }

  /** What is fit to restore, and what is then restored: the archive as it came, or expanded. */
  lemma PreparedExactly(kind: Kind, target: Target, env: Env)
    ensures Prepare(kind, target, env).Ready? <==>
            && (kind != Standard ==> target.container != "")
            && (kind == Standard || kind == N8n ==> target.volume != "")
            && (kind == Postgres ==> HasCredential(target, "POSTGRES_USER") && HasCredential(target, "POSTGRES_DB"))
            && env.fetch.tempUp && env.fetch.archive.Some?
            && !HashDiffers(env)
            && (Usable(env) || kind == Postgres || kind == RabbitMQ ==> env.fetch.readUp)
            && (kind == Postgres || kind == RabbitMQ ==> Expands(env))
            && (kind == RabbitMQ ==> env.fetch.scratchUp)
    ensures Prepare(kind, target, env).Ready? ==>
              var (data, warning) := (Prepare(kind, target, env).data, Prepare(kind, target, env).warning);
              && (warning <==> !Usable(env))
              && (kind == Postgres || kind == RabbitMQ ==> Some(data) == env.gzip.expand(env.fetch.archive.value))
              && (kind != Postgres && kind != RabbitMQ ==> Some(data) == env.fetch.archive)
  {
  }

  /** Which of several obstacles is reported: the first in the order of the steps. */
  lemma FirstObstacleReported(kind: Kind, target: Target, env: Env)
    requires Prepare(kind, target, env).Unavailable?
    ensures match Prepare(kind, target, env).error
            case NoContainer => kind != Standard && target.container == ""
            case NoVolume => (kind == Standard || (kind == N8n && target.container != "")) && target.volume == ""
            case NoCredentials =>
              && kind == Postgres && target.container != ""
              && !(HasCredential(target, "POSTGRES_USER") && HasCredential(target, "POSTGRES_DB"))
            case error =>
              && (kind != Standard ==> target.container != "")
              && (kind == Standard || kind == N8n ==> target.volume != "")
              && (kind == Postgres ==> HasCredential(target, "POSTGRES_USER") && HasCredential(target, "POSTGRES_DB"))
              && (error == TempDir <==> !env.fetch.tempUp)
              && (error == Download <==> env.fetch.tempUp && env.fetch.archive.None?)
              && (error == Read ==> !env.fetch.readUp)
              && (error == Mismatch ==> env.fetch.readUp && HashDiffers(env))
              && (error == Decompress ==> env.fetch.readUp && !HashDiffers(env) && !Expands(env))
              && (error == Scratch ==> !HashDiffers(env) && Expands(env) && !env.fetch.scratchUp)
              && error in {TempDir, Download, Read, Mismatch, Decompress, Scratch}
  {
  }

  /** Calls go out in this order; only after a successful copy of definitions is there anything to clean up. */
  lemma PlannedCalls(kind: Kind, target: Target, env: Env, from: nat, reply: nat -> Reply, tools: Tools)
    requires Prepare(kind, target, env).Ready?
    ensures var (c, v, calls) := (target.container, target.volume, Plan(kind, target, env, from, reply, tools).1);
            var (data, path) := (Prepare(kind, target, env).data, "/tmp/dockvault-restore-definitions.json");
            match kind
            case Standard => calls == [Extract(v, data)]
            case N8n => |calls| >= 1 && calls <= [Stop(c), Wipe(v), Extract(v, data)]
            case Redis => |calls| >= 1 && calls <= [Stop(c), CopyIn(c, "/data/dump.rdb", data)]
            case Postgres => |calls| == 1
            case RabbitMQ =>
              || calls == [CopyIn(c, path, data)]
              || calls == [CopyIn(c, path, data), Import(c, path), Remove(c, path)]
  {
    CallsInOrder(Script(kind, target, Prepare(kind, target, env).data), 0, from, reply, tools);
  }

  /** Nothing is ever started, and only the listed kinds stop anything; a restore that succeeds stops its
      container exactly when its kind is listed. */
  lemma StopsAsListed(kind: Kind, target: Target, env: Env, from: nat, reply: nat -> Reply, tools: Tools)
    ensures forall a :: a in Plan(kind, target, env, from, reply, tools).1 ==>
              !a.Start? && (a.Stop? ==> StopsContainer(kind) && a == Stop(target.container))
    ensures Plan(kind, target, env, from, reply, tools).0.Restored? ==>
              (Stop(target.container) in Plan(kind, target, env, from, reply, tools).1 <==> StopsContainer(kind))
  {
    var p := Prepare(kind, target, env);
    if p.Ready? {
      var script := Script(kind, target, p.data);
      CallsInOrder(script, 0, from, reply, tools);
      assert StopsContainer(kind) ==> script[0] == Stop(target.container);
    }
  }

  /** A successful restore without a warning went through a manifest whose hash the archive has. */
  lemma SilenceMeansVerified(kind: Kind, target: Target, env: Env, from: nat, reply: nat -> Reply, tools: Tools)
    requires Plan(kind, target, env, from, reply, tools).0 == Restored(false)
    ensures env.fetch.archive.Some? && env.fetch.manifest.Some?
    ensures var m := env.codec.decode(env.fetch.manifest.value);
            m.Some? && m.value.sha256 == env.digests.sha256(env.fetch.archive.value)
  {
  }

  predicate Effective(a: Action, reply: Reply) {
    !reply.Refused?
  }

  /** Some call of the list was carried out, whatever was reported. */
  ghost predicate CarriedOut(calls: seq<Action>, from: nat, reply: nat -> Reply) {
    exists j :: 0 <= j < |calls| && Effective(calls[j], reply(from + j))
  }

  /** A restore carries out no call at all exactly when there is nothing fit to restore or the host refuses the first
      call. The interface promises an untouched target after every error (restorer.go:49-54). */
  lemma UntouchedExactly(kind: Kind, target: Target, env: Env, from: nat, reply: nat -> Reply, tools: Tools)
    ensures var plan := Plan(kind, target, env, from, reply, tools);
            && (!CarriedOut(plan.1, from, reply) <==> Prepare(kind, target, env).Unavailable? || reply(from).Refused?)
            && (!CarriedOut(plan.1, from, reply) ==> plan.0.Failed?)
  {
    var p, plan := Prepare(kind, target, env), Plan(kind, target, env, from, reply, tools);
    if p.Ready? {
      var script := Script(kind, target, p.data);
      assert Tried(script, 0, from, reply, tools)[0] == script[0] && plan.1[0] == script[0];
      if reply(from).Refused? {
        assert |Tried(script, 0, from, reply, tools)| == 1;
      } else {
        assert Effective(plan.1[0], reply(from + 0));
      }
    }
  }

  /** Then the host is as it was. */
  lemma {:induction false} RefusedCallsChangeNothing(initial: World, trace: seq<Action>, calls: seq<Action>,
                                                     reply: nat -> Reply, tools: Tools)
    requires !CarriedOut(calls, |trace|, reply)
    ensures Played(initial, trace, calls, reply, tools) == AfterAll(initial, trace, reply, tools)
    decreases |calls|
  {
    PlayedNone(initial, trace, reply, tools);
    if calls != [] {
      var last := |calls| - 1;
      assert calls == calls[..last] + [calls[last]] && !Effective(calls[last], reply(|trace| + last));
      RefusedCallsChangeNothing(initial, trace, calls[..last], reply, tools);
      PlayedNext(initial, trace, calls[..last], calls[last], reply, tools);
    }
  }

  /** Untouched target, over the inputs. */
  lemma FailureLeavesTargetAlone(kind: Kind, target: Target, env: Env, initial: World, trace: seq<Action>,
                                 reply: nat -> Reply, tools: Tools)
    requires Prepare(kind, target, env).Unavailable? || reply(|trace|).Refused?
    ensures var plan := Plan(kind, target, env, |trace|, reply, tools);
            plan.0.Failed? && Played(initial, trace, plan.1, reply, tools) == AfterAll(initial, trace, reply, tools)
  {
    UntouchedExactly(kind, target, env, |trace|, reply, tools);
    RefusedCallsChangeNothing(initial, trace, Plan(kind, target, env, |trace|, reply, tools).1, reply, tools);
  }

  // ----- end to end

  function ArchiveOf(kind: Kind, dump: Bytes, gzip: Gzip): Bytes {
    if Gzipped(kind) then gzip.compress(dump) else dump
  }

  /** The manifest that `UploadArchive` wrote for this dump is what the restore downloads. */
  ghost predicate ManifestIntact(kind: Kind, env: Env, job: Upload.Job, name: string, dump: Bytes) {
    var m := Upload.ComputeManifest(env.digests, job, name, ArchiveOf(kind, dump, env.gzip));
    env.fetch.manifest == Some(env.codec.encode(m)) && env.codec.decode(env.codec.encode(m)) == Some(m)
  }

  ghost predicate CollisionFree(d: Digests, a: Bytes) {
    forall x :: d.sha256(x) == d.sha256(a) ==> x == a
  }

  /** Nothing on the way from the remote to the docker calls failed, and the archive is the one uploaded. */
  predicate Delivered(kind: Kind, target: Target, env: Env, dump: Bytes) {
    && Missing(kind, target).None?
    && env.fetch.tempUp && env.fetch.readUp && (kind == RabbitMQ ==> env.fetch.scratchUp)
    && env.fetch.archive == Some(ArchiveOf(kind, dump, env.gzip))
  }

  lemma DeliveryIsExact(kind: Kind, target: Target, env: Env, job: Upload.Job, name: string, dump: Bytes)
    requires ManifestIntact(kind, env, job, name, dump)
    requires CollisionFree(env.digests, ArchiveOf(kind, dump, env.gzip))
    requires Gzipped(kind) ==> env.gzip.expand(env.gzip.compress(dump)) == Some(dump)
    ensures Prepare(kind, target, env).Ready? <==> Delivered(kind, target, env, dump)
    ensures Delivered(kind, target, env, dump) ==> Prepare(kind, target, env) == Ready(dump, false)
  {
  }

  /** With the manifest intact, whatever bytes the archive download brings: the restore succeeds exactly when they
      are the bytes uploaded and nothing failed; it then gives docker exactly the dump, with no warning; and any
      other bytes are refused before the first docker call. */
  lemma RestoresTheDump(kind: Kind, target: Target, env: Env, job: Upload.Job, name: string, dump: Bytes, from: nat,
                        reply: nat -> Reply, tools: Tools)
    requires ManifestIntact(kind, env, job, name, dump)
    requires CollisionFree(env.digests, ArchiveOf(kind, dump, env.gzip))
    requires Gzipped(kind) ==> env.gzip.expand(env.gzip.compress(dump)) == Some(dump)
    ensures var plan, script := Plan(kind, target, env, from, reply, tools), Script(kind, target, dump);
            && (plan.0.Restored? <==>
                  Delivered(kind, target, env, dump) &&
                  forall j :: 0 <= j < |script| ==> Accepted(script[j], reply(from + j), tools))
            && (plan.0.Restored? ==> plan == (Restored(false), script + Cleanup(kind, target, |script|)))
            && (env.fetch.archive != Some(ArchiveOf(kind, dump, env.gzip)) ==> plan.0.Failed? && plan.1 == [])
  {
    DeliveryIsExact(kind, target, env, job, name, dump);
    CallsInOrder(Script(kind, target, dump), 0, from, reply, tools);
  }

  /** When the manifest download may fail, too, a restore can succeed on any bytes, but not in silence: it reports
      success without a warning exactly when the manifest came, the bytes are those uploaded and nothing failed. */
  lemma SilentRestore(kind: Kind, target: Target, env: Env, job: Upload.Job, name: string, dump: Bytes, from: nat,
                      reply: nat -> Reply, tools: Tools)
    requires env.fetch.manifest == None || ManifestIntact(kind, env, job, name, dump)
    requires CollisionFree(env.digests, ArchiveOf(kind, dump, env.gzip))
    requires Gzipped(kind) ==> env.gzip.expand(env.gzip.compress(dump)) == Some(dump)
    ensures var plan, script := Plan(kind, target, env, from, reply, tools), Script(kind, target, dump);
            && (plan.0 == Restored(false) <==>
                  && env.fetch.manifest.Some? && Delivered(kind, target, env, dump)
                  && forall j :: 0 <= j < |script| ==> Accepted(script[j], reply(from + j), tools))
            && (plan.0 == Restored(false) ==> plan.1 == script + Cleanup(kind, target, |script|))
  {
    if Plan(kind, target, env, from, reply, tools).0 == Restored(false) {
      SilenceMeansVerified(kind, target, env, from, reply, tools);
    }
    if env.fetch.manifest.Some? {
      RestoresTheDump(kind, target, env, job, name, dump, from, reply, tools);
    }
  }

  /** What later became of the remote directory does not concern the manifest. */
  ghost predicate SidecarUnchanged(before: Entries, later: Entries, name: string) {
    Sidecar(name) in before ==> Sidecar(name) in later && later[Sidecar(name)] == before[Sidecar(name)]
  }

  /** The restore downloads the manifest from that directory, if the download comes through. */
  ghost predicate FetchedFrom(later: Entries, name: string, env: Env) {
    Sidecar(name) in later && later[Sidecar(name)].File? ==>
      env.fetch.manifest == None || env.fetch.manifest == Some(later[Sidecar(name)].data)
  }

  /** From a successful upload, over any later changes of the remote directory that leave the manifest alone, to the
      download: if a manifest comes, it is the one written for the dump. */
  lemma ManifestStaysIntact(kind: Kind, env: Env, job: Upload.Job, name: string, dump: Bytes, upload: Upload.Env,
                            local: Upload.LocalEntries, local': Upload.LocalEntries, remote: Entries, remote': Entries,
                            r: Upload.Result, trail: Upload.Trail, later: Entries)
    requires job.minFilesToKeep >= 0 && r.Success? && Upload.ManifestWritten(upload) && name in remote'
    requires var data := ArchiveOf(kind, dump, env.gzip);
             var m := Upload.ComputeManifest(env.digests, job, name, data);
             && Upload.Uploads(job, name, data, env.digests, env.codec, upload, local, local', remote, remote', r,
                               trail)
             && upload.manifestUpload.stored == Some(env.codec.encode(m))
             && env.codec.decode(env.codec.encode(m)) == Some(m)
    requires SidecarUnchanged(remote', later, name) && FetchedFrom(later, name, env)
    ensures env.fetch.manifest == None || ManifestIntact(kind, env, job, name, dump)
  {
    Upload.ManifestStored(job, name, ArchiveOf(kind, dump, env.gzip), env.digests, env.codec, upload, local, local',
                          remote, remote', r, trail);
  }

  // ----- what a successful restore leaves on the host

  lemma StoppedAndWiped(target: Target, initial: World, trace: seq<Action>, reply: nat -> Reply, tools: Tools)
    requires reply(|trace|).Done? && reply(|trace| + 1).Done?
    ensures var before := AfterAll(initial, trace, reply, tools);
            Played(initial, trace, [Stop(target.container), Wipe(target.volume)], reply, tools) ==
            Apply(Apply(before, Stop(target.container), tools), Wipe(target.volume), tools)
  {
    var stop, wipe := Stop(target.container), Wipe(target.volume);
    PlayedNone(initial, trace, reply, tools);
    PlayedNext(initial, trace, [], stop, reply, tools);
    PlayedNext(initial, trace, [stop], wipe, reply, tools);
    assert [] + [stop] == [stop] && [stop] + [wipe] == [stop, wipe];
  }

  lemma Extracted(target: Target, archive: Bytes, initial: World, trace: seq<Action>, reply: nat -> Reply, tools: Tools)
    ensures Played(initial, trace, Script(N8n, target, archive), reply, tools) ==
            After(Played(initial, trace, [Stop(target.container), Wipe(target.volume)], reply, tools),
                  Extract(target.volume, archive), reply(|trace| + 2), tools)
  {
    var stop, wipe, extract := Stop(target.container), Wipe(target.volume), Extract(target.volume, archive);
    PlayedNext(initial, trace, [stop, wipe], extract, reply, tools);
    assert [stop, wipe] + [extract] == Script(N8n, target, archive);
  }

  /** No file of one stands where the other has a directory. */
  ghost predicate Compatible(a: Files, b: Files) {
    forall p, q :: p in a && q in b ==> !(p + "/" <= q) && !(q + "/" <= p)
  }

  /** The n8n restore leaves the archived files and whatever survived the wipe - names that start with two dots, and
      files that could not be removed, of which neither an error nor a warning tells. The volume is the archived one
      if and only if every survivor was archived too. */
  lemma N8nReplacesVolume(target: Target, archive: Bytes, files: Files, initial: World, trace: seq<Action>,
                          reply: nat -> Reply, tools: Tools)
    requires tools.unpack(archive) == Some(files)
    requires reply(|trace|).Done? && reply(|trace| + 1).Done? && reply(|trace| + 2).Done?
    requires Compatible(Leftover(Volume(AfterAll(initial, trace, reply, tools), target.volume), tools), files)
    ensures var was := Volume(AfterAll(initial, trace, reply, tools), target.volume);
            var after := Played(initial, trace, Script(N8n, target, archive), reply, tools);
            && target.container !in after.running
            && Volume(after, target.volume) == Leftover(was, tools) + files
            && (Volume(after, target.volume) == files <==>
                  forall p :: p in was && (p == "" || p == "." || ".." <= p || p in tools.stuck(was)) ==> p in files)
  {
    WipeMisses();
    StoppedAndWiped(target, initial, trace, reply, tools);
    Extracted(target, archive, initial, trace, reply, tools);
    Overlay(Leftover(Volume(AfterAll(initial, trace, reply, tools), target.volume), tools), files);
  }

  /** Every name but these matches one of the two globs. */
  lemma WipeMisses()
    ensures forall p :: !Globbed(p) <==> p == "" || p == "." || ".." <= p
  {
    forall p: string ensures !Globbed(p) <==> p == "" || p == "." || ".." <= p {
      assert |p| == 1 && p[0] == '.' ==> p == ".";
    }
  }

  lemma Overlay(under: Files, files: Files)
    ensures under + files == files <==> forall p :: p in under ==> p in files
  {
    if forall p :: p in under ==> p in files {
      assert under + files == files;
    } else {
      var p :| p in under && p !in files;
      assert p in under + files;
    }
  }

  /** The standard restore overlays: files that were not archived stay, where no file takes a directory's place. */
  lemma StandardOverlaysVolume(target: Target, archive: Bytes, files: Files, initial: World, trace: seq<Action>,
                               reply: nat -> Reply, tools: Tools)
    requires tools.unpack(archive) == Some(files) && reply(|trace|).Done?
    requires Compatible(Volume(AfterAll(initial, trace, reply, tools), target.volume), files)
    ensures var before := AfterAll(initial, trace, reply, tools);
            var after := Played(initial, trace, Script(Standard, target, archive), reply, tools);
            && after.running == before.running
            && (Volume(after, target.volume) == files <==> Volume(before, target.volume).Keys <= files.Keys)
            && (forall p :: p in Volume(before, target.volume) && p !in files ==>
                  p in Volume(after, target.volume) &&
                  Volume(after, target.volume)[p] == Volume(before, target.volume)[p])
  {
    PlayedNone(initial, trace, reply, tools);
    PlayedNext(initial, trace, [], Extract(target.volume, archive), reply, tools);
    assert [] + [Extract(target.volume, archive)] == Script(Standard, target, archive);
    Overlay(Volume(AfterAll(initial, trace, reply, tools), target.volume), files);
  }

  /** When the archive does not unpack, the restore fails with the volume already wiped as far as it could be. */
  lemma FailedExtractLosesVolume(target: Target, archive: Bytes, initial: World, trace: seq<Action>,
                                 reply: nat -> Reply, tools: Tools)
    requires tools.unpack(archive) == None && reply(|trace|).Done? && reply(|trace| + 1).Done?
    ensures !Through(Script(N8n, target, archive), 0, |trace|, reply, tools)
    ensures var before := AfterAll(initial, trace, reply, tools);
            var after := Played(initial, trace, Tried(Script(N8n, target, archive), 0, |trace|, reply, tools), reply,
                                tools);
            Volume(after, target.volume) == Leftover(Volume(before, target.volume), tools)
  {
    ThreeCalls(Stop(target.container), Wipe(target.volume), Extract(target.volume, archive), |trace|, reply, tools);
    StoppedAndWiped(target, initial, trace, reply, tools);
    Extracted(target, archive, initial, trace, reply, tools);
  }

  /** The broker imports a file that holds the definitions, and the scratch copy is gone afterwards unless the
      clean-up was refused. */
  lemma RabbitImportsDefinitions(target: Target, dump: Bytes, initial: World, trace: seq<Action>, reply: nat -> Reply,
                                 tools: Tools)
    requires reply(|trace|).Done? && reply(|trace| + 1).Done?
    ensures var copy, load := CopyIn(target.container, DEFINITIONS, dump), Import(target.container, DEFINITIONS);
            var atImport := Played(initial, trace, [copy], reply, tools);
            var after := Played(initial, trace, [copy, load] + Cleanup(RabbitMQ, target, 2), reply, tools);
            && (target.container, DEFINITIONS) in atImport.files
            && atImport.files[(target.container, DEFINITIONS)] == dump
            && ((target.container, DEFINITIONS) in after.files <==> reply(|trace| + 2).Refused?)
  {
    var copy, load := CopyIn(target.container, DEFINITIONS, dump), Import(target.container, DEFINITIONS);
    PlayedNext(initial, trace, [], copy, reply, tools);
    PlayedNext(initial, trace, [copy], load, reply, tools);
    PlayedNext(initial, trace, [copy, load], Remove(target.container, DEFINITIONS), reply, tools);
    assert [] + [copy] == [copy] && [copy] + [load] == [copy, load];
  }
}
