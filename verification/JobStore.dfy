/** Job directories: `job.json` and `.env` refine a map from names to jobs (workspace/job.go). */
module JobStore {
  import opened Text
  import opened EnvFile

  const WEBHOOK := "DOCKVAULT_WEBHOOK_URL"

  /** Everything `job.json` holds. */
  datatype Config = Config(
    name: string, backupType: string, serviceType: string, volumeId: string, volumeIdentifier: string,
    hostPath: string, containerName: string, remotePath: string, retentionDays: int, minFilesToKeep: int,
    localBackupDir: string, localRetentionCount: int)

  datatype Job = Job(config: Config, credentials: Env, webhook: string)

  /** JSON is an inverse pair, so a well-formed file is its content. */
  datatype ConfigFile = Encoded(config: Config) | Garbled

  datatype JobDir = JobDir(config: Option<ConfigFile>, env: Option<string>)

  /** The directories under the workspace root. */
  type Dirs = map<string, JobDir>

  /** A write that fails may leave the file as it was, or with some other content. */
  datatype Write<T> = Whole | Torn(left: Option<T>)

  datatype Replies = Replies(mkdirUp: bool, config: Write<ConfigFile>, env: Write<string>)

  datatype Loaded = Found(job: Job) | Missing | Unparsable | Unreadable

  const EMPTY_DIR := JobDir(None, None)

  function Dir(dirs: Dirs, name: string): JobDir {
    if name in dirs then dirs[name] else EMPTY_DIR
  }

  function EnvOf(job: Job): Env {
    if job.webhook != "" then job.credentials[WEBHOOK := job.webhook] else job.credentials
  }

  function StoredEnv(dir: JobDir): Env {
    if dir.env.None? then map[] else Parse(dir.env.value)
  }

  function JobFrom(config: Config, env: Env): Job {
    Job(config, env - {WEBHOOK}, if WEBHOOK in env then env[WEBHOOK] else "")
  }

  function Load(dir: JobDir): Loaded {
    match dir.config
    case None => Missing
    case Some(Garbled) => Unparsable
    case Some(Encoded(config)) => Found(JobFrom(config, StoredEnv(dir)))
  }

  function PutFile<T>(was: Option<T>, content: T, w: Write<T>): Option<T> {
    match w
    case Whole => Some(content)
    case Torn(None) => was
    case Torn(Some(left)) => Some(left)
  }

  /** `text` is the printed environment, keys sorted. */
  ghost predicate Printed(env: Env, text: string) {
    exists keys :: StrictlySorted(keys) && Elements(keys) == env.Keys && text == Print(keys, env)
  }

  function Save(dir: JobDir, job: Job, text: string, io: Replies): (r: (JobDir, bool)) {
    var config := PutFile(dir.config, Encoded(job.config), io.config);
    if io.config.Torn? then (dir.(config := config), false)
    else if EnvOf(job) == map[] then (dir.(config := config), true)
    else (JobDir(config, PutFile(dir.env, text, io.env)), io.env.Whole?)
  }

  /** One `SaveJob` call. */
  ghost predicate Saves(before: Dirs, after: Dirs, job: Job, text: string, io: Replies, ok: bool) {
    && Printed(EnvOf(job), text)
    && (!io.mkdirUp ==> after == before && !ok)
    && (io.mkdirUp ==>
          var (dir, done) := Save(Dir(before, job.config.name), job, text, io);
          after == before[job.config.name := dir] && ok == done)
  }

  function Names(dirs: Dirs): set<string> {
    set n | n in dirs && dirs[n].config.Some?
  }

  method CredentialsIn(env: Env) returns (creds: Env)
    ensures creds == env - {WEBHOOK}
  {
    creds := map[];
    var rest := env.Keys;
    while rest != {}
      invariant rest <= env.Keys
      invariant creds.Keys == env.Keys - rest - {WEBHOOK}
      invariant forall k :: k in creds ==> k in env && creds[k] == env[k]
      decreases rest
    {
      var k :| k in rest;
      rest := rest - {k};
      if k == WEBHOOK { continue; }
      creds := creds[k := env[k]];
    }
  }

  class Store {
    var dirs: Dirs

    constructor (dirs: Dirs)
      ensures this.dirs == dirs
    {
      this.dirs := dirs;
    }

    method SaveJob(job: Job, io: Replies) returns (ok: bool, ghost text: string)
      modifies this
      ensures Saves(old(dirs), dirs, job, text, io, ok)
    {
      var name := job.config.name;
      var env := job.credentials;
      if job.webhook != "" { env := env[WEBHOOK := job.webhook]; }
      var content := SaveEnv(env);
      text := content;
      if !io.mkdirUp { return false, text; }
      var dir := Dir(dirs, name);
      dir := dir.(config := PutFile(dir.config, Encoded(job.config), io.config));
      dirs := dirs[name := dir];
      if io.config.Torn? { return false, text; }
      if env == map[] { return true, text; }
      dir := dir.(env := PutFile(dir.env, content, io.env));
      dirs := dirs[name := dir];
      return io.env.Whole?, text;
    }

    /** Either file may turn out unreadable; a missing `.env` is none of that. */
    method LoadJob(name: string, configUp: bool, envUp: bool) returns (r: Loaded)
      ensures configUp && (envUp || Dir(dirs, name).env.None?) ==> r == Load(Dir(dirs, name))
      ensures r.Missing? <==> name !in dirs || dirs[name].config.None?
      ensures r.Unreadable? <==>
              && name in dirs && dirs[name].config.Some?
              && (!configUp || (dirs[name].config.value.Encoded? && dirs[name].env.Some? && !envUp))
      ensures r.Unparsable? <==> name in dirs && dirs[name].config == Some(Garbled) && configUp
      ensures r.Found? ==>
                && name in dirs && dirs[name].config == Some(Encoded(r.job.config))
                && var env := if dirs[name].env.Some? then Parse(dirs[name].env.value) else map[];
                && r.job.credentials == env - {"DOCKVAULT_WEBHOOK_URL"}
                && r.job.webhook == if "DOCKVAULT_WEBHOOK_URL" in env then env["DOCKVAULT_WEBHOOK_URL"] else ""
    {
      var dir := Dir(dirs, name);
      if dir.config.None? { return Missing; }
      if !configUp { return Unreadable; }
      if dir.config.value.Garbled? { return Unparsable; }
      var read := LoadEnv(if dir.env.None? then Absent else if envUp then Content(dir.env.value) else Denied);
      if read.None? { return Unreadable; }
      var env := read.value;
      var webhook := if WEBHOOK in env then env[WEBHOOK] else "";
      var creds := CredentialsIn(env);
      return Found(Job(dir.config.value.config, creds, webhook));
    }

    /** The workspace directory may turn out unreadable; a `job.json` that cannot be looked at is passed over. */
    method ListJobNames(readUp: bool, statFails: set<string>) returns (names: Option<seq<string>>)
      ensures names.None? <==> !readUp
      ensures names.Some? ==> StrictlySorted(names.value) && Elements(names.value) == Names(dirs) - statFails
    {
      if !readUp { return None; }
      var sorted := SortedKeys(Names(dirs) - statFails);
      names := Some(sorted);
    }
  }

  // ----- what survives a save

  /** Nothing of an earlier job shines through when the new one writes no `.env`. */
  predicate NoLeftover(dir: JobDir) {
    forall k :: k in StoredEnv(dir) ==> k == WEBHOOK && StoredEnv(dir)[k] == ""
  }

  /** What a caller can check before `SaveJob`. */
  predicate Storable(dir: JobDir, job: Job) {
    && Printable(EnvOf(job))
    && WEBHOOK !in job.credentials
    && (EnvOf(job) == map[] ==> NoLeftover(dir))
  }

  lemma LoadedIsPrintable(dir: JobDir)
    ensures Printable(StoredEnv(dir))
  {
    if dir.env.Some? { LoadIsPrintable(dir.env.value); }
  }

  lemma EnvDetermines(config: Config, env: Env, job: Job)
    requires WEBHOOK !in job.credentials && env == EnvOf(job) && config == job.config
    ensures JobFrom(config, env) == job
  {
    assert env - {WEBHOOK} == job.credentials;
  }

  lemma JobDeterminesEnv(config: Config, env: Env, job: Job)
    requires JobFrom(config, env) == job && Printable(env)
    ensures WEBHOOK !in job.credentials && Printable(EnvOf(job))
  {
    assert forall k :: k in job.credentials ==> k in env && env[k] == job.credentials[k];
  }

  /** The text that was printed parses back exactly when the map is printable. */
  lemma PrintedParses(env: Env, text: string)
    requires Printed(env, text)
    ensures Parse(text) == env <==> Printable(env)
  {
    var keys :| StrictlySorted(keys) && Elements(keys) == env.Keys && text == Print(keys, env);
    RoundTrip(env, keys);
  }

  /** After a save that reports success, loading gives the job back if and only if it was storable there. */
  lemma SaveThenLoad(before: Dirs, after: Dirs, job: Job, text: string, io: Replies)
    requires Saves(before, after, job, text, io, true)
    ensures Load(Dir(after, job.config.name)) == Found(job) <==> Storable(Dir(before, job.config.name), job)
  {
    var was, dir := Dir(before, job.config.name), Dir(after, job.config.name);
    LoadedIsPrintable(dir);
    if EnvOf(job) == map[] {
      NothingStored(was, job);
    } else {
      PrintedParses(EnvOf(job), text);
      if Storable(was, job) { EnvDetermines(job.config, StoredEnv(dir), job); }
    }
    if Load(dir) == Found(job) { JobDeterminesEnv(job.config, StoredEnv(dir), job); }
  }

  lemma NothingStored(dir: JobDir, job: Job)
    requires EnvOf(job) == map[]
    ensures JobFrom(job.config, StoredEnv(dir)) == job <==> NoLeftover(dir)
  {
    var env := StoredEnv(dir);
    assert job.webhook != "" ==> WEBHOOK in EnvOf(job);
    assert job.credentials == map[] && job.webhook == "";
    if NoLeftover(dir) {
      assert env - {WEBHOOK} == map[];
    } else {
      var k :| k in env && (k != WEBHOOK || env[k] != "");
      if k != WEBHOOK { assert k in env - {WEBHOOK}; }
    }
  }

  /** The leftover, stated about the job that was there before: its secrets reappear under the new job. */
  lemma LeftoverIsOldJob(dir: JobDir, was: Job)
    requires Load(dir) == Found(was)
    ensures NoLeftover(dir) <==> EnvOf(was) == map[]
  {
    var env := StoredEnv(dir);
    if NoLeftover(dir) {
      assert was.credentials == map[];
    } else {
      var k :| k in env && (k != WEBHOOK || env[k] != "");
      if k != WEBHOOK { assert k in was.credentials && k in EnvOf(was); } else { assert k in EnvOf(was); }
    }
  }

  /** What happens otherwise: the secrets stored before, whatever they were, become the new job's. */
  lemma OldSecretsReappear(was: JobDir, secrets: Env, stored: string, job: Job, text: string)
    requires was.env == Some(stored) && Printed(secrets, stored) && Printable(secrets) && EnvOf(job) == map[]
    ensures var (dir, ok) := Save(was, job, text, Replies(true, Whole, Whole));
            ok && Load(dir) == Found(JobFrom(job.config, secrets))
  {
    PrintedParses(secrets, stored);
  }

  // ----- refinement of a plain map

  type Jobs = map<string, Job>

  ghost predicate Refines(dirs: Dirs, jobs: Jobs) {
    Names(dirs) == jobs.Keys && forall n :: n in jobs ==> Load(Dir(dirs, n)) == Found(jobs[n])
  }

  /** Overwriting a job that has secrets by one that has none is the case to avoid. */
  predicate SafeToSave(jobs: Jobs, job: Job) {
    && Printable(EnvOf(job))
    && WEBHOOK !in job.credentials
    && (EnvOf(job) == map[] && job.config.name in jobs ==> EnvOf(jobs[job.config.name]) == map[])
  }

  /** No `.env` lies in a directory without a `job.json`. */
  ghost predicate NoOrphans(dirs: Dirs) {
    forall n :: n in dirs && dirs[n].config.None? ==> NoLeftover(dirs[n])
  }

  lemma SaveRefines(before: Dirs, after: Dirs, jobs: Jobs, job: Job, text: string, io: Replies)
    requires Refines(before, jobs) && NoOrphans(before) && Saves(before, after, job, text, io, true)
    ensures NoOrphans(after)
    ensures Refines(after, jobs[job.config.name := job]) <==> SafeToSave(jobs, job)
  {
    SaveThenLoad(before, after, job, text, io);
    SafeMeansStorable(before, jobs, job);
    SavedNames(before, after, job, text, io);
    OthersUntouched(before, after, jobs, job, text, io);
  }

  lemma SafeMeansStorable(before: Dirs, jobs: Jobs, job: Job)
    requires Refines(before, jobs) && NoOrphans(before)
    ensures SafeToSave(jobs, job) <==> Storable(Dir(before, job.config.name), job)
  {
    var name := job.config.name;
    if name in jobs {
      LeftoverIsOldJob(Dir(before, name), jobs[name]);
    } else {
      assert name !in Names(before);
    }
  }

  lemma SavedNames(before: Dirs, after: Dirs, job: Job, text: string, io: Replies)
    requires Saves(before, after, job, text, io, true)
    ensures Names(after) == Names(before) + {job.config.name}
    ensures NoOrphans(before) ==> NoOrphans(after)
  {
  }

  lemma OthersUntouched(before: Dirs, after: Dirs, jobs: Jobs, job: Job, text: string, io: Replies)
    requires Refines(before, jobs) && Saves(before, after, job, text, io, true)
    ensures forall n :: n in jobs && n != job.config.name ==> Load(Dir(after, n)) == Found(jobs[n])
  {
    forall n | n in jobs && n != job.config.name ensures Dir(after, n) == Dir(before, n) {
      SaveIsLocal(before, after, job, text, io, true, n);
    }
  }

  /** A save, even one that fails half-way, leaves every other job as it was. */
  lemma SaveIsLocal(before: Dirs, after: Dirs, job: Job, text: string, io: Replies, ok: bool, n: string)
    requires Saves(before, after, job, text, io, ok) && n != job.config.name
    ensures Dir(after, n) == Dir(before, n) && (n in Names(after) <==> n in Names(before))
  {
  }

  datatype Call = Call(job: Job, text: string, io: Replies, ok: bool)

  ghost predicate Run(run: seq<Dirs>, calls: seq<Call>) {
    && |run| == |calls| + 1
    && forall i :: 0 <= i < |calls| ==> Saves(run[i], run[i + 1], calls[i].job, calls[i].text, calls[i].io, calls[i].ok)
  }

  /** A directory stays as it is while other jobs are saved. */
  lemma {:induction false} KeptMeanwhile(run: seq<Dirs>, calls: seq<Call>, name: string, i: nat, k: nat)
    requires Run(run, calls) && i <= k <= |calls|
    requires forall j :: i <= j < k ==> calls[j].job.config.name != name
    ensures Dir(run[k], name) == Dir(run[i], name) && (name in Names(run[k]) <==> name in Names(run[i]))
  {
    if i < k {
      KeptMeanwhile(run, calls, name, i, k - 1);
      var c := calls[k - 1];
      SaveIsLocal(run[k - 1], run[k], c.job, c.text, c.io, c.ok, name);
    }
  }

  lemma SavedIsListed(before: Dirs, after: Dirs, job: Job, text: string, io: Replies)
    requires Saves(before, after, job, text, io, true)
    ensures job.config.name in Names(after)
  {
    SavedNames(before, after, job, text, io);
  }

  /** Over any run, with failed saves anywhere: if the last save under a name succeeded and was storable when it
      happened, loading the name gives exactly that job. */
  lemma LastSaveWins(run: seq<Dirs>, calls: seq<Call>, i: nat, k: nat)
    requires Run(run, calls) && i < k <= |calls|
    requires calls[i].ok && Storable(Dir(run[i], calls[i].job.config.name), calls[i].job)
    requires forall j :: i < j < k ==> calls[j].job.config.name != calls[i].job.config.name
    ensures Load(Dir(run[k], calls[i].job.config.name)) == Found(calls[i].job)
    ensures calls[i].job.config.name in Names(run[k])
  {
    var c := calls[i];
    SaveThenLoad(run[i], run[i + 1], c.job, c.text, c.io);
    SavedIsListed(run[i], run[i + 1], c.job, c.text, c.io);
    KeptMeanwhile(run, calls, c.job.config.name, i + 1, k);
  }

  function JobsAfter(jobs: Jobs, calls: seq<Call>): Jobs
    decreases |calls|
  {
    if calls == [] then jobs
    else
      var job := calls[|calls| - 1].job;
      JobsAfter(jobs, calls[..|calls| - 1])[job.config.name := job]
  }

  /** Every save succeeded and was safe for the map at that point. */
  ghost predicate Orderly(jobs: Jobs, calls: seq<Call>) {
    forall i :: 0 <= i < |calls| ==> calls[i].ok && SafeToSave(JobsAfter(jobs, calls[..i]), calls[i].job)
  }

  /** Over any orderly sequence of saves the directories are the map, and the listing is its sorted key set. */
  lemma {:induction false} StoreRefinesMap(run: seq<Dirs>, calls: seq<Call>, jobs: Jobs)
    requires Run(run, calls) && Orderly(jobs, calls)
    requires Refines(run[0], jobs) && NoOrphans(run[0])
    ensures Refines(run[|calls|], JobsAfter(jobs, calls)) && NoOrphans(run[|calls|])
    decreases |calls|
  {
    if calls != [] {
      var last := |calls| - 1;
      assert forall i :: 0 <= i < last ==> calls[..last][..i] == calls[..i];
      StoreRefinesMap(run[..|run| - 1], calls[..last], jobs);
      var c := calls[last];
      SaveRefines(run[last], run[last + 1], JobsAfter(jobs, calls[..last]), c.job, c.text, c.io);
    }
  }
}
