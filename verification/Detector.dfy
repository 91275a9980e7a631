/** From volumes and containers to proposed jobs (detector/detector.go, detector/service_types.go). */
module Detector {
  import opened Text
  import opened Naming

  const POSTGRES := "postgres"
  const MYSQL := "mysql"
  const MONGODB := "mongodb"
  const REDIS := "redis"
  const N8N := "n8n"
  const RABBITMQ := "rabbitmq"
  const GENERIC := "generic"

  type Env = map<string, string>

  datatype Mount = Mount(kind: string, name: string)

  datatype Container = Container(name: string, image: string, env: Env, mounts: seq<Mount>, ports: seq<int>)

  /** `strings.ToLower` and `strings.ToUpper`. */
  datatype Case = Case(lower: char -> char, upper: char -> char)

  predicate Contains(s: string, sub: string) {
    exists i :: 0 <= i <= |s| - |sub| && s[i..][..|sub|] == sub
  }

  // ----- service types

  const IMAGES := [("postgres", POSTGRES), ("mysql", MYSQL), ("mongo", MONGODB), ("redis", REDIS), ("n8n", N8N),
                   ("rabbitmq", RABBITMQ)]

  function MatchFrom(image: string, order: seq<(string, string)>): string
    decreases |order|
  {
    if order == [] then GENERIC
    else if Contains(image, order[0].0) then order[0].1
    else MatchFrom(image, order[1..])
  }

  function ServiceOf(c: Container, cs: Case): string {
    MatchFrom(Map(c.image, cs.lower), IMAGES)
  }

  /** The kind of backup proposed for a service. */
  function Recommended(service: string): string {
    if service == POSTGRES then "pg_dump"
    else if service == MYSQL then "mysqldump"
    else if service == MONGODB then "mongodump --archive"
    else if service == REDIS then "BGSAVE"
    else if service == N8N then "volume tar + container lifecycle"
    else if service == RABBITMQ then "rabbitmqctl export_definitions"
    else "tar"
  }

  /** Empty for ports that suggest nothing. */
  function PortHint(port: int): string {
    if port == 5432 then POSTGRES else if port == 3306 then MYSQL
    else if port == 27017 then MONGODB else if port == 6379 then REDIS else ""
  }

  function FirstHint(ports: seq<int>): string {
    if ports == [] then "" else if PortHint(ports[0]) != "" then PortHint(ports[0]) else FirstHint(ports[1..])
  }

  // ----- the index

  predicate Mounts(m: Mount, volume: string) {
    m.kind == "volume" && m.name != "" && m.name == volume
  }

  /** `c` once for each of the mounts that is the volume. */
  function Hits(c: Container, mounts: seq<Mount>, volume: string): seq<Container>
    decreases |mounts|
  {
    if mounts == [] then []
    else
      var last := |mounts| - 1;
      Hits(c, mounts[..last], volume) + if Mounts(mounts[last], volume) then [c] else []
  }

  /** The direct scan: all matching pairs of container and mount, in order. */
  function Users(details: seq<Container>, volume: string): seq<Container>
    decreases |details|
  {
    if details == [] then []
    else
      var last := |details| - 1;
      Users(details[..last], volume) + Hits(details[last], details[last].mounts, volume)
  }

  type Index = map<string, seq<Container>>

  function At(index: Index, volume: string): seq<Container> {
    if volume in index then index[volume] else []
  }

  lemma HitsNext(c: Container, volume: string, j: nat, before: seq<Container>)
    requires j < |c.mounts|
    ensures before + Hits(c, c.mounts[..j + 1], volume) ==
            before + Hits(c, c.mounts[..j], volume) + if Mounts(c.mounts[j], volume) then [c] else []
  {
    assert c.mounts[..j + 1][..j] == c.mounts[..j];
  }

  method IndexMounts(c: Container, index: Index) returns (r: Index)
    ensures forall v :: At(r, v) == At(index, v) + Hits(c, c.mounts, v)
  {
    r := index;
    for j := 0 to |c.mounts|
      invariant forall v :: At(r, v) == At(index, v) + Hits(c, c.mounts[..j], v)
    {
      forall v { HitsNext(c, v, j, At(index, v)); }
      r := Filed(r, c, c.mounts[j]);
    }
    assert c.mounts[..|c.mounts|] == c.mounts;
  }

  function Filed(index: Index, c: Container, m: Mount): (r: Index)
    ensures forall v :: At(r, v) == At(index, v) + if Mounts(m, v) then [c] else []
  {
    if m.kind == "volume" && m.name != "" then index[m.name := At(index, m.name) + [c]] else index
  }

  /** Every volume finds in the index exactly what the direct scan finds. */
  method IndexByVolume(details: seq<Container>) returns (index: Index)
    ensures forall v :: At(index, v) == Users(details, v)
  {
    index := map[];
    for i := 0 to |details|
      invariant forall v :: At(index, v) == Users(details[..i], v)
    {
      assert details[..i + 1][..i] == details[..i];
      index := IndexMounts(details[i], index);
    }
    assert details[..|details|] == details;
  }

  // ----- credentials

  function KnownKeys(service: string): seq<string> {
    if service == POSTGRES then ["POSTGRES_USER", "POSTGRES_PASSWORD", "POSTGRES_DB"]
    else if service == MYSQL then ["MYSQL_ROOT_PASSWORD", "MYSQL_USER", "MYSQL_PASSWORD", "MYSQL_DATABASE"]
    else if service == MONGODB then ["MONGO_INITDB_ROOT_USERNAME", "MONGO_INITDB_ROOT_PASSWORD",
                                     "MONGO_INITDB_DATABASE"]
    else if service == REDIS then ["REDIS_PASSWORD"]
    else []
  }

  predicate LooksSecret(key: string, cs: Case) {
    var k := Map(key, cs.upper);
    Contains(k, "PASSWORD") || Contains(k, "TOKEN") || Contains(k, "SECRET") || Contains(k, "API_KEY")
  }

  /** The keys of the container's service, and whatever looks like a secret. */
  function Credentials(c: Container, cs: Case): Env {
    map k | k in c.env && (k in KnownKeys(ServiceOf(c, cs)) || LooksSecret(k, cs)) :: c.env[k]
  }

  method ExtractCredentials(c: Container, cs: Case) returns (creds: Env)
    ensures creds == Credentials(c, cs)
  {
    creds := map[];
    var keys := KnownKeys(ServiceOf(c, cs));
    for i := 0 to |keys|
      invariant forall k :: k in creds <==> k in c.env && k in keys[..i]
      invariant forall k :: k in creds ==> creds[k] == c.env[k]
    {
      if keys[i] in c.env { creds := creds[keys[i] := c.env[keys[i]]]; }
      assert keys[..i + 1] == keys[..i] + [keys[i]];
    }
    assert keys[..|keys|] == keys;
    var rest := c.env.Keys;
    while rest != {}
      invariant rest <= c.env.Keys
      invariant forall k :: k in creds <==> k in c.env && (k in keys || (k !in rest && LooksSecret(k, cs)))
      invariant forall k :: k in creds ==> creds[k] == c.env[k]
      decreases rest
    {
      var key :| key in rest;
      rest := rest - {key};
      if key in keys { continue; }
      if LooksSecret(key, cs) { creds := creds[key := c.env[key]]; }
    }
  }

  // ----- which user decides

  /** The first container whose image names a service. */
  function FirstMatch(users: seq<Container>, cs: Case): (k: nat)
    ensures k <= |users| && forall j :: 0 <= j < k ==> ServiceOf(users[j], cs) == GENERIC
    ensures k < |users| ==> ServiceOf(users[k], cs) != GENERIC
    decreases |users|
  {
    if users == [] || ServiceOf(users[0], cs) != GENERIC then 0 else 1 + FirstMatch(users[1..], cs)
  }

  datatype Choice = Choice(service: string, creds: Env)

  /** The first match decides; only where nothing matches, the first container's ports do. */
  function ChoiceOf(users: seq<Container>, cs: Case): Choice {
    var k := FirstMatch(users, cs);
    if users == [] then Choice(GENERIC, map[])
    else if k < |users| then Choice(ServiceOf(users[k], cs), Credentials(users[k], cs))
    else
      var hint := FirstHint(users[0].ports);
      Choice(if hint != "" then hint else GENERIC, Credentials(users[0], cs))
  }

  function NamesOf(users: seq<Container>): seq<string> {
    seq(|users|, i requires 0 <= i < |users| => users[i].name)
  }

  /** The first image that names a service gives the type; every name is noted. */
  method FirstPass(users: seq<Container>, cs: Case) returns (service: string, matched: bool, names: seq<string>)
    ensures names == NamesOf(users)
    ensures matched == (FirstMatch(users, cs) < |users|)
    ensures service == if matched then ServiceOf(users[FirstMatch(users, cs)], cs) else GENERIC
  {
    service, matched, names := GENERIC, false, [];
    ghost var first := FirstMatch(users, cs);
    for i := 0 to |users|
      invariant names == NamesOf(users[..i])
      invariant matched == (first < i)
      invariant service == if matched then ServiceOf(users[first], cs) else GENERIC
    {
      names := names + [users[i].name];
      var t := ServiceOf(users[i], cs);
      if !matched && t != GENERIC { service, matched := t, true; }
    }
    assert users[..|users|] == users;
  }

  ghost predicate IsFirst(users: seq<Container>, k: nat, service: string, cs: Case)
    requires k < |users|
  {
    ServiceOf(users[k], cs) == service && forall j :: 0 <= j < k ==> ServiceOf(users[j], cs) != service
  }

  /** The first container of that type, or the first of all. */
  method SecondPass(users: seq<Container>, service: string, cs: Case) returns (target: Container)
    requires users != []
    ensures target in users && (target == users[0] || ServiceOf(target, cs) == service)
    ensures forall k :: 0 <= k < |users| && IsFirst(users, k, service, cs) ==> target == users[k]
  {
    target := users[0];
    for i := 0 to |users|
      invariant target == users[0]
      invariant forall j :: 0 <= j < i ==> ServiceOf(users[j], cs) != service
    {
      if ServiceOf(users[i], cs) == service { return users[i]; }
    }
  }

  /** One pass for the service type, another for the container that gave it. */
  method Choose(users: seq<Container>, cs: Case) returns (choice: Choice, names: seq<string>)
    ensures choice == ChoiceOf(users, cs) && names == NamesOf(users)
  {
    var service, matched;
    service, matched, names := FirstPass(users, cs);
    if users == [] { return Choice(service, map[]), names; }
    var target := SecondPass(users, service, cs);
    assert matched ==> IsFirst(users, FirstMatch(users, cs), service, cs);
    assert !matched ==> IsFirst(users, 0, service, cs);
    assert target == if matched then users[FirstMatch(users, cs)] else users[0];
    var creds := ExtractCredentials(target, cs);
    if !matched {
      var hint := HintFrom(target.ports);
      if hint != "" { service := hint; }
    }
    choice := Choice(service, creds);
  }

  method HintFrom(ports: seq<int>) returns (hint: string)
    ensures hint == FirstHint(ports)
  {
    for i := 0 to |ports|
      invariant FirstHint(ports[i..]) == FirstHint(ports)
    {
      assert ports[i..][1..] == ports[i + 1..];
      if PortHint(ports[i]) != "" { return PortHint(ports[i]); }
    }
    return "";
  }

  /** Ports never override an image: with any image match, other ports give the same choice. */
  lemma PortsNeverOverride(users: seq<Container>, ports: seq<seq<int>>, cs: Case)
    requires |ports| == |users| && exists c :: c in users && ServiceOf(c, cs) != GENERIC
    ensures var others := seq(|users|, i requires 0 <= i < |users| => users[i].(ports := ports[i]));
            ChoiceOf(others, cs) == ChoiceOf(users, cs)
  {
    var others := seq(|users|, i requires 0 <= i < |users| => users[i].(ports := ports[i]));
    assert forall i :: 0 <= i < |users| ==> ServiceOf(others[i], cs) == ServiceOf(users[i], cs);
    var c :| c in users && ServiceOf(c, cs) != GENERIC;
    var k, l := FirstMatch(users, cs), FirstMatch(others, cs);
    assert k == l && k < |users|;
    assert Credentials(others[k], cs) == Credentials(users[k], cs);
  }

  /** Nor does the environment count for the service type: other environments give the same one. */
  lemma EnvironmentNeverDecides(users: seq<Container>, envs: seq<Env>, cs: Case)
    requires |envs| == |users|
    ensures ChoiceOf(users, cs).service ==
            ChoiceOf(seq(|users|, i requires 0 <= i < |users| => users[i].(env := envs[i])), cs).service
    ensures users != [] && (forall c :: c in users ==> ServiceOf(c, cs) == GENERIC) ==>
              var hint := FirstHint(users[0].ports);
              ChoiceOf(users, cs).service == if hint != "" then hint else GENERIC
  {
    var others := seq(|users|, i requires 0 <= i < |users| => users[i].(env := envs[i]));
    assert forall i :: 0 <= i < |users| ==> ServiceOf(others[i], cs) == ServiceOf(users[i], cs);
    var k, l := FirstMatch(users, cs), FirstMatch(others, cs);
    assert k == l;
  }

  /** A container with the credentials of one service and the port of another counts as the other. */
  lemma PortOutranksEnvironment(cs: Case) returns (user: Container)
    ensures user.env == map["POSTGRES_USER" := "app"] && user.ports == [6379]
    ensures ChoiceOf([user], cs).service == REDIS
  {
    user := Container("c", "x", map["POSTGRES_USER" := "app"], [], [6379]);
    ShortImageIsGeneric(Map("x", cs.lower), IMAGES);
    assert FirstMatch([user], cs) == 1;
  }

  lemma {:induction false} ShortImageIsGeneric(image: string, order: seq<(string, string)>)
    requires forall e :: e in order ==> |image| < |e.0|
    ensures MatchFrom(image, order) == GENERIC
    decreases |order|
  {
    if order != [] { ShortImageIsGeneric(image, order[1..]); }
  }

  // ----- job names

  function DbKey(service: string): string {
    if service == POSTGRES then "POSTGRES_DB" else if service == MYSQL then "MYSQL_DATABASE"
    else if service == MONGODB then "MONGO_INITDB_DATABASE" else ""
  }

  function UserKey(service: string): string {
    if service == POSTGRES then "POSTGRES_USER" else if service == MYSQL then "MYSQL_USER"
    else if service == MONGODB then "MONGO_INITDB_ROOT_USERNAME" else ""
  }

  function DbName(service: string, creds: Env): string {
    if DbKey(service) != "" && DbKey(service) in creds then creds[DbKey(service)] else ""
  }

  predicate HasUser(service: string, creds: Env) {
    UserKey(service) != "" && UserKey(service) in creds
  }

  function VolumePart(volume: string, service: string, lower: char -> char): string {
    if Anonymous(volume) then VolumeIdentifier(volume) else SuffixOf(volume, service, lower)
  }

  /** The name before it is sanitized. */
  function RawName(volume: string, service: string, creds: Env, lower: char -> char): string {
    if DbName(service, creds) != "" then service + "_" + DbName(service, creds)
    else if HasUser(service, creds) then service + "_user_backup"
    else if service != GENERIC && VolumePart(volume, service, lower) != "" then
      service + "_" + VolumePart(volume, service, lower)
    else service + "_backup"
  }

  function GenerateJobName(volume: string, service: string, creds: Env, lower: char -> char): string {
    Sanitize(RawName(volume, service, creds, lower), lower)
  }

  /** Generic containers are named after the container instead. */
  function RawJob(volume: string, choice: Choice, names: seq<string>, lower: char -> char): string {
    if choice.service == GENERIC && names != [] then
      var cname := Sanitize(names[0], lower);
      var suffix := SuffixOf(volume, cname, lower);
      if suffix != "" then cname + "_" + suffix else names[0]
    else RawName(volume, choice.service, choice.creds, lower)
  }

  function JobName(volume: string, choice: Choice, names: seq<string>, lower: char -> char): string {
    Sanitize(RawJob(volume, choice, names, lower), lower)
  }

  /** Whatever the volumes, containers and credentials are called, the proposed name is one that
      `ValidateJobName` accepts, and sanitizing it again changes nothing. */
  lemma ProposedNamesAreValid(volume: string, choice: Choice, names: seq<string>, lower: char -> char)
    requires KeepsAlnum(lower)
    ensures ValidJobName(JobName(volume, choice, names, lower)) && Canonical(JobName(volume, choice, names, lower))
    ensures ValidJobName(GenerateJobName(volume, choice.service, choice.creds, lower))
    ensures Sanitize(JobName(volume, choice, names, lower), lower) == JobName(volume, choice, names, lower)
  {
    SanitizeCanonical(RawJob(volume, choice, names, lower), lower);
    SanitizeFixes(RawJob(volume, choice, names, lower), lower);
    SanitizeCanonical(RawName(volume, choice.service, choice.creds, lower), lower);
  }

  lemma MissingChar(s: string, sub: string, c: char)
    requires c !in s && c in sub
    ensures !Contains(s, sub)
  {
    var j :| 0 <= j < |sub| && sub[j] == c;
    forall i | 0 <= i <= |s| - |sub| ensures s[i..][..|sub|] != sub {
      assert s[i..][..|sub|][j] == s[i + j] && s[i + j] in s;
    }
  }

  /** What is used of upper-casing. */
  ghost predicate KeepsUpper(upper: char -> char) {
    forall c :: 'A' <= c <= 'Z' || c == '_' ==> upper(c) == c
  }

  /** No marker fits into such a key. */
  predicate PlainKey(key: string) {
    forall i :: 0 <= i < |key| ==> PlainChar(key[i])
  }

  predicate PlainChar(c: char) {
    ('A' <= c <= 'Z' || c == '_') && c != 'W' && c != 'K' && c != 'C'
  }

  lemma PlainDbKey(service: string)
    ensures PlainKey(DbKey(service))
  {
  }

  lemma PlainUserKey(service: string)
    ensures PlainKey(UserKey(service))
  {
  }

  lemma NotSecret(key: string, cs: Case)
    requires KeepsUpper(cs.upper) && PlainKey(key)
    ensures !LooksSecret(key, cs)
  {
    assert forall i :: 0 <= i < |key| ==> key[i] in key;
    assert Map(key, cs.upper) == key;
    assert "PASSWORD"[4] == 'W' && "TOKEN"[2] == 'K' && "SECRET"[2] == 'C' && "API_KEY"[4] == 'K';
    MissingChar(key, "PASSWORD", 'W');
    MissingChar(key, "TOKEN", 'K');
    MissingChar(key, "SECRET", 'C');
    MissingChar(key, "API_KEY", 'K');
  }

  lemma NotCaptured(c: Container, key: string, cs: Case)
    requires KeepsUpper(cs.upper) && ServiceOf(c, cs) == GENERIC && PlainKey(key)
    ensures key !in Credentials(c, cs)
  {
    assert KnownKeys(GENERIC) == [];
    NotSecret(key, cs);
  }

  lemma NoCredentialKeys(c: Container, service: string, cs: Case)
    requires KeepsUpper(cs.upper) && ServiceOf(c, cs) == GENERIC
    ensures DbName(service, Credentials(c, cs)) == "" && !HasUser(service, Credentials(c, cs))
  {
    PlainDbKey(service);
    PlainUserKey(service);
    NotCaptured(c, DbKey(service), cs);
    NotCaptured(c, UserKey(service), cs);
  }

  /** A service that only a port suggested never lends its name to a database or user: those keys are not among
      the credentials taken from a container whose image matched nothing, so the name comes from the volume. */
  lemma HintedNamesIgnoreCredentials(volume: string, users: seq<Container>, cs: Case)
    requires KeepsUpper(cs.upper) && users != [] && forall c :: c in users ==> ServiceOf(c, cs) == GENERIC
    ensures var choice := ChoiceOf(users, cs);
            GenerateJobName(volume, choice.service, choice.creds, cs.lower) ==
            GenerateJobName(volume, choice.service, map[], cs.lower)
  {
    assert FirstMatch(users, cs) == |users|;
    var choice := ChoiceOf(users, cs);
    NoCredentialKeys(users[0], choice.service, cs);
    assert RawName(volume, choice.service, choice.creds, cs.lower) == RawName(volume, choice.service, map[], cs.lower);
  }

  // ----- the scan

  datatype VolumeInfo = VolumeInfo(
    name: string, containers: seq<string>, service: string, creds: Env, recommended: string, jobName: string,
    folder: string, identifier: string)

  datatype Site = Site(environment: string, hostname: string, cs: Case)

  /** What the scan says about one volume, by the direct scan. */
  function InfoOf(volume: string, details: seq<Container>, site: Site): VolumeInfo {
    var users := Users(details, volume);
    var choice := ChoiceOf(users, site.cs);
    var job := JobName(volume, choice, NamesOf(users), site.cs.lower);
    VolumeInfo(volume, NamesOf(users), choice.service, choice.creds, Recommended(choice.service), job,
               RemotePath(site.environment, site.hostname, choice.service, job, site.cs.lower),
               VolumeIdentifier(volume))
  }

  function Infos(volumes: seq<string>, details: seq<Container>, site: Site): seq<VolumeInfo>
    decreases |volumes|
  {
    if volumes == [] then []
    else Infos(volumes[..|volumes| - 1], details, site) + [InfoOf(volumes[|volumes| - 1], details, site)]
  }

  lemma InfosNext(volumes: seq<string>, details: seq<Container>, site: Site, i: nat)
    requires i < |volumes|
    ensures Infos(volumes[..i + 1], details, site) ==
            Infos(volumes[..i], details, site) + [InfoOf(volumes[i], details, site)]
  {
    assert volumes[..i + 1][..i] == volumes[..i];
  }

  predicate NameLess(a: VolumeInfo, b: VolumeInfo) {
    LexLess(a.name, b.name)
  }

  datatype Scan = Scanned(infos: seq<VolumeInfo>) | NoVolumes | NoContainers

  /** Either listing may fail; `details` holds the containers that could be inspected. */
  method ScanVolumes(volumes: Option<seq<string>>, containersUp: bool, details: seq<Container>, site: Site)
    returns (r: Scan)
    ensures r.NoVolumes? <==> volumes.None?
    ensures r.NoContainers? <==> volumes.Some? && !containersUp
    ensures r.Scanned? ==>
              multiset(r.infos) == multiset(Infos(volumes.value, details, site)) && Ordered(r.infos, NameLess)
  {
    if volumes.None? { return NoVolumes; }
    if !containersUp { return NoContainers; }
    var infos := ScanAll(volumes.value, details, site);
    r := Scanned(infos);
  }

  method ScanAll(volumes: seq<string>, details: seq<Container>, site: Site) returns (out: seq<VolumeInfo>)
    ensures multiset(out) == multiset(Infos(volumes, details, site)) && Ordered(out, NameLess)
  {
    var index := IndexByVolume(details);
    out := [];
    for i := 0 to |volumes|
      invariant out == Infos(volumes[..i], details, site)
    {
      InfosNext(volumes, details, site, i);
      var info := ScanVolume(volumes[i], At(index, volumes[i]), details, site);
      out := out + [info];
    }
    assert volumes[..|volumes|] == volumes;
    LexStrictWeak();
    out := SortBy(out, NameLess);
  }

  method ScanVolume(volume: string, users: seq<Container>, ghost details: seq<Container>,
                    site: Site) returns (info: VolumeInfo)
    requires users == Users(details, volume)
    ensures info == InfoOf(volume, details, site)
  {
    var lower := site.cs.lower;
    var choice, names := Choose(users, site.cs);
    var job := GenerateJobName(volume, choice.service, choice.creds, lower);
    if choice.service == GENERIC && names != [] {
      var cname := Sanitize(names[0], lower);
      var suffix := VolumeSuffix(volume, cname, lower);
      job := if suffix != "" then Sanitize(cname + "_" + suffix, lower) else cname;
    }
    info := VolumeInfo(volume, names, choice.service, choice.creds, Recommended(choice.service), job,
                       RemotePath(site.environment, site.hostname, choice.service, job, lower),
                       VolumeIdentifier(volume));
  }

  // ----- what the scan says, in the words of its tables

  lemma ContainsExactly(s: string, sub: string)
    ensures Contains(s, sub) <==> exists a, b :: s == a + sub + b
  {
    if a, b :| s == a + sub + b { assert s[|a|..][..|sub|] == sub; }
    if i :| 0 <= i <= |s| - |sub| && s[i..][..|sub|] == sub { assert s == s[..i] + sub + s[i..][|sub|..]; }
  }

  /** The first of the six words that the lowered image name contains decides. */
  lemma ServiceByImage(c: Container, cs: Case)
    ensures var image := Map(c.image, cs.lower);
            ServiceOf(c, cs) ==
            if Contains(image, "postgres") then "postgres"
            else if Contains(image, "mysql") then "mysql"
            else if Contains(image, "mongo") then "mongodb"
            else if Contains(image, "redis") then "redis"
            else if Contains(image, "n8n") then "n8n"
            else if Contains(image, "rabbitmq") then "rabbitmq"
            else "generic"
  {
    var image := Map(c.image, cs.lower);
    var three, six := IMAGES[1..][1..][1..], IMAGES[1..][1..][1..][1..][1..][1..];
    assert MatchFrom(image, six) == "generic";
    assert MatchFrom(image, three[1..]) ==
           if Contains(image, "n8n") then "n8n" else if Contains(image, "rabbitmq") then "rabbitmq" else "generic";
    assert MatchFrom(image, three) == if Contains(image, "redis") then "redis" else MatchFrom(image, three[1..]);
    assert MatchFrom(image, IMAGES[1..]) ==
           if Contains(image, "mysql") then "mysql" else MatchFrom(image, IMAGES[1..][1..]);
    assert MatchFrom(image, IMAGES[1..][1..]) ==
           if Contains(image, "mongo") then "mongodb" else MatchFrom(image, three);
  }

  /** What is captured of an environment, by service. */
  predicate Captured(key: string, service: string, cs: Case) {
    || (service == "postgres" && key in {"POSTGRES_USER", "POSTGRES_PASSWORD", "POSTGRES_DB"})
    || (service == "mysql" && key in {"MYSQL_ROOT_PASSWORD", "MYSQL_USER", "MYSQL_PASSWORD", "MYSQL_DATABASE"})
    || (service == "mongodb" &&
        key in {"MONGO_INITDB_ROOT_USERNAME", "MONGO_INITDB_ROOT_PASSWORD", "MONGO_INITDB_DATABASE"})
    || (service == "redis" && key == "REDIS_PASSWORD")
    || Contains(Map(key, cs.upper), "PASSWORD") || Contains(Map(key, cs.upper), "TOKEN")
    || Contains(Map(key, cs.upper), "SECRET") || Contains(Map(key, cs.upper), "API_KEY")
  }

  ghost predicate Captures(creds: Env, env: Env, service: string, cs: Case) {
    && (forall k :: k in creds <==> k in env && Captured(k, service, cs))
    && (forall k :: k in creds ==> creds[k] == env[k])
  }

  lemma CredentialsCaptured(c: Container, cs: Case)
    ensures Captures(Credentials(c, cs), c.env, ServiceOf(c, cs), cs)
  {
    forall k ensures k in KnownKeys(ServiceOf(c, cs)) || LooksSecret(k, cs) <==> Captured(k, ServiceOf(c, cs), cs) {
      KnownAsListed(ServiceOf(c, cs), k);
    }
  }

  lemma KnownAsListed(service: string, k: string)
    ensures k in KnownKeys(service) <==>
            || (service == "postgres" && k in {"POSTGRES_USER", "POSTGRES_PASSWORD", "POSTGRES_DB"})
            || (service == "mysql" && k in {"MYSQL_ROOT_PASSWORD", "MYSQL_USER", "MYSQL_PASSWORD", "MYSQL_DATABASE"})
            || (service == "mongodb" &&
                k in {"MONGO_INITDB_ROOT_USERNAME", "MONGO_INITDB_ROOT_PASSWORD", "MONGO_INITDB_DATABASE"})
            || (service == "redis" && k == "REDIS_PASSWORD")
  {
  }

  /** The scan's answer where some image names a service: the first such container gives type and credentials. */
  lemma ScannedByImage(volume: string, details: seq<Container>, site: Site, k: nat)
    requires k < |Users(details, volume)|
    requires forall j :: 0 <= j < k ==> ServiceOf(Users(details, volume)[j], site.cs) == "generic"
    requires ServiceOf(Users(details, volume)[k], site.cs) != "generic"
    ensures var (info, c) := (InfoOf(volume, details, site), Users(details, volume)[k]);
            && info.service == ServiceOf(c, site.cs)
            && Captures(info.creds, c.env, info.service, site.cs)
  {
    var users := Users(details, volume);
    var first := FirstMatch(users, site.cs);
    assert first == k;
    CredentialsCaptured(users[k], site.cs);
  }

  /** And where none does: the first container's first well-known port decides, or else nothing does. */
  lemma ScannedByPort(volume: string, details: seq<Container>, site: Site, i: nat)
    requires var users := Users(details, volume);
             && users != [] && (forall c :: c in users ==> ServiceOf(c, site.cs) == "generic")
             && i <= |users[0].ports|
             && (forall j :: 0 <= j < i ==> users[0].ports[j] !in {5432, 3306, 27017, 6379})
             && (i < |users[0].ports| ==> users[0].ports[i] in {5432, 3306, 27017, 6379})
    ensures var (info, c) := (InfoOf(volume, details, site), Users(details, volume)[0]);
            && Captures(info.creds, c.env, "generic", site.cs)
            && info.service ==
               if i == |c.ports| then "generic"
               else match c.ports[i]
                    case 5432 => "postgres" case 3306 => "mysql" case 27017 => "mongodb" case _ => "redis"
  {
    var users := Users(details, volume);
    var first := FirstMatch(users, site.cs);
    assert first == |users|;
    CredentialsCaptured(users[0], site.cs);
    FirstHintAt(users[0].ports, i);
  }

  lemma {:induction false} FirstHintAt(ports: seq<int>, i: nat)
    requires i <= |ports|
    requires forall j :: 0 <= j < i ==> ports[j] !in {5432, 3306, 27017, 6379}
    requires i < |ports| ==> ports[i] in {5432, 3306, 27017, 6379}
    ensures FirstHint(ports) ==
            if i == |ports| then ""
            else match ports[i] case 5432 => "postgres" case 3306 => "mysql" case 27017 => "mongodb" case _ => "redis"
  {
    if i > 0 { FirstHintAt(ports[1..], i - 1); }
  }

  /** Type and proposed kind of backup go together. */
  lemma ScanRecommends(volume: string, details: seq<Container>, site: Site)
    ensures var info := InfoOf(volume, details, site);
            info.recommended ==
            match info.service
            case "postgres" => "pg_dump"
            case "mysql" => "mysqldump"
            case "mongodb" => "mongodump --archive"
            case "redis" => "BGSAVE"
            case "n8n" => "volume tar + container lifecycle"
            case "rabbitmq" => "rabbitmqctl export_definitions"
            case _ => "tar"
    ensures InfoOf(volume, details, site).service in
            {"postgres", "mysql", "mongodb", "redis", "n8n", "rabbitmq", "generic"}
  {
    ServiceIsKnown(Users(details, volume), site.cs);
  }

  /** The volumes of one scan: a container uses a volume if one of its mounts is that volume, by name. */
  lemma {:induction false} UsersExactly(details: seq<Container>, volume: string)
    ensures forall c :: c in Users(details, volume) <==>
              c in details && volume != "" && exists m :: m in c.mounts && m.kind == "volume" && m.name == volume
    decreases |details|
  {
    if details != [] {
      var last := details[|details| - 1];
      UsersExactly(details[..|details| - 1], volume);
      HitsExactly(last, last.mounts, volume);
      assert details == details[..|details| - 1] + [last];
    }
  }

  lemma {:induction false} HitsExactly(c: Container, mounts: seq<Mount>, volume: string)
    ensures forall d :: d in Hits(c, mounts, volume) <==>
              d == c && volume != "" && exists m :: m in mounts && m.kind == "volume" && m.name == volume
    decreases |mounts|
  {
    if mounts != [] {
      HitsExactly(c, mounts[..|mounts| - 1], volume);
      assert mounts == mounts[..|mounts| - 1] + [mounts[|mounts| - 1]];
    }
  }

  /** The database of the service and its user, by the keys that hold them. */
  predicate Holds(service: string, db: string, user: string) {
    || (service == "postgres" && db == "POSTGRES_DB" && user == "POSTGRES_USER")
    || (service == "mysql" && db == "MYSQL_DATABASE" && user == "MYSQL_USER")
    || (service == "mongodb" && db == "MONGO_INITDB_DATABASE" && user == "MONGO_INITDB_ROOT_USERNAME")
  }

  lemma KeysAsListed(service: string)
    ensures Holds(service, DbKey(service), UserKey(service)) || (DbKey(service) == UserKey(service) == "")
    ensures service in {"postgres", "mysql", "mongodb"} <==> DbKey(service) != ""
    ensures service in {"postgres", "mysql", "mongodb"} <==> UserKey(service) != ""
  {
  }

  /** The pattern a job name follows: database, user, volume, or none. */
  lemma NamedByPattern(volume: string, service: string, creds: Env, lower: char -> char, db: string, user: string)
    requires Holds(service, db, user)
    ensures var suffix := if Anonymous(volume) then "vol-" + volume[..8] else SuffixOf(volume, service, lower);
            GenerateJobName(volume, service, creds, lower) ==
            if db in creds && creds[db] != "" then Sanitize(service + "_" + creds[db], lower)
            else if user in creds then Sanitize(service + "_user_backup", lower)
            else if suffix != "" then Sanitize(service + "_" + suffix, lower)
            else Sanitize(service + "_backup", lower)
  {
    KeysAsListed(service);
    assert DbKey(service) == db && UserKey(service) == user;
  }

  lemma NamedByVolume(volume: string, service: string, creds: Env, lower: char -> char)
    requires service !in {"postgres", "mysql", "mongodb"}
    ensures var suffix := if Anonymous(volume) then "vol-" + volume[..8] else SuffixOf(volume, service, lower);
            GenerateJobName(volume, service, creds, lower) ==
            if service != "generic" && suffix != "" then Sanitize(service + "_" + suffix, lower)
            else Sanitize(service + "_backup", lower)
  {
    KeysAsListed(service);
  }

  /** Containers of no known service lend the job their own name, with what the volume's name adds to it. */
  lemma NamedByContainer(volume: string, creds: Env, names: seq<string>, lower: char -> char)
    requires names != []
    ensures var name := Sanitize(names[0], lower);
            JobName(volume, Choice("generic", creds), names, lower) ==
            if SuffixOf(volume, name, lower) != "" then Sanitize(name + "_" + SuffixOf(volume, name, lower), lower)
            else name
  {
  }

  // ----- two jobs of one host

  /** Services and job names have no slash, so two proposed jobs of one site share a folder only if they agree in
      service and name, and otherwise neither folder lies in the other. */
  lemma ProposedFoldersAreApart(v: string, w: string, details: seq<Container>, site: Site)
    requires KeepsAlnum(site.cs.lower) && '/' !in Map(site.environment, site.cs.lower) &&
             '/' !in Map(site.hostname, site.cs.lower)
    ensures var a, b := InfoOf(v, details, site), InfoOf(w, details, site);
            a.folder <= b.folder <==> a.service == b.service && a.jobName == b.jobName
  {
    var a, b := InfoOf(v, details, site), InfoOf(w, details, site);
    NoSlash(v, details, site);
    NoSlash(w, details, site);
    FoldersAreApart(site.environment, site.hostname, a.service, a.jobName,
                    site.environment, site.hostname, b.service, b.jobName, site.cs.lower);
  }

  lemma NoSlash(v: string, details: seq<Container>, site: Site)
    requires KeepsAlnum(site.cs.lower)
    ensures var a := InfoOf(v, details, site);
            && Map(a.service, site.cs.lower) == a.service && '/' !in a.service
            && Map(a.jobName, site.cs.lower) == a.jobName && '/' !in a.jobName
  {
    var users := Users(details, v);
    var choice := ChoiceOf(users, site.cs);
    ProposedNamesAreValid(v, choice, NamesOf(users), site.cs.lower);
    ValidIsPlain(JobName(v, choice, NamesOf(users), site.cs.lower), site.cs.lower);
    ServiceIsValid(users, site.cs);
    ValidIsPlain(choice.service, site.cs.lower);
  }

  lemma ValidIsPlain(s: string, lower: char -> char)
    requires KeepsAlnum(lower) && ValidJobName(s)
    ensures Map(s, lower) == s && '/' !in s
  {
    assert forall i :: 0 <= i < |s| ==> s[i] in s;
    assert !Alnum('/');
  }

  lemma ServiceIsKnown(users: seq<Container>, cs: Case)
    ensures ChoiceOf(users, cs).service in {POSTGRES, MYSQL, MONGODB, REDIS, N8N, RABBITMQ, GENERIC}
  {
    forall c: Container ensures ServiceOf(c, cs) in {POSTGRES, MYSQL, MONGODB, REDIS, N8N, RABBITMQ, GENERIC} {
      KnownService(Map(c.image, cs.lower), IMAGES);
    }
    if users != [] { HintKnown(users[0].ports); }
  }

  lemma ServiceIsValid(users: seq<Container>, cs: Case)
    ensures ValidJobName(ChoiceOf(users, cs).service)
  {
    ServiceIsKnown(users, cs);
  }

  lemma {:induction false} KnownService(image: string, order: seq<(string, string)>)
    ensures MatchFrom(image, order) == GENERIC || exists e :: e in order && MatchFrom(image, order) == e.1
    decreases |order|
  {
    if order != [] {
      KnownService(image, order[1..]);
      assert order == [order[0]] + order[1..];
    }
  }

  lemma {:induction false} HintKnown(ports: seq<int>)
    ensures FirstHint(ports) in {"", POSTGRES, MYSQL, MONGODB, REDIS}
  {
    if ports != [] { HintKnown(ports[1..]); }
  }
}
