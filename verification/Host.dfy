/** The docker host as the executors see it: what a call does to containers and volumes (docker/client.go). */
module Host {
  import opened Text
  import opened Retention

  /** Regular files by their path below the volume's root. */
  type Files = map<string, Bytes>

  /** `tar czf`, `tar xzf` and `rm`, taken as given; `stuck` are the files of a volume that `rm -rf` fails to remove,
      which nobody learns because its exit status is dropped. */
  datatype Tools = Tools(pack: Files -> Bytes, unpack: Bytes -> Option<Files>, stuck: Files -> set<string>)

  datatype Action =
    | Stop(container: string)
    | Start(container: string)
    | Archive(volume: string)
    | Wipe(volume: string)
    | Extract(volume: string, archive: Bytes)
    | CopyIn(container: string, path: string, data: Bytes)
    | Psql(container: string, user: string, db: string, env: map<string, string>, stdin: Bytes)
    | Import(container: string, path: string)
    | Remove(container: string, path: string)

  datatype World = World(running: set<string>, volumes: map<string, Files>, files: map<(string, string), Bytes>)

  /** `docker run -v` creates a volume it does not know. */
  function Volume(w: World, v: string): Files {
    if v in w.volumes then w.volumes[v] else map[]
  }

  /** What the wipe command names: every entry that does not start with a dot, and every dot-entry whose second
      character is not a dot. */
  predicate Globbed(path: string) {
    path != "" && (path[0] != '.' || (|path| > 1 && path[1] != '.'))
  }

  /** What the wipe command leaves: names it does not match, and those it could not remove. */
  function Leftover(files: Files, tools: Tools): Files {
    map p | p in files && (!Globbed(p) || p in tools.stuck(files)) :: files[p]
  }

  /** What a carried-out call changes. Databases and brokers are seen through the calls alone. */
  function Apply(w: World, a: Action, tools: Tools): World {
    match a
    case Stop(c) => w.(running := w.running - {c})
    case Start(c) => w.(running := w.running + {c})
    case Wipe(v) => w.(volumes := w.volumes[v := Leftover(Volume(w, v), tools)])
    case Extract(v, archive) =>
      var unpacked := tools.unpack(archive);
      if unpacked.None? then w else w.(volumes := w.volumes[v := Volume(w, v) + unpacked.value])
    case CopyIn(c, path, data) => w.(files := w.files[(c, path) := data])
    case Remove(c, path) => w.(files := w.files - {(c, path)})
    case Archive(_) | Psql(_, _, _, _, _) | Import(_, _) => w
  }

  /** Nobody unpacks a broken archive successfully. */
  predicate Accepted(a: Action, reply: Reply, tools: Tools) {
    reply.Done? && (a.Extract? ==> tools.unpack(a.archive).Some?)
  }

  function After(w: World, a: Action, reply: Reply, tools: Tools): World {
    if reply.Refused? then w else Apply(w, a, tools)
  }

  /** Call `i` gets reply `i`. */
  function AfterAll(w: World, actions: seq<Action>, reply: nat -> Reply, tools: Tools): World
    decreases |actions|
  {
    if actions == [] then w
    else
      var last := |actions| - 1;
      After(AfterAll(w, actions[..last], reply, tools), actions[last], reply(last), tools)
  }

  lemma AfterLast(w: World, actions: seq<Action>, a: Action, reply: nat -> Reply, tools: Tools)
    ensures AfterAll(w, actions + [a], reply, tools) ==
            After(AfterAll(w, actions, reply, tools), a, reply(|actions|), tools)
  {
    assert (actions + [a])[..|actions|] == actions;
  }

  /** The host after further `calls`. */
  function Played(initial: World, trace: seq<Action>, calls: seq<Action>, reply: nat -> Reply, tools: Tools): World {
    AfterAll(initial, trace + calls, reply, tools)
  }

  lemma PlayedNext(initial: World, trace: seq<Action>, calls: seq<Action>, a: Action, reply: nat -> Reply, tools: Tools)
    ensures Played(initial, trace, calls + [a], reply, tools) ==
            After(Played(initial, trace, calls, reply, tools), a, reply(|trace| + |calls|), tools)
  {
    assert trace + (calls + [a]) == (trace + calls) + [a];
    AfterLast(initial, trace + calls, a, reply, tools);
  }

  lemma PlayedNone(initial: World, trace: seq<Action>, reply: nat -> Reply, tools: Tools)
    ensures Played(initial, trace, [], reply, tools) == AfterAll(initial, trace, reply, tools)
  {
    assert trace + [] == trace;
  }

  class Docker {
    const tools: Tools
    const reply: nat -> Reply
    const initial: World
    var trace: seq<Action>

    constructor (tools: Tools, reply: nat -> Reply, initial: World)
      ensures this.tools == tools && this.reply == reply && this.initial == initial && trace == []
    {
      this.tools, this.reply, this.initial, this.trace := tools, reply, initial, [];
    }

    /** The host is what the calls made of it, in order. */
    function Now(): World
      reads this
    {
      AfterAll(initial, trace, reply, tools)
    }

    /** Call number `|trace|` on the host. */
    method Do(a: Action) returns (ok: bool)
      modifies this
      ensures trace == old(trace) + [a]
      ensures ok <==> Accepted(a, reply(|old(trace)|), tools)
    {
      ok := Accepted(a, reply(|trace|), tools);
      trace := trace + [a];
    }
  }
}
