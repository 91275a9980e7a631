/** `manifest.json`: `Upsert` in place, and the load-update-save of `recordResults` (workspace/manifest.go,
    cli/backup.go). */
module RunManifest {
  import opened Text

  datatype Entry = Entry(jobName: string, serviceType: string, lastBackup: Option<int>, status: string)

  ghost predicate UniqueNames(jobs: seq<Entry>) {
    forall i, j :: 0 <= i < j < |jobs| ==> jobs[i].jobName != jobs[j].jobName
  }

  /** The entry `list --detailed` finds for a name: the first. */
  function Find(jobs: seq<Entry>, name: string): Option<Entry> {
    if jobs == [] then None
    else if jobs[0].jobName == name then Some(jobs[0])
    else Find(jobs[1..], name)
  }

  lemma {:induction false} FindNone(jobs: seq<Entry>, name: string)
    ensures Find(jobs, name).None? <==> forall e :: e in jobs ==> e.jobName != name
    ensures Find(jobs, name).Some? ==> Find(jobs, name).value in jobs && Find(jobs, name).value.jobName == name
  {
    if jobs != [] {
      FindNone(jobs[1..], name);
      assert jobs == [jobs[0]] + jobs[1..];
    }
  }

  lemma {:induction false} FindInParts(a: seq<Entry>, b: seq<Entry>, name: string)
    ensures Find(a + b, name) == if Find(a, name).Some? then Find(a, name) else Find(b, name)
  {
    if a == [] {
      assert a + b == b;
    } else {
      assert (a + b)[1..] == a[1..] + b;
      FindInParts(a[1..], b, name);
    }
  }

  /** One entry in the same place, or a new one at the end; all other entries untouched. */
  ghost predicate Upserted(before: seq<Entry>, after: seq<Entry>, entry: Entry) {
    if Find(before, entry.jobName).None? then after == before + [entry]
    else exists i :: 0 <= i < |before| && before[i].jobName == entry.jobName
           && (forall j :: 0 <= j < i ==> before[j].jobName != entry.jobName)
           && after == before[i := entry]
  }

  class Manifest {
    var jobs: seq<Entry>

    constructor (jobs: seq<Entry>)
      ensures this.jobs == jobs
    {
      this.jobs := jobs;
    }

    method Upsert(entry: Entry)
      modifies this
      ensures Upserted(old(jobs), jobs, entry)
    {
      FindNone(jobs, entry.jobName);
      for i := 0 to |jobs|
        invariant jobs == old(jobs) && forall j :: 0 <= j < i ==> jobs[j].jobName != entry.jobName
      {
        if jobs[i].jobName == entry.jobName {
          jobs := jobs[i := entry];
          return;
        }
      }
      jobs := jobs + [entry];
    }
  }

  /** `Upsert` is map update: the entry is found, every other name is as before, names stay unique. */
  lemma UpsertIsUpdate(before: seq<Entry>, after: seq<Entry>, entry: Entry)
    requires Upserted(before, after, entry)
    ensures forall n :: Find(after, n) == if n == entry.jobName then Some(entry) else Find(before, n)
    ensures UniqueNames(before) ==> UniqueNames(after)
  {
    FindNone(before, entry.jobName);
    if Find(before, entry.jobName).None? {
      forall n ensures Find(after, n) == if n == entry.jobName then Some(entry) else Find(before, n) {
        FindInParts(before, [entry], n);
      }
    } else {
      var i :| 0 <= i < |before| && before[i].jobName == entry.jobName
        && (forall j :: 0 <= j < i ==> before[j].jobName != entry.jobName) && after == before[i := entry];
      forall n ensures Find(after, n) == if n == entry.jobName then Some(entry) else Find(before, n) {
        Replaced(before, i, entry, n);
      }
    }
  }

  lemma {:induction false} Replaced(before: seq<Entry>, i: nat, entry: Entry, n: string)
    requires i < |before| && before[i].jobName == entry.jobName
    requires forall j :: 0 <= j < i ==> before[j].jobName != entry.jobName
    ensures Find(before[i := entry], n) == if n == entry.jobName then Some(entry) else Find(before, n)
  {
    var after := before[i := entry];
    if i == 0 {
      assert after[1..] == before[1..];
    } else {
      assert after[1..] == before[1..][i - 1 := entry];
      Replaced(before[1..], i - 1, entry, n);
    }
  }

  // ----- runs

  /** A failed write may leave the file as it was, or unreadable. */
  datatype File = Absent | Encoded(jobs: seq<Entry>) | Garbled

  datatype Write = Whole | Refused | Torn

  function Entries(f: File): seq<Entry> {
    if f.Encoded? then f.jobs else []
  }

  function Lookup(f: File, name: string): Option<Entry> {
    Find(Entries(f), name)
  }

  /** The entries before and after each `Upsert`. */
  ghost predicate Upserts(stages: seq<seq<Entry>>, results: seq<Entry>) {
    |stages| == |results| + 1 && forall i :: 0 <= i < |results| ==> Upserted(stages[i], stages[i + 1], results[i])
  }

  ghost predicate Records(before: File, results: seq<Entry>, after: File, w: Write, ok: bool) {
    if before.Garbled? then after == before && !ok
    else
      && ok == w.Whole?
      && match w
         case Whole =>
           after.Encoded? && exists stages ::
             Upserts(stages, results) && stages[0] == Entries(before) && stages[|results|] == after.jobs
         case Refused => after == before
         case Torn => after == Garbled
  }

  class Workspace {
    var file: File

    constructor (file: File)
      ensures this.file == file
    {
      this.file := file;
    }

    method RecordResults(results: seq<Entry>, w: Write) returns (ok: bool)
      modifies this
      ensures Records(old(file), results, file, w, ok)
    {
      if file.Garbled? { return false; }
      var m := new Manifest(Entries(file));
      ghost var stages := [m.jobs];
      for i := 0 to |results|
        invariant fresh(m) && file == old(file)
        invariant Upserts(stages, results[..i]) && stages[0] == Entries(file) && stages[i] == m.jobs
      {
        m.Upsert(results[i]);
        stages := stages + [m.jobs];
      }
      assert results[..|results|] == results;
      match w
      case Whole => file := Encoded(m.jobs); return true;
      case Refused => return false;
      case Torn => file := Garbled; return false;
    }
  }

  /** The last result under a name. */
  function LastFor(results: seq<Entry>, name: string): Option<Entry>
    decreases |results|
  {
    if results == [] then None
    else
      var last := results[|results| - 1];
      if last.jobName == name then Some(last) else LastFor(results[..|results| - 1], name)
  }

  lemma {:induction false} UpsertsFold(stages: seq<seq<Entry>>, results: seq<Entry>, name: string)
    requires Upserts(stages, results)
    ensures Find(stages[|results|], name) ==
            if LastFor(results, name).Some? then LastFor(results, name) else Find(stages[0], name)
    ensures UniqueNames(stages[0]) ==> UniqueNames(stages[|results|])
    decreases |results|
  {
    if results != [] {
      var last := |results| - 1;
      UpsertsFold(stages[..last + 1], results[..last], name);
      UpsertIsUpdate(stages[last], stages[last + 1], results[last]);
    }
  }

  /** One run changes exactly the names it has results for. */
  lemma RunUpdates(before: File, results: seq<Entry>, after: File, name: string)
    requires Records(before, results, after, Whole, true)
    ensures after.Encoded? && (UniqueNames(Entries(before)) ==> UniqueNames(after.jobs))
    ensures Lookup(after, name) == if LastFor(results, name).Some? then LastFor(results, name) else Lookup(before, name)
  {
    var stages :| Upserts(stages, results) && stages[0] == Entries(before) && stages[|results|] == after.jobs;
    UpsertsFold(stages, results, name);
  }

  datatype Call = Call(results: seq<Entry>, w: Write, ok: bool)

  /** Backup runs one after the other, as the workspace lock makes them. */
  ghost predicate Run(run: seq<File>, calls: seq<Call>) {
    && |run| == |calls| + 1
    && forall i :: 0 <= i < |calls| ==> Records(run[i], calls[i].results, run[i + 1], calls[i].w, calls[i].ok)
  }

  /** All results of the runs that reported success, in order. */
  function Recorded(calls: seq<Call>): seq<Entry>
    decreases |calls|
  {
    if calls == [] then []
    else Recorded(calls[..|calls| - 1]) + if calls[|calls| - 1].ok then calls[|calls| - 1].results else []
  }

  lemma {:induction false} LastForConcat(a: seq<Entry>, b: seq<Entry>, name: string)
    ensures LastFor(a + b, name) == if LastFor(b, name).Some? then LastFor(b, name) else LastFor(a, name)
    decreases |b|
  {
    if b == [] {
      assert a + b == a;
    } else {
      var last := |b| - 1;
      assert (a + b)[..|a + b| - 1] == a + b[..last];
      LastForConcat(a, b[..last], name);
    }
  }

  /** No lost update: as long as no write was torn, each name shows its last result over all runs that reported
      success - however many runs failed to write - and no name shows twice. */
  lemma {:induction false} NoLostUpdate(run: seq<File>, calls: seq<Call>, name: string)
    requires Run(run, calls) && !run[0].Garbled? && forall i :: 0 <= i < |calls| ==> !calls[i].w.Torn?
    ensures !run[|calls|].Garbled?
    ensures Lookup(run[|calls|], name) ==
            if LastFor(Recorded(calls), name).Some? then LastFor(Recorded(calls), name) else Lookup(run[0], name)
    ensures UniqueNames(Entries(run[0])) ==> UniqueNames(Entries(run[|calls|]))
    decreases |calls|
  {
    if calls != [] {
      var last := |calls| - 1;
      NoLostUpdate(run[..last + 1], calls[..last], name);
      var c := calls[last];
      if c.ok {
        RunUpdates(run[last], c.results, run[last + 1], name);
        LastForConcat(Recorded(calls[..last]), c.results, name);
      } else {
        assert Recorded(calls[..last]) + [] == Recorded(calls[..last]);
      }
    }
  }

  /** A torn write is final: no later run can record anything. */
  lemma {:induction false} GarbledForever(run: seq<File>, calls: seq<Call>, i: nat, k: nat)
    requires Run(run, calls) && i <= k <= |calls| && run[i].Garbled?
    ensures run[k].Garbled? && forall j :: i <= j < k ==> !calls[j].ok
  {
    if i < k { GarbledForever(run, calls, i, k - 1); }
  }
}
