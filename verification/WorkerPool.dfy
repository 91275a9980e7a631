/**
 `runJobs` of cli/backup.go: a loop that takes a semaphore slot per job and starts a goroutine, and a
 wait group that the caller blocks on. One action per channel, wait-group or slice operation, in any
 interleaving.
 */
module WorkerPool {
  import opened Text

  datatype Job = Job(name: string, backupType: string)

  datatype Outcome = Success(status: string) | Failed(message: string) | NoExecutor

  /** `backup(i)` is what the executor returns for job `i` in this run. */
  datatype Config = Config(jobs: seq<Job>, registry: set<string>, parallel: int, backup: nat -> Outcome)
  {
    /** `--parallel` below one means one. */
    function Slots(): nat {
      if parallel < 1 then 1 else parallel
    }

    function OutcomeOf(i: nat): Outcome
      requires i < |jobs|
    {
      if jobs[i].backupType in registry then backup(i) else NoExecutor
    }
  }

  /** The loop body is `wg.Add`, `sem <-`, `go`. */
  datatype Main = Add(i: nat) | Acquire(i: nat) | Go(i: nat) | Waiting | Returned

  /** The goroutine body writes its slot; its deferred calls then free the semaphore slot and call `wg.Done`. */
  datatype Worker = Unborn | Running | Recorded | Freed | Gone

  datatype State = State(
    main: Main, sem: nat, wg: nat, workers: seq<Worker>, results: seq<Option<Outcome>>, writes: seq<nat>)

  datatype Action = MainStep | Record(i: nat) | Free(i: nat) | Done(i: nat)

  function Init(c: Config): State {
    var n := |c.jobs|;
    State(if n == 0 then Waiting else Add(0), 0, 0, seq(n, _ => Unborn), seq(n, _ => None), seq(n, _ => 0))
  }

  /** A send blocks on a full channel, `Wait` on a positive counter. */
  predicate Enabled(c: Config, s: State, a: Action) {
    match a
    case MainStep =>
      (match s.main
       case Add(_) => true
       case Acquire(_) => s.sem < c.Slots()
       case Go(i) => i < |s.workers|
       case Waiting => s.wg == 0
       case Returned => false)
    case Record(i) => i < |s.workers| && s.workers[i] == Running && i < |c.jobs| && i < |s.results| && i < |s.writes|
    case Free(i) => i < |s.workers| && s.workers[i] == Recorded && s.sem > 0
    case Done(i) => i < |s.workers| && s.workers[i] == Freed && s.wg > 0
  }

  function Next(c: Config, s: State, a: Action): State
    requires Enabled(c, s, a)
  {
    match a
    case MainStep =>
      (match s.main
       case Add(i) => s.(main := Acquire(i), wg := s.wg + 1)
       case Acquire(i) => s.(main := Go(i), sem := s.sem + 1)
       case Go(i) =>
         s.(main := if i + 1 < |c.jobs| then Add(i + 1) else Waiting, workers := s.workers[i := Running])
       case Waiting => s.(main := Returned))
    case Record(i) =>
      s.(workers := s.workers[i := Recorded],
         results := s.results[i := Some(c.OutcomeOf(i))],
         writes := s.writes[i := s.writes[i] + 1])
    case Free(i) => s.(workers := s.workers[i := Freed], sem := s.sem - 1)
    case Done(i) => s.(workers := s.workers[i := Gone], wg := s.wg - 1)
  }

  ghost predicate Steps(c: Config, s: State, s': State) {
    exists a :: Enabled(c, s, a) && s' == Next(c, s, a)
  }

  ghost predicate Run(c: Config, run: seq<State>) {
    && |run| > 0
    && run[0] == Init(c)
    && forall i :: 0 <= i < |run| - 1 ==> Steps(c, run[i], run[i + 1])
  }

  // ----- counting workers

  function Sum(ws: seq<Worker>, weight: Worker -> nat): nat {
    if ws == [] then 0 else weight(ws[0]) + Sum(ws[1..], weight)
  }

  lemma {:induction false} SumUpdate(ws: seq<Worker>, i: nat, w: Worker, weight: Worker -> nat)
    requires i < |ws|
    ensures Sum(ws[i := w], weight) + weight(ws[i]) == Sum(ws, weight) + weight(w)
  {
    if i == 0 {
      assert ws[0 := w][1..] == ws[1..];
    } else {
      assert ws[i := w][1..] == ws[1..][i - 1 := w];
      SumUpdate(ws[1..], i - 1, w, weight);
    }
  }

  lemma {:induction false} SumPositive(ws: seq<Worker>, weight: Worker -> nat) returns (i: nat)
    requires Sum(ws, weight) > 0
    ensures i < |ws| && weight(ws[i]) > 0
  {
    if weight(ws[0]) > 0 {
      i := 0;
    } else {
      i := SumPositive(ws[1..], weight);
      i := i + 1;
    }
  }

  lemma {:induction false} SumBound(ws: seq<Worker>, i: nat, weight: Worker -> nat)
    requires i < |ws|
    ensures weight(ws[i]) <= Sum(ws, weight)
  {
    if i > 0 { SumBound(ws[1..], i - 1, weight); }
  }

  lemma {:induction false} SumConstant(ws: seq<Worker>, w: Worker, weight: Worker -> nat)
    requires forall i :: 0 <= i < |ws| ==> ws[i] == w
    ensures Sum(ws, weight) == |ws| * weight(w)
  {
    if ws != [] { SumConstant(ws[1..], w, weight); }
  }

  /** Holds a semaphore slot: the job is running. */
  function Slot(w: Worker): nat {
    if w == Running || w == Recorded then 1 else 0
  }

  /** Still counted by the wait group. */
  function Awaited(w: Worker): nat {
    if w == Unborn || w == Gone then 0 else 1
  }

  function StepsLeft(w: Worker): nat {
    match w
    case Unborn => 3 case Running => 3 case Recorded => 2 case Freed => 1 case Gone => 0
  }

  function MainLeft(c: Config, m: Main): int {
    match m
    case Add(i) => 3 * (|c.jobs| - i) + 1
    case Acquire(i) => 3 * (|c.jobs| - i)
    case Go(i) => 3 * (|c.jobs| - i) - 1
    case Waiting => 1
    case Returned => 0
  }

  /** Operations still to come, the same for every schedule. */
  function Measure(c: Config, s: State): int {
    MainLeft(c, s.main) + Sum(s.workers, StepsLeft)
  }

  // ----- the invariant

  function Started(c: Config, m: Main): nat {
    if m.Waiting? || m.Returned? then |c.jobs| else m.i
  }

  predicate Shape(c: Config, s: State) {
    && |s.workers| == |s.results| == |s.writes| == |c.jobs|
    && (s.main.Waiting? || s.main.Returned? || s.main.i < |c.jobs|)
    && (forall i :: 0 <= i < |c.jobs| ==> (s.workers[i] == Unborn <==> i >= Started(c, s.main)))
  }

  predicate Counts(c: Config, s: State) {
    && s.sem == Sum(s.workers, Slot) + (if s.main.Go? then 1 else 0)
    && s.sem <= c.Slots()
    && s.wg == Sum(s.workers, Awaited) + (if s.main.Acquire? || s.main.Go? then 1 else 0)
    && (s.main.Returned? ==> s.wg == 0)
  }

  predicate Written(w: Worker) {
    w == Recorded || w == Freed || w == Gone
  }

  predicate SlotsHoldOutcomes(c: Config, s: State)
    requires Shape(c, s)
  {
    forall i :: 0 <= i < |c.jobs| ==>
      if Written(s.workers[i]) then s.results[i] == Some(c.OutcomeOf(i)) && s.writes[i] == 1
      else s.results[i] == None && s.writes[i] == 0
  }

  predicate Inv(c: Config, s: State) {
    Shape(c, s) && Counts(c, s) && SlotsHoldOutcomes(c, s)
  }

  lemma InitInv(c: Config)
    ensures Inv(c, Init(c)) && Measure(c, Init(c)) == 6 * |c.jobs| + 1
  {
    var ws := Init(c).workers;
    SumConstant(ws, Unborn, Slot);
    SumConstant(ws, Unborn, Awaited);
    SumConstant(ws, Unborn, StepsLeft);
  }

  /** The worker an action moves; moves of the main loop other than `go` leave all workers alone. */
  lemma StepKeepsSums(c: Config, s: State, a: Action, i: nat)
    requires Shape(c, s) && Counts(c, s) && Enabled(c, s, a)
    requires if a == MainStep then s.main.Go? && i == s.main.i else i == a.i
    ensures Counts(c, Next(c, s, a)) && Measure(c, Next(c, s, a)) == Measure(c, s) - 1
  {
    var w := Next(c, s, a).workers[i];
    SumUpdate(s.workers, i, w, Slot);
    SumUpdate(s.workers, i, w, Awaited);
    SumUpdate(s.workers, i, w, StepsLeft);
  }

  lemma StepKeepsShape(c: Config, s: State, a: Action)
    requires Shape(c, s) && Enabled(c, s, a)
    ensures Shape(c, Next(c, s, a))
  {
  }

  lemma StepKeepsSlots(c: Config, s: State, a: Action)
    requires Shape(c, s) && SlotsHoldOutcomes(c, s) && Enabled(c, s, a) && Shape(c, Next(c, s, a))
    ensures SlotsHoldOutcomes(c, Next(c, s, a))
  {
  }

  lemma StepKeepsInv(c: Config, s: State, a: Action)
    requires Inv(c, s) && Enabled(c, s, a)
    ensures Inv(c, Next(c, s, a)) && Measure(c, Next(c, s, a)) == Measure(c, s) - 1
  {
    StepKeepsShape(c, s, a);
    StepKeepsSlots(c, s, a);
    if a != MainStep {
      StepKeepsSums(c, s, a, a.i);
    } else if s.main.Go? {
      StepKeepsSums(c, s, a, s.main.i);
    }
  }

  lemma {:induction false} RunKeepsInv(c: Config, run: seq<State>, k: nat)
    requires Run(c, run) && k < |run|
    ensures Inv(c, run[k]) && Measure(c, run[k]) == 6 * |c.jobs| + 1 - k
  {
    if k == 0 {
      InitInv(c);
    } else {
      RunKeepsInv(c, run, k - 1);
      assert Steps(c, run[k - 1], run[k - 1 + 1]);
      var a :| Enabled(c, run[k - 1], a) && run[k] == Next(c, run[k - 1], a);
      StepKeepsInv(c, run[k - 1], a);
    }
  }

  ghost predicate Stuck(c: Config, s: State) {
    forall a :: !Enabled(c, s, a)
  }

  // ----- what every schedule guarantees

  /** Jobs that are under way. */
  function Busy(s: State): nat {
    |set i | 0 <= i < |s.workers| && (s.workers[i] == Running || s.workers[i] == Recorded)|
  }

  lemma {:induction false} SumIsBusy(ws: seq<Worker>, n: nat)
    requires n <= |ws|
    ensures Sum(ws[..n], Slot) == |set i | 0 <= i < n && (ws[i] == Running || ws[i] == Recorded)|
  {
    if n > 0 {
      SumIsBusy(ws, n - 1);
      SumSnoc(ws[..n - 1], ws[n - 1], Slot);
      assert ws[..n] == ws[..n - 1] + [ws[n - 1]];
      var less := set i | 0 <= i < n - 1 && (ws[i] == Running || ws[i] == Recorded);
      assert (set i | 0 <= i < n && (ws[i] == Running || ws[i] == Recorded)) ==
             if Slot(ws[n - 1]) == 1 then less + {n - 1} else less;
    }
  }

  lemma {:induction false} SumSnoc(ws: seq<Worker>, w: Worker, weight: Worker -> nat)
    ensures Sum(ws + [w], weight) == Sum(ws, weight) + weight(w)
  {
    if ws == [] {
      assert [w][1..] == [];
    } else {
      assert (ws + [w])[1..] == ws[1..] + [w];
      SumSnoc(ws[1..], w, weight);
    }
  }

  /** At most `--parallel` jobs are under way at a time, and one if that is below one. */
  lemma BoundedParallelism(c: Config, run: seq<State>, k: nat)
    requires Run(c, run) && k < |run|
    ensures Busy(run[k]) <= if c.parallel < 1 then 1 else c.parallel
  {
    RunKeepsInv(c, run, k);
    SumIsBusy(run[k].workers, |run[k].workers|);
    assert run[k].workers[..|run[k].workers|] == run[k].workers;
  }

  /** The state once the first `k` jobs are under way and nothing else has happened. */
  function Filled(c: Config, k: nat): State
    requires k <= |c.jobs|
  {
    var n := |c.jobs|;
    State(if k < n then Add(k) else Waiting, k, k, seq(n, i => if i < k then Running else Unborn), seq(n, _ => None),
          seq(n, _ => 0))
  }

  lemma FillsNext(c: Config, k: nat) returns (s1: State, s2: State)
    requires 0 < k <= |c.jobs| && k <= if c.parallel < 1 then 1 else c.parallel
    ensures Steps(c, Filled(c, k - 1), s1) && Steps(c, s1, s2) && Steps(c, s2, Filled(c, k))
  {
    s1 := Next(c, Filled(c, k - 1), MainStep);
    s2 := Next(c, s1, MainStep);
    assert Next(c, s2, MainStep).workers == Filled(c, k).workers;
    assert Next(c, s2, MainStep) == Filled(c, k);
  }

  /** The bound is reached: some schedule has as many jobs under way at once as it allows and there are. */
  lemma {:induction false} SlotsAreUsed(c: Config, k: nat) returns (run: seq<State>)
    requires k <= |c.jobs| && k <= if c.parallel < 1 then 1 else c.parallel
    ensures Run(c, run) && run[|run| - 1] == Filled(c, k) && Busy(run[|run| - 1]) == k
  {
    if k == 0 {
      run := [Filled(c, 0)];
    } else {
      var before := SlotsAreUsed(c, k - 1);
      var s1, s2 := FillsNext(c, k);
      RunExtends(c, before, s1, s2, Filled(c, k));
      run := before + [s1, s2, Filled(c, k)];
    }
    RunKeepsInv(c, run, |run| - 1);
    var ws := Filled(c, k).workers;
    SumIsBusy(ws, |ws|);
    assert ws[..|ws|] == ws;
  }

  lemma RunExtends(c: Config, before: seq<State>, s1: State, s2: State, s3: State)
    requires Run(c, before) && Steps(c, before[|before| - 1], s1) && Steps(c, s1, s2) && Steps(c, s2, s3)
    ensures Run(c, before + [s1, s2, s3])
  {
    var run := before + [s1, s2, s3];
    forall i | 0 <= i < |run| - 1 ensures Steps(c, run[i], run[i + 1]) {
      if i < |before| - 1 { assert Steps(c, before[i], before[i + 1]); }
    }
  }

  /** No deadlock: until `Wait` has returned some operation can go ahead. */
  lemma Progress(c: Config, s: State)
    requires Inv(c, s)
    ensures Stuck(c, s) <==> s.main.Returned?
  {
    if s.main.Returned? {
      forall a ensures !Enabled(c, s, a) {
        if a != MainStep && a.i < |s.workers| { SumBound(s.workers, a.i, Awaited); }
      }
    } else if (s.main.Acquire? && s.sem == c.Slots()) || (s.main.Waiting? && s.wg > 0) {
      var i := SumPositive(s.workers, if s.main.Acquire? then Slot else Awaited);
      SumBound(s.workers, i, Slot);
      SumBound(s.workers, i, Awaited);
      assert Enabled(c, s, match s.workers[i] case Running => Record(i) case Recorded => Free(i) case _ => Done(i));
    } else {
      assert Enabled(c, s, MainStep);
    }
  }

  /** Every run that can go no further has taken six operations a job and one to return, and its slice
      is the list of outcomes in job order, each slot written once: the schedule leaves no trace. */
  lemma EverySchedule(c: Config, run: seq<State>)
    requires Run(c, run)
    requires Stuck(c, run[|run| - 1])
    ensures |run| == 6 * |c.jobs| + 2
    ensures var s := run[|run| - 1];
            && s.main.Returned?
            && |s.results| == |c.jobs|
            && (forall i :: 0 <= i < |c.jobs| ==>
                  s.results[i] == Some(if c.jobs[i].backupType in c.registry then c.backup(i) else NoExecutor))
            && s.writes == seq(|c.jobs|, _ => 1)
            && s.sem == 0
  {
    var s := run[|run| - 1];
    RunKeepsInv(c, run, |run| - 1);
    Progress(c, s);
    forall i | 0 <= i < |c.jobs| ensures s.workers[i] == Gone { SumBound(s.workers, i, Awaited); }
    SumConstant(s.workers, Gone, StepsLeft);
    SumConstant(s.workers, Gone, Slot);
  }

  /** No run is longer, so every run reaches that end. */
  lemma Termination(c: Config, run: seq<State>)
    requires Run(c, run)
    ensures |run| <= 6 * |c.jobs| + 2
  {
    RunKeepsInv(c, run, |run| - 1);
  }
}
