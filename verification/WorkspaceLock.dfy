/**
 The workspace lock of workspace/lock.go as a state machine: one action per file operation, any
 number of processes, a clock, and crashes at every point. Instants are in nanoseconds.
 */
module WorkspaceLock {
  import opened Text

  const STALE_LOCK_AGE: nat := 24 * 3600 * 1_000_000_000

  type Process = nat

  /** `creator` tells two files at the same path apart; a run never reads it. */
  datatype LockFile = LockFile(creator: Process, pid: Option<Process>, mtime: nat)

  datatype Pc =
    | Idle                                  // before the first exclusive create
    | Checking                              // the create found a file, Stat is next
    | Reading(seen: nat, since: nat)        // Stat saw a file of mtime `seen` at instant `since`
    | Aging(seen: nat, since: nat)          // no live process named in the file, age check is next
    | Removing(seen: nat, since: nat)       // old enough, Remove is next
    | Retrying                              // before the second exclusive create
    | Writing(since: nat)                   // created the file at `since`, PID not yet written
    | Holding(since: nat)                   // Lock has returned
    | Released
    | Refused                               // Lock returned an error
    | Crashed

  /** `staleAge` is `staleLockAge`. With `probe` the liveness check recognises every live process, as
      on Unix; without it the check may miss live processes, as on Windows. */
  datatype Config = Config(staleAge: nat, probe: bool)

  datatype State = State(clock: nat, file: Option<LockFile>, procs: seq<Pc>)

  datatype Action =
    | Tick(d: nat)
    | Open(p: Process)                  // O_CREATE|O_EXCL, first or second
    | Stat(p: Process)
    | ReadPid(p: Process, alive: bool)  // read the file and probe the PID found in it
    | CheckAge(p: Process)
    | Remove(p: Process)
    | WritePid(p: Process, ok: bool)    // a failed write is ignored
    | Unlock(p: Process, ok: bool)      // a failed remove is ignored
    | IoError(p: Process)               // any other error before the lock is held
    | Crash(p: Process)

  predicate Holds(pc: Pc) {
    pc.Writing? || pc.Holding?
  }

  predicate Stealing(pc: Pc) {
    pc.Reading? || pc.Aging? || pc.Removing?
  }

  predicate Live(pc: Pc) {
    !pc.Released? && !pc.Refused? && !pc.Crashed?
  }

  /** What the probe of the recorded PID may say; a dead process's PID may be in use again. */
  predicate MayAnswer(c: Config, s: State, alive: bool) {
    c.probe && s.file.Some? && s.file.value.pid.Some? ==>
      var q := s.file.value.pid.value; q < |s.procs| && Live(s.procs[q]) ==> alive
  }

  predicate Enabled(c: Config, s: State, a: Action) {
    match a
    case Tick(_) => true
    case Open(p) => p < |s.procs| && (s.procs[p].Idle? || s.procs[p].Retrying?)
    case Stat(p) => p < |s.procs| && s.procs[p].Checking?
    case ReadPid(p, alive) => p < |s.procs| && s.procs[p].Reading? && MayAnswer(c, s, alive)
    case CheckAge(p) => p < |s.procs| && s.procs[p].Aging?
    case Remove(p) => p < |s.procs| && s.procs[p].Removing?
    case WritePid(p, _) => p < |s.procs| && s.procs[p].Writing?
    case Unlock(p, _) => p < |s.procs| && s.procs[p].Holding?
    case IoError(p) =>
      && p < |s.procs|
      && (s.procs[p].Idle? || s.procs[p].Checking? || s.procs[p].Removing? || s.procs[p].Retrying?)
    case Crash(p) => p < |s.procs| && Live(s.procs[p])
  }

  function Next(c: Config, s: State, a: Action): State
    requires Enabled(c, s, a)
  {
    match a
    case Tick(d) => s.(clock := s.clock + d)
    case Open(p) =>
      if s.file.None? then
        s.(file := Some(LockFile(p, None, s.clock)), procs := s.procs[p := Writing(s.clock)])
      else s.(procs := s.procs[p := if s.procs[p].Idle? then Checking else Refused])
    case Stat(p) =>
      s.(procs := s.procs[p := if s.file.None? then Retrying else Reading(s.file.value.mtime, s.clock)])
    case ReadPid(p, alive) =>
      if s.file.Some? && s.file.value.pid.Some? && alive then s.(procs := s.procs[p := Refused])
      else s.(procs := s.procs[p := Aging(s.procs[p].seen, s.procs[p].since)])
    case CheckAge(p) =>
      if s.clock - s.procs[p].seen < c.staleAge then s.(procs := s.procs[p := Refused])
      else s.(procs := s.procs[p := Removing(s.procs[p].seen, s.procs[p].since)])
    case Remove(p) =>
      if s.file.None? then s.(procs := s.procs[p := Refused])
      else s.(file := None, procs := s.procs[p := Retrying])
    case WritePid(p, ok) =>
      var s' := s.(procs := s.procs[p := Holding(s.procs[p].since)]);
      if ok && s.file.Some? && s.file.value.creator == p
      then s'.(file := Some(LockFile(p, Some(p), s.clock))) else s'
    case Unlock(p, ok) =>
      s.(file := if ok then None else s.file, procs := s.procs[p := Released])
    case IoError(p) => s.(procs := s.procs[p := Refused])
    case Crash(p) => s.(procs := s.procs[p := Crashed])
  }

  /** Every process is yet to call Lock or already dead; a lock file is a dead one's, with any content. */
  predicate Initial(s: State) {
    && (forall p: Process :: p < |s.procs| ==> s.procs[p].Idle? || s.procs[p].Crashed?)
    && (s.file.Some? ==>
          var f := s.file.value;
          f.creator < |s.procs| && s.procs[f.creator].Crashed? && f.mtime <= s.clock)
  }

  ghost predicate Run(c: Config, run: seq<State>) {
    && |run| > 0
    && Initial(run[0])
    && forall i :: 0 <= i < |run| - 1 ==> Steps(c, run[i], run[i + 1])
  }

  ghost predicate Steps(c: Config, s: State, s': State) {
    exists a :: Enabled(c, s, a) && s' == Next(c, s, a)
  }

  /** No process holds the lock longer than `hold` or takes longer than `window` from Stat to Remove. */
  predicate Timely(s: State, hold: nat, window: nat) {
    forall p: Process :: p < |s.procs| ==>
      && (Holds(s.procs[p]) ==> s.clock <= s.procs[p].since + hold)
      && (Stealing(s.procs[p]) ==> s.clock <= s.procs[p].since + window)
  }

  predicate OneStealer(s: State) {
    forall p: Process, q: Process ::
      p < |s.procs| && q < |s.procs| && Stealing(s.procs[p]) && Stealing(s.procs[q]) ==> p == q
  }

  predicate MutualExclusion(s: State) {
    forall p: Process, q: Process :: p < |s.procs| && q < |s.procs| && Holds(s.procs[p]) && Holds(s.procs[q]) ==> p == q
  }

  // ----- the invariant

  predicate HolderOwnsFile(s: State) {
    forall p: Process :: p < |s.procs| && Holds(s.procs[p]) ==>
      && s.file.Some?
      && s.file.value.creator == p
      && s.procs[p].since <= s.file.value.mtime
  }

  predicate FileHasCreator(s: State) {
    s.file.Some? ==>
      var f := s.file.value;
      && f.creator < |s.procs|
      && f.mtime <= s.clock
      && (var pc := s.procs[f.creator]; Holds(pc) || pc.Released? || pc.Crashed?)
  }

  predicate Abandoned(s: State) {
    s.file.Some? && s.file.value.creator < |s.procs| &&
    (var pc := s.procs[s.file.value.creator]; pc.Released? || pc.Crashed?)
  }

  /** What a stealer looked at is either a dead process's file, which is still there, or too young to
      pass the age check inside the window. */
  predicate StealIsSound(s: State, hold: nat) {
    forall p: Process :: p < |s.procs| && Stealing(s.procs[p]) ==>
      Abandoned(s) || (!s.procs[p].Removing? && s.procs[p].since <= s.procs[p].seen + hold)
  }

  predicate Inv(s: State, hold: nat) {
    HolderOwnsFile(s) && FileHasCreator(s) && StealIsSound(s, hold)
  }

  lemma StepKeepsOwner(c: Config, s: State, a: Action, hold: nat, window: nat)
    requires hold + window < c.staleAge
    requires Inv(s, hold) && Enabled(c, s, a)
    requires Timely(s, hold, window)
    ensures HolderOwnsFile(Next(c, s, a)) && FileHasCreator(Next(c, s, a))
  {
  }

  lemma StepKeepsSteal(c: Config, s: State, a: Action, hold: nat, window: nat)
    requires hold + window < c.staleAge
    requires Inv(s, hold) && Enabled(c, s, a)
    requires Timely(s, hold, window) && OneStealer(s)
    ensures StealIsSound(Next(c, s, a), hold)
  {
    var s' := Next(c, s, a);
    match a
    case Stat(p) =>
      if s.file.Some? && !Abandoned(s) { assert Holds(s.procs[s.file.value.creator]); }
    case CheckAge(p) =>
      if s'.procs[p].Removing? { assert s.clock <= s.procs[p].since + window; }
    case Unlock(p, ok) =>
      assert !Abandoned(s);
    case WritePid(p, ok) =>
      assert !Abandoned(s);
    case _ =>
  }

  lemma {:induction false} RunKeepsInv(c: Config, run: seq<State>, i: nat, hold: nat, window: nat)
    requires hold + window < c.staleAge
    requires Run(c, run) && i < |run|
    requires Obeys(run, hold, window, true)
    ensures Inv(run[i], hold)
  {
    if i > 0 {
      RunKeepsInv(c, run, i - 1, hold, window);
      assert Steps(c, run[i - 1], run[i - 1 + 1]);
      var a :| Enabled(c, run[i - 1], a) && run[i] == Next(c, run[i - 1], a);
      StepKeepsOwner(c, run[i - 1], a, hold, window);
      StepKeepsSteal(c, run[i - 1], a, hold, window);
    }
  }

  /** The run is timely and, with `single`, has one contender in the steal window at a time. */
  ghost predicate Obeys(run: seq<State>, hold: nat, window: nat, single: bool) {
    forall j :: 0 <= j < |run| ==> Timely(run[j], hold, window) && (single ==> OneStealer(run[j]))
  }

  /** Mutual exclusion over every run that respects the two hypotheses. */
  ghost predicate SafeFor(c: Config, hold: nat, window: nat) {
    forall run, i ::
      Run(c, run) && Obeys(run, hold, window, true) && 0 <= i < |run| ==> MutualExclusion(run[i])
  }

  lemma TimedMutualExclusion(c: Config, hold: nat, window: nat)
    requires hold + window < c.staleAge
    ensures SafeFor(c, hold, window)
  {
    forall run, i | Run(c, run) && Obeys(run, hold, window, true) && 0 <= i < |run|
      ensures MutualExclusion(run[i])
    {
      RunKeepsInv(c, run, i, hold, window);
    }
  }

  /** One call of Lock with no other process moving. */
  function Alone(c: Config, s: State, p: Process, alive: bool): State
    requires p < |s.procs| && s.procs[p].Idle? && MayAnswer(c, s, alive)
  {
    var s1 := Next(c, s, Open(p));
    if !s1.procs[p].Checking? then s1 else
    var s2 := Next(c, s1, Stat(p));
    var s3 := Next(c, s2, ReadPid(p, alive));
    if s3.procs[p].Refused? then s3 else
    var s4 := Next(c, s3, CheckAge(p));
    if s4.procs[p].Refused? then s4 else
    Next(c, Next(c, s4, Remove(p)), Open(p))
  }

  /** A lone contender gets the lock exactly when there is no file, or one that is old enough and names
      no process that answers the probe; otherwise the file stays as it was. */
  lemma LoneContender(c: Config, s: State, p: Process, alive: bool)
    requires p < |s.procs| && s.procs[p].Idle? && MayAnswer(c, s, alive)
    requires s.file.Some? ==> s.file.value.mtime <= s.clock
    ensures var s' := Alone(c, s, p, alive);
            var free := s.file.None? ||
                        (s.clock - s.file.value.mtime >= c.staleAge && !(s.file.value.pid.Some? && alive));
            && (Holds(s'.procs[p]) <==> free)
            && (!free ==> s'.procs[p].Refused? && s'.file == s.file)
  {
    if s.file.Some? {
      var s1 := Next(c, s, Open(p));
      var s2 := Next(c, s1, Stat(p));
      assert s2.procs[p] == Reading(s.file.value.mtime, s.clock);
    }
  }

  /** A process that takes a free lock and lives on keeps it from any single later contender, however old the file
      is by then, if the probe works: the file names it. */
  lemma LiveHolderKeepsLock(c: Config, s: State, p: Process, q: Process, d: nat, alive: bool)
    requires c.probe && s.file == None && p < |s.procs| && q < |s.procs| && p != q
    requires s.procs[p].Idle? && s.procs[q].Idle?
    ensures var held := Next(c, Next(c, s, Open(p)), WritePid(p, true));
            var later := Next(c, held, Tick(d));
            && held.procs[p].Holding? && held.file == Some(LockFile(p, Some(p), s.clock))
            && (MayAnswer(c, later, alive) ==>
                  var after := Alone(c, later, q, alive);
                  after.procs[q].Refused? && after.procs[p].Holding? && after.file == held.file)
  {
    var later := Next(c, Next(c, Next(c, s, Open(p)), WritePid(p, true)), Tick(d));
    if MayAnswer(c, later, alive) { LoneContender(c, later, q, alive); }
  }

  // ----- both hypotheses are needed

  function Three(a: Pc, b: Pc, d: Pc): seq<Pc> {
    [a, b, d]
  }

  /** Some timely run ends in `s`; with `single` it also has one stealer at a time. */
  ghost predicate Reachable(c: Config, hold: nat, window: nat, single: bool, s: State) {
    exists run: seq<State> :: Run(c, run) && Obeys(run, hold, window, single) && run[|run| - 1] == s
  }

  lemma Start(c: Config, hold: nat, window: nat, single: bool, s: State)
    requires Initial(s)
    ensures Reachable(c, hold, window, single, s)
  {
    assert Run(c, [s]) && Obeys([s], hold, window, single);
  }

  lemma Extend(c: Config, hold: nat, window: nat, single: bool, s: State, a: Action, s': State)
    requires Reachable(c, hold, window, single, s)
    requires Moves(c, hold, window, single, s, a, s')
    ensures Reachable(c, hold, window, single, s')
  {
    var run :| Run(c, run) && Obeys(run, hold, window, single) && run[|run| - 1] == s;
    var longer := run + [s'];
    assert Steps(c, s, s');
    forall i | 0 <= i < |longer| - 1 ensures Steps(c, longer[i], longer[i + 1]) {
      if i < |run| - 1 { assert Steps(c, run[i], run[i + 1]); }
    }
    assert Obeys(longer, hold, window, single);
  }

  ghost predicate Moves(c: Config, hold: nat, window: nat, single: bool, s: State, a: Action, s': State) {
    && Enabled(c, s, a)
    && s' == Next(c, s, a)
    && Timely(s', hold, window)
    && (single ==> OneStealer(s'))
  }

  /** Process 1 sees the lock of process 0 just before it is released after the longest allowed time and
      finds no PID to probe, because the file is gone by then. It outlives the age limit inside its
      window and removes the lock process 2 has just taken. */
  function Late(hold: nat, t: nat, i: nat): (State, Action)
    requires hold <= t
  {
    var empty, full := Some(LockFile(0, None, 0)), Some(LockFile(0, Some(0), 0));
    match i
    case 0 => (State(0, None, Three(Idle, Idle, Idle)), Open(0))
    case 1 => (State(0, empty, Three(Writing(0), Idle, Idle)), WritePid(0, true))
    case 2 => (State(0, full, Three(Holding(0), Idle, Idle)), Tick(hold))
    case 3 => (State(hold, full, Three(Holding(0), Idle, Idle)), Open(1))
    case 4 => (State(hold, full, Three(Holding(0), Checking, Idle)), Stat(1))
    case 5 => (State(hold, full, Three(Holding(0), Reading(0, hold), Idle)), Unlock(0, true))
    case 6 => (State(hold, None, Three(Released, Reading(0, hold), Idle)), ReadPid(1, false))
    case 7 => (State(hold, None, Three(Released, Aging(0, hold), Idle)), Tick(t - hold))
    case 8 => (State(t, None, Three(Released, Aging(0, hold), Idle)), CheckAge(1))
    case 9 => (State(t, None, Three(Released, Removing(0, hold), Idle)), Open(2))
    case 10 => (State(t, Some(LockFile(2, None, t)), Three(Released, Removing(0, hold), Writing(t))), Remove(1))
    case 11 => (State(t, None, Three(Released, Retrying, Writing(t))), Open(1))
    case _ => (State(t, Some(LockFile(1, None, t)), Three(Released, Writing(t), Writing(t))), Tick(0))
  }

  lemma {:induction false} LateIsReachable(c: Config, hold: nat, window: nat, t: nat, i: nat)
    requires hold <= t <= hold + window && t >= c.staleAge
    requires i <= 12
    ensures Reachable(c, hold, window, true, Late(hold, t, i).0)
  {
    if i == 0 {
      Start(c, hold, window, true, Late(hold, t, 0).0);
    } else {
      LateIsReachable(c, hold, window, t, i - 1);
      var (s, a) := Late(hold, t, i - 1);
      LateMoves(c, hold, window, t, i - 1);
      Extend(c, hold, window, true, s, a, Late(hold, t, i).0);
    }
  }

  lemma LateMoves(c: Config, hold: nat, window: nat, t: nat, i: nat)
    requires hold <= t <= hold + window && t >= c.staleAge
    requires i < 12
    ensures Moves(c, hold, window, true, Late(hold, t, i).0, Late(hold, t, i).1, Late(hold, t, i + 1).0)
  {
    if i < 6 { EarlyMoves(c, hold, window, t, i); } else { LastMoves(c, hold, window, t, i); }
  }

  lemma EarlyMoves(c: Config, hold: nat, window: nat, t: nat, i: nat)
    requires hold <= t <= hold + window && i < 6
    ensures Moves(c, hold, window, true, Late(hold, t, i).0, Late(hold, t, i).1, Late(hold, t, i + 1).0)
  {
    match i
    case 0 => case 1 => case 2 => case 3 => case 4 => case 5 =>
  }

  lemma LastMoves(c: Config, hold: nat, window: nat, t: nat, i: nat)
    requires hold <= t <= hold + window && t >= c.staleAge
    requires 6 <= i < 12
    ensures Moves(c, hold, window, true, Late(hold, t, i).0, Late(hold, t, i).1, Late(hold, t, i + 1).0)
  {
    match i
    case 6 => case 7 => case 8 => case 9 => case 10 => case 11 =>
  }

  lemma OverrunBreaksExclusion(c: Config, hold: nat, window: nat)
    requires hold + window >= c.staleAge
    ensures !SafeFor(c, hold, window)
  {
    var t := if hold < c.staleAge then c.staleAge else hold;
    LateIsReachable(c, hold, window, t, 12);
    var s := Late(hold, t, 12).0;
    var run :| Run(c, run) && Obeys(run, hold, window, true) && run[|run| - 1] == s;
    assert Holds(s.procs[1]) && Holds(s.procs[2]);
    assert !MutualExclusion(run[|run| - 1]);
  }

  /** With the file operations as they are, the lock is safe on exactly these time bounds, whether or
      not the liveness probe works. */
  lemma ExactTimeBound(c: Config, hold: nat, window: nat)
    ensures SafeFor(c, hold, window) <==> hold + window < c.staleAge
  {
    if hold + window < c.staleAge {
      TimedMutualExclusion(c, hold, window);
    } else {
      OverrunBreaksExclusion(c, hold, window);
    }
  }

  lemma StaleAgeOfADay(probe: bool, hold: nat, window: nat)
    ensures SafeFor(Config(STALE_LOCK_AGE, probe), hold, window) <==> hold + window < 86_400_000_000_000
  {
    ExactTimeBound(Config(STALE_LOCK_AGE, probe), hold, window);
  }

  /** Two contenders find the same dead process's file old enough; the second then removes the first
      one's fresh lock. No time has to pass at all. */
  function Double(n: nat, i: nat): (State, Action) {
    var f := Some(LockFile(0, Some(0), 0));
    match i
    case 0 => (State(n, f, Three(Crashed, Idle, Idle)), Open(1))
    case 1 => (State(n, f, Three(Crashed, Checking, Idle)), Open(2))
    case 2 => (State(n, f, Three(Crashed, Checking, Checking)), Stat(1))
    case 3 => (State(n, f, Three(Crashed, Reading(0, n), Checking)), Stat(2))
    case 4 => (State(n, f, Three(Crashed, Reading(0, n), Reading(0, n))), ReadPid(1, false))
    case 5 => (State(n, f, Three(Crashed, Aging(0, n), Reading(0, n))), ReadPid(2, false))
    case 6 => (State(n, f, Three(Crashed, Aging(0, n), Aging(0, n))), CheckAge(1))
    case 7 => (State(n, f, Three(Crashed, Removing(0, n), Aging(0, n))), CheckAge(2))
    case 8 => (State(n, f, Three(Crashed, Removing(0, n), Removing(0, n))), Remove(1))
    case 9 => (State(n, None, Three(Crashed, Retrying, Removing(0, n))), Open(1))
    case 10 => (State(n, Some(LockFile(1, None, n)), Three(Crashed, Writing(n), Removing(0, n))), Remove(2))
    case 11 => (State(n, None, Three(Crashed, Writing(n), Retrying)), Open(2))
    case _ => (State(n, Some(LockFile(2, None, n)), Three(Crashed, Writing(n), Writing(n))), Tick(0))
  }

  lemma {:induction false} DoubleIsReachable(c: Config, i: nat)
    requires i <= 12
    ensures Reachable(c, 0, 0, false, Double(c.staleAge, i).0)
  {
    if i == 0 {
      Start(c, 0, 0, false, Double(c.staleAge, 0).0);
    } else {
      DoubleIsReachable(c, i - 1);
      var (s, a) := Double(c.staleAge, i - 1);
      DoubleMoves(c, i - 1);
      Extend(c, 0, 0, false, s, a, Double(c.staleAge, i).0);
    }
  }

  lemma DoubleMoves(c: Config, i: nat)
    requires i < 12
    ensures Moves(c, 0, 0, false, Double(c.staleAge, i).0, Double(c.staleAge, i).1, Double(c.staleAge, i + 1).0)
  {
    if i < 6 { DoubleMovesEarly(c, i); } else { DoubleMovesLate(c, i); }
  }

  lemma DoubleMovesEarly(c: Config, i: nat)
    requires i < 6
    ensures Moves(c, 0, 0, false, Double(c.staleAge, i).0, Double(c.staleAge, i).1, Double(c.staleAge, i + 1).0)
  {
    match i
    case 0 => case 1 => case 2 => case 3 => case 4 => case 5 =>
  }

  lemma DoubleMovesLate(c: Config, i: nat)
    requires 6 <= i < 12
    ensures Moves(c, 0, 0, false, Double(c.staleAge, i).0, Double(c.staleAge, i).1, Double(c.staleAge, i + 1).0)
  {
    match i
    case 6 => case 7 => case 8 => case 9 => case 10 => case 11 =>
  }

  lemma TwoStealersBreakExclusion(c: Config)
    ensures exists s :: Reachable(c, 0, 0, false, s) && !MutualExclusion(s)
  {
    DoubleIsReachable(c, 12);
    var s := Double(c.staleAge, 12).0;
    assert Holds(s.procs[1]) && Holds(s.procs[2]);
  }
}
