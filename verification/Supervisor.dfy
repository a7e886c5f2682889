/**
 The sidecar supervisor against shutdown, as an interleaving of single steps: the
 supervisor polls, respawns and installs; shutdown sets a flag and terminates what is
 installed; any process may crash at any time.
 */
module Supervisor {
  import opened Results

  type Pid = nat

  datatype Party = Supervise | Shutdown

  /** Where the supervisor stands. A pid is that of a process it has spawned and not yet installed. */
  datatype Stage =
    | Sleeping
    | Awake
    | ReadyToPoll
    | Polling
    | SawExit
    | Spawning(attempt: nat)
    | Waiting(attempt: nat, child: Pid)
    | Healthy(child: Pid)
    | Rechecking(child: Pid)
    | Installing(child: Pid)
    | Discarding(child: Pid)
    | Returned

  /** Where shutdown stands. */
  datatype Closing = NotAsked | FlagSet | Terminating | Closed

  /** `alive` says of every process that was ever spawned whether it lives. */
  datatype State = State(
    alive: map<Pid, bool>,
    installed: Pid,
    stop: bool,
    lock: Option<Party>,
    stage: Stage,
    closing: Closing)

  datatype Step =
    | Wake
    | CheckStop
    | LockToPoll
    | Poll(readable: bool)
    | CheckStopAgain
    | Spawn(pid: Pid, works: bool)
    | Health(healthy: bool)
    | LockToInstall
    | Recheck
    | Install
    | Discard
    | SetFlag
    | LockToTerminate
    | Terminate
    | Crash(pid: Pid)

  predicate Enabled(s: State, step: Step) {
    match step
    case Wake => s.stage.Sleeping?
    case CheckStop => s.stage.Awake?
    case LockToPoll => s.stage.ReadyToPoll? && s.lock.None?
    case Poll(_) => s.stage.Polling?
    case CheckStopAgain => s.stage.SawExit?
    case Spawn(pid, _) => s.stage.Spawning? && pid !in s.alive
    case Health(_) => s.stage.Waiting?
    case LockToInstall => s.stage.Healthy? && s.lock.None?
    case Recheck => s.stage.Rechecking?
    case Install => s.stage.Installing?
    case Discard => s.stage.Discarding?
    case SetFlag => s.closing.NotAsked?
    case LockToTerminate => s.closing.FlagSet? && s.lock.None?
    case Terminate => s.closing.Terminating?
    case Crash(pid) => Lives(s, pid)
  }

  predicate Lives(s: State, pid: Pid) {
    pid in s.alive && s.alive[pid]
  }

  function Killed(s: State, pid: Pid): State {
    s.(alive := s.alive[pid := false])
  }

  /** After a failed attempt comes the next one, or the next poll. */
  function Retried(attempt: nat, maxAttempts: nat): Stage {
    if attempt < maxAttempts then Spawning(attempt + 1) else Sleeping
  }

  function Next(s: State, step: Step, maxAttempts: nat): State
    requires Enabled(s, step)
  {
    match step
    case Wake => s.(stage := Awake)
    case CheckStop => s.(stage := if s.stop then Returned else ReadyToPoll)
    case LockToPoll => s.(stage := Polling, lock := Some(Supervise))
    case Poll(readable) =>
      s.(stage := if readable && !Lives(s, s.installed) then SawExit else Sleeping, lock := None)
    case CheckStopAgain => s.(stage := if s.stop then Returned else Spawning(1))
    case Spawn(pid, works) =>
      if works then s.(alive := s.alive[pid := true], stage := Waiting(s.stage.attempt, pid))
      else s.(stage := Retried(s.stage.attempt, maxAttempts))
    case Health(healthy) =>
      if healthy then s.(stage := Healthy(s.stage.child))
      else Killed(s, s.stage.child).(stage := Retried(s.stage.attempt, maxAttempts))
    case LockToInstall => s.(stage := Rechecking(s.stage.child), lock := Some(Supervise))
    case Recheck =>
      if s.stop then s.(stage := Discarding(s.stage.child), lock := None)
      else s.(stage := Installing(s.stage.child))
    case Install => s.(installed := s.stage.child, stage := Sleeping, lock := None)
    case Discard => Killed(s, s.stage.child).(stage := Returned)
    case SetFlag => s.(stop := true, closing := FlagSet)
    case LockToTerminate => s.(closing := Terminating, lock := Some(Shutdown))
    case Terminate => Killed(s, s.installed).(closing := Closed, lock := None)
    case Crash(pid) => Killed(s, pid)
  }

  /** A healthy child is installed, and shutdown has not been asked for. */
  predicate Initial(s: State) {
    && s.alive == map[s.installed := true]
    && !s.stop && s.lock.None? && s.stage.Sleeping? && s.closing.NotAsked?
  }

  ghost predicate Run(first: State, steps: seq<Step>, maxAttempts: nat, s: State)
    decreases |steps|
  {
    if steps == [] then s == first
    else Enabled(first, steps[0]) && Run(Next(first, steps[0], maxAttempts), steps[1..], maxAttempts, s)
  }

  // ----- What every step keeps -----

  /** The process that is spawned but not installed. */
  function InFlight(stage: Stage): Option<Pid> {
    match stage
    case Waiting(_, child) => Some(child)
    case Healthy(child) => Some(child)
    case Rechecking(child) => Some(child)
    case Installing(child) => Some(child)
    case Discarding(child) => Some(child)
    case _ => None
  }

  /** The supervisor has seen the installed child exit and has not replaced it. */
  predicate Replacing(stage: Stage) {
    InFlight(stage).Some? || stage.SawExit? || stage.Spawning?
  }

  predicate Inside(stage: Stage) {
    stage.Polling? || stage.Rechecking? || stage.Installing?
  }

  /** No process lives but the installed one and the one in flight. */
  ghost predicate Accounted(s: State) {
    && s.installed in s.alive
    && (forall pid | Lives(s, pid) :: pid == s.installed || InFlight(s.stage) == Some(pid))
    && (InFlight(s.stage).Some? ==> InFlight(s.stage).value in s.alive && InFlight(s.stage).value != s.installed)
    && (Replacing(s.stage) ==> !Lives(s, s.installed))
  }

  /** The lock is held by who is inside, and shutdown has set the flag before. */
  predicate Locked(s: State) {
    && (s.lock == Some(Supervise) <==> Inside(s.stage))
    && (s.lock == Some(Shutdown) <==> s.closing.Terminating?)
    && (s.stop <==> !s.closing.NotAsked?)
    && (s.stage.Discarding? || s.stage.Returned? ==> s.stop)
  }

  /** Once shutdown is done, the installed child is dead and none will be installed. */
  predicate Sealed(s: State) {
    s.closing.Closed? ==> !Lives(s, s.installed) && !s.stage.Installing?
  }

  ghost predicate Kept(s: State) {
    Accounted(s) && Locked(s) && Sealed(s)
  }

  lemma StepLocked(s: State, step: Step, maxAttempts: nat)
    requires Locked(s) && Enabled(s, step)
    ensures Locked(Next(s, step, maxAttempts))
  {
  }

  lemma StepSealed(s: State, step: Step, maxAttempts: nat)
    requires Kept(s) && Enabled(s, step)
    ensures Sealed(Next(s, step, maxAttempts))
  {
  }

  lemma StepAccounted(s: State, step: Step, maxAttempts: nat)
    requires Accounted(s) && Enabled(s, step)
    ensures Accounted(Next(s, step, maxAttempts))
  {
    var s' := Next(s, step, maxAttempts);
    forall pid | Lives(s', pid) ensures pid == s'.installed || InFlight(s'.stage) == Some(pid) {
      assert Lives(s, pid) || (step.Spawn? && step.pid == pid);
    }
  }

  lemma {:induction false} RunKeeps(first: State, steps: seq<Step>, maxAttempts: nat, s: State)
    requires Kept(first) && Run(first, steps, maxAttempts, s)
    ensures Kept(s)
    decreases |steps|
  {
    if steps != [] {
      StepLocked(first, steps[0], maxAttempts);
      StepSealed(first, steps[0], maxAttempts);
      StepAccounted(first, steps[0], maxAttempts);
      RunKeeps(Next(first, steps[0], maxAttempts), steps[1..], maxAttempts, s);
    }
  }

  /** At every moment at most one process lives: the installed one, or the one in flight to replace it. */
  lemma OneChild(first: State, steps: seq<Step>, maxAttempts: nat, s: State, a: Pid, b: Pid)
    requires Initial(first) && Run(first, steps, maxAttempts, s)
    requires Lives(s, a) && Lives(s, b)
    ensures a == b && (a == s.installed || InFlight(s.stage) == Some(a))
  {
    RunKeeps(first, steps, maxAttempts, s);
  }

  /** When shutdown and the supervisor are both done, every process ever spawned is dead. */
  lemma NoOrphan(first: State, steps: seq<Step>, maxAttempts: nat, s: State)
    requires Initial(first) && Run(first, steps, maxAttempts, s)
    requires s.closing.Closed? && s.stage.Returned?
    ensures forall pid <- s.alive :: !s.alive[pid]
  {
    RunKeeps(first, steps, maxAttempts, s);
    forall pid <- s.alive ensures !s.alive[pid] {
      assert !Lives(s, pid);
    }
  }

  // ----- Both come to an end -----

  predicate OfSupervisor(step: Step) {
    !step.SetFlag? && !step.LockToTerminate? && !step.Terminate? && !step.Crash?
  }

  /** How many steps the supervisor still takes when the flag is set, at most. */
  function StepsLeft(stage: Stage, maxAttempts: nat): int {
    match stage
    case Returned => 0
    case Awake => 1
    case SawExit => 1
    case Discarding(_) => 1
    case Sleeping => 2
    case Polling => 3
    case Installing(_) => 3
    case ReadyToPoll => 4
    case Rechecking(_) => 4
    case Healthy(_) => 5
    case Waiting(attempt, _) => 6 + if attempt < maxAttempts then 2 * (maxAttempts - attempt) else 0
    case Spawning(attempt) => 7 + if attempt < maxAttempts then 2 * (maxAttempts - attempt) else 0
  }

  /** Once the flag is set, each step of the supervisor brings it nearer to its return. */
  lemma FlagStopsSupervisor(s: State, step: Step, maxAttempts: nat)
    requires Enabled(s, step) && s.stop && OfSupervisor(step)
    ensures 0 <= StepsLeft(Next(s, step, maxAttempts).stage, maxAttempts) < StepsLeft(s.stage, maxAttempts)
    ensures Next(s, step, maxAttempts).stop
  {
  }

  function SupervisorSteps(steps: seq<Step>): nat {
    if steps == [] then 0 else (if OfSupervisor(steps[0]) then 1 else 0) + SupervisorSteps(steps[1..])
  }

  lemma {:induction false} SupervisorReturns(first: State, steps: seq<Step>, maxAttempts: nat, s: State)
    requires Run(first, steps, maxAttempts, s) && first.stop
    ensures SupervisorSteps(steps) + StepsLeft(s.stage, maxAttempts) <= StepsLeft(first.stage, maxAttempts)
    ensures StepsLeft(s.stage, maxAttempts) >= 0
    ensures StepsLeft(first.stage, maxAttempts) <= 2 * maxAttempts + 7
    decreases |steps|
  {
    if steps != [] {
      if OfSupervisor(steps[0]) {
        FlagStopsSupervisor(first, steps[0], maxAttempts);
      }
      SupervisorReturns(Next(first, steps[0], maxAttempts), steps[1..], maxAttempts, s);
    }
  }

  /** The two never wait for each other forever: as long as one is not done, one can move. */
  lemma NeverStuck(first: State, steps: seq<Step>, maxAttempts: nat, s: State) returns (step: Step)
    requires Initial(first) && Run(first, steps, maxAttempts, s)
    requires !s.stage.Returned? || !s.closing.Closed?
    ensures Enabled(s, step) && !step.Crash?
  {
    RunKeeps(first, steps, maxAttempts, s);
    assert s.lock.None? || s.lock.value.Supervise? || s.lock.value.Shutdown?;
    if s.closing.NotAsked? {
      step := SetFlag;
    } else if s.closing.Terminating? {
      step := Terminate;
    } else if s.closing.FlagSet? && s.lock.None? {
      step := LockToTerminate;
    } else {
      step := SupervisorMove(s);
    }
  }

  lemma SupervisorMove(s: State) returns (step: Step)
    requires Locked(s) && !s.stage.Returned?
    requires s.lock.None? || s.lock == Some(Supervise)
    ensures Enabled(s, step) && OfSupervisor(step)
  {
    match s.stage
    case Sleeping => step := Wake;
    case Awake => step := CheckStop;
    case ReadyToPoll => step := LockToPoll;
    case Polling => step := Poll(true);
    case SawExit => step := CheckStopAgain;
    case Spawning(_) =>
      var pid := Unused(s.alive.Keys);
      step := Spawn(pid, true);
    case Waiting(_, _) => step := Health(true);
    case Healthy(_) => step := LockToInstall;
    case Rechecking(_) => step := Recheck;
    case Installing(_) => step := Install;
    case Discarding(_) => step := Discard;
  }

  lemma Unused(pids: set<Pid>) returns (pid: Pid)
    ensures pid !in pids
  {
    pid := 0;
    var rest := pids;
    while rest != {}
      invariant rest <= pids && forall p | p in pids && p !in rest :: p < pid
      decreases |rest|
    {
      var p :| p in rest;
      rest := rest - {p};
      if p >= pid {
        pid := p + 1;
      }
    }
  }
}
