/**
 Which process the supervisor has installed: over every run one that was reported healthy,
 never one that was not; and a new one whenever the old one is dead and nothing is in the way.
 */
module SupervisorRuns {
  import opened Results
  import opened Supervisor

  // ----- Runs, from both ends -----

  lemma {:induction false} RunBoth(a: State, xs: seq<Step>, b: State, ys: seq<Step>, c: State, max: nat)
    requires Run(a, xs, max, b) && Run(b, ys, max, c)
    ensures Run(a, xs + ys, max, c)
    decreases |xs|
  {
    if xs == [] {
      assert xs + ys == ys;
    } else {
      assert (xs + ys)[0] == xs[0] && (xs + ys)[1..] == xs[1..] + ys;
      RunBoth(Next(a, xs[0], max), xs[1..], b, ys, c, max);
    }
  }

  lemma RunOne(s: State, step: Step, max: nat)
    requires Enabled(s, step)
    ensures Run(s, [step], max, Next(s, step, max))
  {
    assert [step][1..] == [];
  }

  /** The last step of a run. */
  lemma {:induction false} LastStep(first: State, steps: seq<Step>, max: nat, s: State) returns (mid: State)
    requires Run(first, steps, max, s) && steps != []
    ensures var last := |steps| - 1;
            Run(first, steps[..last], max, mid) && Enabled(mid, steps[last]) && s == Next(mid, steps[last], max)
    decreases |steps|
  {
    var front := steps[..|steps| - 1];
    if |steps| == 1 {
      mid := first;
    } else {
      mid := LastStep(Next(first, steps[0], max), steps[1..], max, s);
      assert steps[1..][..|steps| - 2] == front[1..];
    }
  }

  // ----- Only what was reported healthy is installed -----

  /** At some moment of the run the health of this process, which was being waited for, was reported so. */
  ghost predicate Reported(first: State, steps: seq<Step>, max: nat, pid: Pid, healthy: bool) {
    exists k: nat, mid :: ReportedAt(first, steps, max, pid, healthy, k, mid)
  }

  ghost predicate ReportedAt(first: State, steps: seq<Step>, max: nat, pid: Pid, healthy: bool, k: nat, mid: State) {
    && k < |steps| && Run(first, steps[..k], max, mid)
    && steps[k] == Health(healthy) && mid.stage.Waiting? && mid.stage.child == pid
  }

  lemma ReportedMore(first: State, steps: seq<Step>, max: nat, pid: Pid, healthy: bool)
    requires steps != [] && Reported(first, steps[..|steps| - 1], max, pid, healthy)
    ensures Reported(first, steps, max, pid, healthy)
  {
    var front := steps[..|steps| - 1];
    var k: nat, mid :| ReportedAt(first, front, max, pid, healthy, k, mid);
    assert front[..k] == steps[..k];
    assert ReportedAt(first, steps, max, pid, healthy, k, mid);
  }

  /** The child that was reported healthy and is not installed yet. */
  function Approved(stage: Stage): Option<Pid> {
    match stage
    case Healthy(child) => Some(child)
    case Rechecking(child) => Some(child)
    case Installing(child) => Some(child)
    case Discarding(child) => Some(child)
    case _ => None
  }

  ghost predicate AllApproved(first: State, steps: seq<Step>, max: nat, s: State) {
    && (s.installed != first.installed ==> Reported(first, steps, max, s.installed, true))
    && (Approved(s.stage).Some? ==> Reported(first, steps, max, Approved(s.stage).value, true))
  }

  lemma {:induction false} RunApproves(first: State, steps: seq<Step>, max: nat, s: State)
    requires Initial(first) && Run(first, steps, max, s)
    ensures AllApproved(first, steps, max, s)
    decreases |steps|
  {
    if steps != [] {
      var last := |steps| - 1;
      var mid := LastStep(first, steps, max, s);
      RunApproves(first, steps[..last], max, mid);
      if steps[last] == Health(true) {
        assert ReportedAt(first, steps, max, mid.stage.child, true, last, mid);
      }
      if mid.installed != first.installed {
        ReportedMore(first, steps, max, mid.installed, true);
      }
      if Approved(mid.stage).Some? {
        ReportedMore(first, steps, max, Approved(mid.stage).value, true);
      }
    }
  }

  /** A process that has replaced the first one was reported healthy while it was waited for. */
  lemma InstalledWasHealthy(first: State, steps: seq<Step>, max: nat, s: State)
    requires Initial(first) && Run(first, steps, max, s)
    ensures s.installed != first.installed ==> Reported(first, steps, max, s.installed, true)
  {
    RunApproves(first, steps, max, s);
  }

  /** One that was not is dead from then on, and is neither installed nor in flight. */
  ghost predicate Rejected(s: State, pid: Pid) {
    pid in s.alive && !s.alive[pid] && s.installed != pid && InFlight(s.stage) != Some(pid)
  }

  lemma {:induction false} UnhealthyDies(first: State, steps: seq<Step>, max: nat, s: State, pid: Pid)
    requires Initial(first) && Run(first, steps, max, s) && Reported(first, steps, max, pid, false)
    ensures Rejected(s, pid)
    decreases |steps|
  {
    var last := |steps| - 1;
    var front := steps[..last];
    var mid := LastStep(first, steps, max, s);
    var k: nat, at :| ReportedAt(first, steps, max, pid, false, k, at);
    RunKeeps(first, front, max, mid);
    if k == last {
      OneEnd(first, front, max, mid, at);
      HealthRejects(mid, pid, max);
    } else {
      assert front[..k] == steps[..k];
      assert ReportedAt(first, front, max, pid, false, k, at);
      UnhealthyDies(first, front, max, mid, pid);
      StepRejects(mid, steps[last], max, pid);
    }
  }

  lemma HealthRejects(s: State, pid: Pid, max: nat)
    requires Kept(s) && s.stage.Waiting? && s.stage.child == pid
    ensures Rejected(Next(s, Health(false), max), pid)
  {
  }

  lemma StepRejects(s: State, step: Step, max: nat, pid: Pid)
    requires Enabled(s, step) && Rejected(s, pid)
    ensures Rejected(Next(s, step, max), pid)
  {
  }

  lemma {:induction false} OneEnd(first: State, steps: seq<Step>, max: nat, s: State, s': State)
    requires Run(first, steps, max, s) && Run(first, steps, max, s')
    ensures s == s'
    decreases |steps|
  {
    if steps != [] {
      OneEnd(Next(first, steps[0], max), steps[1..], max, s, s');
    }
  }

  // ----- What lives is left alone -----

  /** Neither crashes nor shutdown. */
  predicate Calm(steps: seq<Step>) {
    forall step <- steps :: !step.Crash? && !step.SetFlag?
  }

  /** While the first process lives and shutdown is not asked for, nothing is spawned or killed. */
  lemma {:induction false} LeftAlone(first: State, steps: seq<Step>, max: nat, s: State)
    requires Initial(first) && Run(first, steps, max, s) && Calm(steps)
    ensures s.installed == first.installed && s.alive == first.alive
    ensures !Replacing(s.stage) && !s.stop && s.closing.NotAsked? && s.stage != Returned
    decreases |steps|
  {
    if steps != [] {
      var mid := LastStep(first, steps, max, s);
      LeftAlone(first, steps[..|steps| - 1], max, mid);
      assert steps[|steps| - 1] in steps;
    }
  }

  // ----- What is dead is replaced -----

  /** A way from `s` to a state with a living process that was reported healthy. */
  ghost predicate Recovers(s: State, steps: seq<Step>, max: nat, s': State) {
    && Run(s, steps, max, s') && Calm(steps)
    && Lives(s', s'.installed) && Reported(s, steps, max, s'.installed, true)
  }

  /** A spawn that works is installed four steps later. */
  lemma {:induction false} FromSpawning(s: State, max: nat) returns (steps: seq<Step>, s': State)
    requires s.stage.Spawning? && !s.stop && s.lock.None?
    ensures Recovers(s, steps, max, s')
  {
    var pid := Unused(s.alive.Keys);
    var s1 := Next(s, Spawn(pid, true), max);
    var s2 := Next(s1, Health(true), max);
    var s3 := Next(s2, LockToInstall, max);
    var s4 := Next(s3, Recheck, max);
    s' := Next(s4, Install, max);
    RunOne(s, Spawn(pid, true), max);
    RunOne(s1, Health(true), max);
    RunOne(s2, LockToInstall, max);
    RunOne(s3, Recheck, max);
    RunOne(s4, Install, max);
    var two, rest := [Spawn(pid, true)] + [Health(true)], [LockToInstall] + [Recheck] + [Install];
    RunBoth(s, [Spawn(pid, true)], s1, [Health(true)], s2, max);
    RunBoth(s2, [LockToInstall], s3, [Recheck], s4, max);
    RunBoth(s2, [LockToInstall] + [Recheck], s4, [Install], s', max);
    RunBoth(s, two, s2, rest, s', max);
    steps := two + rest;
    assert steps[..1] == [Spawn(pid, true)];
    assert ReportedAt(s, steps, max, pid, true, 1, s1);
  }

  lemma Precede(s: State, xs: seq<Step>, mid: State, ys: seq<Step>, max: nat, s': State)
    requires Run(s, xs, max, mid) && Calm(xs) && Recovers(mid, ys, max, s')
    ensures Recovers(s, xs + ys, max, s')
  {
    var k: nat, at :| ReportedAt(mid, ys, max, s'.installed, true, k, at);
    RunBoth(s, xs, mid, ys, s', max);
    RunBoth(s, xs, mid, ys[..k], at, max);
    assert (xs + ys)[..|xs| + k] == xs + ys[..k];
    assert ReportedAt(s, xs + ys, max, s'.installed, true, |xs| + k, at);
  }

  /** The step that the supervisor takes next, when the installed process is dead. */
  function Onward(s: State): Step {
    match s.stage
    case Sleeping => Wake
    case Awake => CheckStop
    case ReadyToPoll => LockToPoll
    case Polling => Poll(true)
    case SawExit => CheckStopAgain
    case Waiting(_, _) => Health(true)
    case Healthy(_) => LockToInstall
    case Rechecking(_) => Recheck
    case Installing(_) => Install
    case _ => Wake
  }

  /** How many of these steps lead to a new attempt. */
  function Distance(s: State): nat {
    match s.stage
    case SawExit => 1
    case Polling => 2
    case ReadyToPoll => 3
    case Awake => 4
    case Sleeping => 5
    case Installing(_) => 6
    case Rechecking(_) => 7
    case Healthy(_) => 8
    case Waiting(_, _) => 9
    case _ => 0
  }

  lemma Unlocked(s: State)
    requires Locked(s) && !s.stop && !Inside(s.stage)
    ensures s.lock.None?
  {
    match s.lock
    case None =>
    case Some(party) =>
      match party
      case Supervise =>
      case Shutdown =>
  }

  /** The installed process is dead, and the one in flight too; shutdown is not asked for. */
  ghost predicate Down(s: State) {
    && Kept(s) && !s.stop && !Lives(s, s.installed)
    && (InFlight(s.stage).Some? ==> !Lives(s, InFlight(s.stage).value))
  }

  lemma {:induction false} DownRecovers(s: State, max: nat) returns (steps: seq<Step>, s': State)
    requires Down(s)
    ensures Recovers(s, steps, max, s')
    decreases Distance(s)
  {
    if !Inside(s.stage) {
      Unlocked(s);
    }
    if s.stage.Spawning? {
      steps, s' := FromSpawning(s, max);
    } else {
      var step := Onward(s);
      var next := Next(s, step, max);
      StepLocked(s, step, max);
      StepSealed(s, step, max);
      StepAccounted(s, step, max);
      steps, s' := DownRecovers(next, max);
      RunOne(s, step, max);
      Precede(s, [step], next, steps, max, s');
      steps := [step] + steps;
    }
  }

  lemma InstalledReported(first: State, steps: seq<Step>, max: nat, s: State)
    requires Initial(first) && Run(first, steps, max, s) && s.stage.Installing?
    ensures Reported(first, steps + [Install], max, s.stage.child, true)
  {
    RunApproves(first, steps, max, s);
    assert (steps + [Install])[..|steps|] == steps;
    ReportedMore(first, steps + [Install], max, s.stage.child, true);
  }

  /** If the child in flight lives, it is installed, unless its health was still to be reported. */
  lemma {:induction false} InFlightRecovers(s: State, max: nat, steps: seq<Step>, first: State)
    returns (more: seq<Step>, s': State)
    requires Initial(first) && Run(first, steps, max, s) && !s.stop && !Lives(s, s.installed)
    requires InFlight(s.stage).Some? && Lives(s, InFlight(s.stage).value)
    ensures Run(s, more, max, s') && Calm(more) && Lives(s', s'.installed)
    ensures s'.installed == InFlight(s.stage).value && Reported(first, steps + more, max, s'.installed, true)
    decreases Distance(s)
  {
    RunKeeps(first, steps, max, s);
    if !Inside(s.stage) {
      Unlocked(s);
    }
    var step := Onward(s);
    var next := Next(s, step, max);
    RunOne(s, step, max);
    RunBoth(first, steps, s, [step], next, max);
    if s.stage.Installing? {
      more, s' := [step], next;
      InstalledReported(first, steps, max, s);
    } else {
      more, s' := InFlightRecovers(next, max, steps + [step], first);
      RunBoth(s, [step], next, more, s', max);
      assert steps + [step] + more == steps + ([step] + more);
      more := [step] + more;
    }
  }

  /**
   From every state that a run leads to with the installed process dead and shutdown not
   asked for, the supervisor can get to one with a living process that was reported healthy.
   */
  lemma {:induction false} Replaces(first: State, steps: seq<Step>, max: nat, s: State)
    returns (more: seq<Step>, s': State)
    requires Initial(first) && Run(first, steps, max, s) && !s.stop && !Lives(s, s.installed)
    ensures Run(s, more, max, s') && Calm(more) && Lives(s', s'.installed)
    ensures Reported(first, steps + more, max, s'.installed, true)
  {
    RunKeeps(first, steps, max, s);
    if InFlight(s.stage).Some? && Lives(s, InFlight(s.stage).value) {
      more, s' := InFlightRecovers(s, max, steps, first);
    } else {
      more, s' := DownRecovers(s, max);
      var k: nat, at :| ReportedAt(s, more, max, s'.installed, true, k, at);
      RunBoth(first, steps, s, more[..k], at, max);
      assert (steps + more)[..|steps| + k] == steps + more[..k];
      assert ReportedAt(first, steps + more, max, s'.installed, true, |steps| + k, at);
    }
  }

  // ----- How many attempts are made -----

  /** The attempts since the supervisor last found the installed process dead. */
  function Attempts(steps: seq<Step>): nat {
    if steps == [] then 0
    else
      var last := steps[|steps| - 1];
      if last.CheckStopAgain? then 0
      else Attempts(steps[..|steps| - 1]) + if last.Spawn? then 1 else 0
  }

  ghost predicate Counted(steps: seq<Step>, max: nat, s: State) {
    match s.stage
    case Spawning(attempt) => attempt == Attempts(steps) + 1 && attempt <= max
    case Waiting(attempt, _) => attempt == Attempts(steps) && 0 < attempt <= max
    case _ => InFlight(s.stage).Some? ==> 0 < Attempts(steps) <= max
  }

  /** An attempt follows a failed one until all have been made, and no more are. */
  lemma {:induction false} AttemptsCounted(first: State, steps: seq<Step>, max: nat, s: State)
    requires Initial(first) && Run(first, steps, max, s) && max > 0
    ensures Counted(steps, max, s)
    decreases |steps|
  {
    if steps != [] {
      var mid := LastStep(first, steps, max, s);
      AttemptsCounted(first, steps[..|steps| - 1], max, mid);
      StepCounted(steps, max, mid);
    }
  }

  lemma StepCounted(steps: seq<Step>, max: nat, mid: State)
    requires steps != [] && Counted(steps[..|steps| - 1], max, mid) && max > 0
    requires Enabled(mid, steps[|steps| - 1])
    ensures Counted(steps, max, Next(mid, steps[|steps| - 1], max))
  {
  }

  /** It gives up exactly when the last of them has failed, in either way. */
  lemma GivesUpLast(first: State, steps: seq<Step>, max: nat, s: State, step: Step)
    requires Initial(first) && Run(first, steps, max, s) && max > 0 && Enabled(s, step)
    requires step == Health(false) || (step.Spawn? && !step.works)
    ensures var next := Next(s, step, max);
            if Attempts(steps + [step]) == max then next.stage == Sleeping
            else next.stage == Spawning(Attempts(steps + [step]) + 1)
  {
    AttemptsCounted(first, steps, max, s);
    assert (steps + [step])[..|steps|] == steps;
  }

  /** What is counted when the flag is set: each step of the supervisor once, and no other one. */
  lemma {:induction false} EachCounted(steps: seq<Step>, step: Step)
    ensures SupervisorSteps(steps + [step]) == SupervisorSteps(steps) + if OfSupervisor(step) then 1 else 0
  {
    if steps == [] {
      assert steps + [step] == [step] && [step][1..] == [];
    } else {
      assert (steps + [step])[1..] == steps[1..] + [step];
      EachCounted(steps[1..], step);
    }
  }
}
