/** `check_all_services`: the sequential loop and the thread pool, against one reference verdict. */
module HealthChecks {
  import opened Wrappers

  datatype Exn = Exn(id: nat, message: string)

  // What the outcome of a check depends on: the service alone.  `mask` hides secrets in a message.
  datatype World = World(check: string -> Option<Exn>, mask: string -> string)

  datatype Status = Status(service: string, ok: bool, error: Option<string>)

  datatype Verdict =
    | Report(ok: bool, services: seq<Status>)
    | HealthCheckError(service: string, error: string, cause: Option<Exn>)

  function RunServiceCheck(world: World, service: string): (Status, Option<Exn>) {
    match world.check(service)
    case None => (Status(service, true, None), None)
    case Some(exn) => (Status(service, false, Some(world.mask(exn.message))), Some(exn))
  }

  function ErrorText(status: Status): string {
    if status.error.None? || status.error.value == "" then "unknown error" else status.error.value
  }

  // ----- The reference verdict -----

  predicate Fails(world: World, service: string) {
    world.check(service).Some?
  }

  ghost predicate IsFirstRequiredFailure(world: World, services: seq<string>, required: set<string>, i: nat) {
    && i < |services| && Fails(world, services[i]) && services[i] in required
    && forall j :: 0 <= j < i ==> !(Fails(world, services[j]) && services[j] in required)
  }

  /** A verdict is right if it is the error of the first required service that fails, or, when no
      required service fails, a report with one status for each service in input order. */
  ghost predicate IsVerdict(world: World, services: seq<string>, required: set<string>, v: Verdict) {
    match v
    case HealthCheckError(service, error, cause) =>
      exists i: nat :: IsFirstRequiredFailure(world, services, required, i) &&
        service == services[i] && cause == world.check(services[i]) &&
        var text := world.mask(world.check(services[i]).value.message);
        error == if text == "" then "unknown error" else text
    case Report(ok, statuses) =>
      && (forall i :: 0 <= i < |services| ==> !(Fails(world, services[i]) && services[i] in required))
      && |statuses| == |services|
      && (forall i :: 0 <= i < |services| ==>
            && statuses[i].service == services[i]
            && (statuses[i].ok <==> !Fails(world, services[i]))
            && statuses[i].error == if Fails(world, services[i])
                                    then Some(world.mask(world.check(services[i]).value.message)) else None)
      && (ok <==> forall i :: 0 <= i < |services| ==> !Fails(world, services[i]))
  }

  /** There is only one right verdict, so two ways of checking that are both right agree. */
  lemma VerdictIsUnique(world: World, services: seq<string>, required: set<string>, v: Verdict, w: Verdict)
    requires IsVerdict(world, services, required, v) && IsVerdict(world, services, required, w)
    ensures v == w
  {
    if v.Report? && w.Report? {
      assert v.services == w.services;
    } else if v.HealthCheckError? && w.HealthCheckError? {
      var i: nat :| IsFirstRequiredFailure(world, services, required, i) && v.service == services[i]
                    && v.cause == world.check(services[i]);
      var j: nat :| IsFirstRequiredFailure(world, services, required, j) && w.service == services[j]
                    && w.cause == world.check(services[j]);
      assert i == j;
    }
  }

  /** A right verdict is an error exactly if some required service fails, and then it names the first one, with
      its masked message, or "unknown error" for an empty one, and its exception as cause; else it lists the
      services in order, ok or with their masked messages, and is ok exactly if no service fails. */
  lemma VerdictSays(world: World, services: seq<string>, required: set<string>, v: Verdict)
    requires IsVerdict(world, services, required, v)
    ensures v.HealthCheckError? <==>
            exists i :: 0 <= i < |services| && services[i] in required && world.check(services[i]).Some?
    ensures forall i :: 0 <= i < |services| && services[i] in required && world.check(services[i]).Some?
                        && (forall j :: 0 <= j < i ==> !(services[j] in required && world.check(services[j]).Some?)) ==>
              var exn := world.check(services[i]).value;
              var text := world.mask(exn.message);
              v == HealthCheckError(services[i], if text == "" then "unknown error" else text, Some(exn))
    ensures v.Report? ==>
              && |v.services| == |services|
              && (v.ok <==> forall i :: 0 <= i < |services| ==> world.check(services[i]).None?)
              && forall i :: 0 <= i < |services| ==>
                   v.services[i] == match world.check(services[i])
                                    case None => Status(services[i], true, None)
                                    case Some(exn) => Status(services[i], false, Some(world.mask(exn.message)))
  {
    if v.HealthCheckError? {
      var i: nat :| IsFirstRequiredFailure(world, services, required, i) && v.service == services[i]
                    && v.cause == world.check(services[i]);
      assert services[i] in required && world.check(services[i]).Some?;
    }
    forall i | 0 <= i < |services| && services[i] in required && world.check(services[i]).Some?
      ensures !v.Report?
    {
      assert Fails(world, services[i]) && services[i] in required;
    }
  }

  // ----- The sequential loop -----

  predicate AllOk(statuses: seq<Status>) {
    forall i :: 0 <= i < |statuses| ==> statuses[i].ok
  }

  method CheckSequential(world: World, services: seq<string>, required: set<string>) returns (v: Verdict)
    ensures IsVerdict(world, services, required, v)
  {
    var statuses: seq<Status> := [];
    for i := 0 to |services|
      invariant |statuses| == i
      invariant forall j :: 0 <= j < i ==> statuses[j] == RunServiceCheck(world, services[j]).0
      invariant forall j :: 0 <= j < i ==> !(Fails(world, services[j]) && services[j] in required)
    {
      var (status, exn) := RunServiceCheck(world, services[i]);
      statuses := statuses + [status];
      if exn.Some? && services[i] in required {
        assert IsFirstRequiredFailure(world, services, required, i);
        return HealthCheckError(services[i], ErrorText(status), exn);
      }
    }
    v := Report(AllOk(statuses), statuses);
    assert AllOk(statuses) <==> forall i :: 0 <= i < |services| ==> !Fails(world, services[i]) by {
      assert forall i :: 0 <= i < |services| ==> statuses[i].ok == !Fails(world, services[i]);
    }
  }

  // ----- The thread pool -----

  datatype Phase = NotSubmitted | Queued | Running | Done(status: Status, exn: Option<Exn>)

  // What can happen next: the caller submits one more check, a free worker takes a queued check,
  // or a running check ends.
  datatype Step = Submit | Start(i: nat) | Finish(i: nat)

  datatype Pool = Pool(workers: nat, submitted: nat, phases: seq<Phase>)

  function Fresh(services: seq<string>): Pool {
    Pool(|services|, 0, seq(|services|, i => NotSubmitted))
  }

  function RunningIn(pool: Pool): set<nat> {
    set i: nat | i < |pool.phases| && pool.phases[i].Running? :: i
  }

  predicate Enabled(pool: Pool, step: Step) {
    match step
    case Submit => pool.submitted < |pool.phases|
    case Start(i) => i < |pool.phases| && pool.phases[i].Queued? && |RunningIn(pool)| < pool.workers
    case Finish(i) => i < |pool.phases| && pool.phases[i].Running?
  }

  function Next(world: World, services: seq<string>, pool: Pool, step: Step): Pool
    requires |pool.phases| == |services| && Enabled(pool, step)
  {
    match step
    case Submit => pool.(submitted := pool.submitted + 1, phases := pool.phases[pool.submitted := Queued])
    case Start(i) => pool.(phases := pool.phases[i := Running])
    case Finish(i) =>
      var (status, exn) := RunServiceCheck(world, services[i]);
      pool.(phases := pool.phases[i := Done(status, exn)])
  }

  predicate AllDone(pool: Pool) {
    forall i :: 0 <= i < |pool.phases| ==> pool.phases[i].Done?
  }

  /** What every reachable state of the pool satisfies. */
  predicate PoolInvariant(world: World, services: seq<string>, pool: Pool) {
    && pool.workers == |pool.phases| == |services|
    && pool.submitted <= |services|
    && (forall i :: 0 <= i < |services| ==> (pool.phases[i].NotSubmitted? <==> pool.submitted <= i))
    && (forall i :: 0 <= i < |services| && pool.phases[i].Done? ==>
          (pool.phases[i].status, pool.phases[i].exn) == RunServiceCheck(world, services[i]))
  }

  // The pool after a schedule, or None if some step of it was not possible.
  function Ran(world: World, services: seq<string>, schedule: seq<Step>): Option<Pool> {
    if schedule == [] then Some(Fresh(services))
    else
      match Ran(world, services, schedule[..|schedule| - 1])
      case None => None
      case Some(pool) =>
        var step := schedule[|schedule| - 1];
        if |pool.phases| == |services| && Enabled(pool, step) then Some(Next(world, services, pool, step)) else None
  }

  lemma StepKeepsInvariant(world: World, services: seq<string>, pool: Pool, step: Step)
    requires PoolInvariant(world, services, pool) && Enabled(pool, step)
    ensures PoolInvariant(world, services, Next(world, services, pool, step))
  {
  }

  lemma {:induction false} ReachableKeepsInvariant(world: World, services: seq<string>, schedule: seq<Step>)
    ensures var pool := Ran(world, services, schedule);
            pool.Some? ==> PoolInvariant(world, services, pool.value)
  {
    if schedule != [] {
      var before := schedule[..|schedule| - 1];
      ReachableKeepsInvariant(world, services, before);
      if Ran(world, services, schedule).Some? {
        StepKeepsInvariant(world, services, Ran(world, services, before).value, schedule[|schedule| - 1]);
      }
    }
  }

  /** With as many workers as checks, a queued check always finds a free worker. */
  lemma QueuedCheckHasFreeWorker(world: World, services: seq<string>, schedule: seq<Step>, i: nat)
    requires Ran(world, services, schedule).Some?
    requires var pool := Ran(world, services, schedule).value;
             i < |pool.phases| && pool.phases[i].Queued?
    ensures var pool := Ran(world, services, schedule).value;
            |RunningIn(pool)| < pool.workers && Enabled(pool, Start(i))
  {
    ReachableKeepsInvariant(world, services, schedule);
    var pool := Ran(world, services, schedule).value;
    var others := Numbers(|services|) - {i};
    assert |others| == |services| - 1;
    SubsetSize(RunningIn(pool), others);
  }

  function Numbers(n: nat): (r: set<nat>)
    ensures |r| == n && forall i: nat :: i in r <==> i < n
  {
    if n == 0 then {} else Numbers(n - 1) + {n - 1}
  }

  lemma SubsetSize(a: set<nat>, b: set<nat>)
    requires a <= b
    ensures |a| <= |b|
  {
    if a != {} {
      var x :| x in a;
      SubsetSize(a - {x}, b - {x});
    }
  }

  /** The pool cannot get stuck: until every check is done some step is possible. */
  lemma PoolNeverStuck(world: World, services: seq<string>, schedule: seq<Step>)
    requires Ran(world, services, schedule).Some?
    ensures var pool := Ran(world, services, schedule).value;
            AllDone(pool) <==> !exists step :: Enabled(pool, step)
  {
    ReachableKeepsInvariant(world, services, schedule);
    var pool := Ran(world, services, schedule).value;
    assert pool.submitted < |pool.phases| ==> pool.phases[pool.submitted].NotSubmitted?;
    if !AllDone(pool) {
      var i: nat :| i < |pool.phases| && !pool.phases[i].Done?;
      match pool.phases[i]
      case NotSubmitted => assert Enabled(pool, Submit);
      case Queued => QueuedCheckHasFreeWorker(world, services, schedule, i);
      case Running => assert Enabled(pool, Finish(i));
    }
  }

  // ----- Every schedule ends after three steps for each check -----

  function StepsLeft(phase: Phase): nat {
    match phase
    case NotSubmitted => 3
    case Queued => 2
    case Running => 1
    case Done(_, _) => 0
  }

  function Remaining(phases: seq<Phase>): nat {
    if phases == [] then 0 else StepsLeft(phases[0]) + Remaining(phases[1..])
  }

  lemma {:induction false} RemainingUpdate(phases: seq<Phase>, i: nat, phase: Phase)
    requires i < |phases|
    ensures Remaining(phases[i := phase]) + StepsLeft(phases[i]) == Remaining(phases) + StepsLeft(phase)
  {
    if i > 0 {
      assert phases[i := phase][1..] == phases[1..][i - 1 := phase];
      RemainingUpdate(phases[1..], i - 1, phase);
    } else {
      assert phases[i := phase][1..] == phases[1..];
    }
  }

  lemma {:induction false} RemainingZero(phases: seq<Phase>)
    ensures Remaining(phases) == 0 <==> forall i :: 0 <= i < |phases| ==> phases[i].Done?
  {
    if phases != [] {
      RemainingZero(phases[1..]);
      assert (forall i :: 0 <= i < |phases| ==> phases[i].Done?)
         <==> phases[0].Done? && forall i :: 0 <= i < |phases[1..]| ==> phases[1..][i].Done?;
    }
  }

  lemma {:induction false} FreshRemaining(n: nat)
    ensures Remaining(seq(n, i => NotSubmitted)) == 3 * n
  {
    if n > 0 {
      assert seq(n, i => NotSubmitted)[1..] == seq(n - 1, i => NotSubmitted);
      FreshRemaining(n - 1);
    }
  }

  lemma {:induction false} EachStepCounts(world: World, services: seq<string>, schedule: seq<Step>)
    requires Ran(world, services, schedule).Some?
    ensures |schedule| + Remaining(Ran(world, services, schedule).value.phases) == 3 * |services|
  {
    if schedule == [] {
      FreshRemaining(|services|);
      assert Fresh(services).phases == seq(|services|, i => NotSubmitted);
    } else {
      var before, step := schedule[..|schedule| - 1], schedule[|schedule| - 1];
      EachStepCounts(world, services, before);
      ReachableKeepsInvariant(world, services, before);
      var pool, pool' := Ran(world, services, before).value, Ran(world, services, schedule).value;
      var i := if step.Submit? then pool.submitted else step.i;
      RemainingUpdate(pool.phases, i, pool'.phases[i]);
    }
  }

  /** Every schedule that gets all the checks done has exactly three steps for each check, and no
      schedule is longer. */
  lemma SchedulesEnd(world: World, services: seq<string>, schedule: seq<Step>)
    requires Ran(world, services, schedule).Some?
    ensures |schedule| <= 3 * |services|
    ensures AllDone(Ran(world, services, schedule).value) <==> |schedule| == 3 * |services|
  {
    EachStepCounts(world, services, schedule);
    RemainingZero(Ran(world, services, schedule).value.phases);
  }

  /** Whatever has happened so far, the checks can be completed. */
  lemma {:induction false} ScheduleCanBeCompleted(world: World, services: seq<string>, schedule: seq<Step>)
    returns (complete: seq<Step>)
    requires Ran(world, services, schedule).Some?
    ensures schedule <= complete
    ensures Ran(world, services, complete).Some? && AllDone(Ran(world, services, complete).value)
    decreases 3 * |services| - |schedule|
  {
    SchedulesEnd(world, services, schedule);
    var pool := Ran(world, services, schedule).value;
    if AllDone(pool) {
      complete := schedule;
    } else {
      PoolNeverStuck(world, services, schedule);
      ReachableKeepsInvariant(world, services, schedule);
      var step :| Enabled(pool, step);
      assert (schedule + [step])[..|schedule|] == schedule;
      SchedulesEnd(world, services, schedule + [step]);
      complete := ScheduleCanBeCompleted(world, services, schedule + [step]);
    }
  }

  // ----- The parallel check -----

  // The keys of a mapping.
  predicate Distinct(services: seq<string>) {
    forall i, j :: 0 <= i < j < |services| ==> services[i] != services[j]
  }

  // Executes the pool under one schedule.
  method RunPool(world: World, services: seq<string>, schedule: seq<Step>) returns (pool: Pool)
    requires Ran(world, services, schedule).Some?
    ensures pool == Ran(world, services, schedule).value
  {
    pool := Fresh(services);
    for k := 0 to |schedule|
      invariant Ran(world, services, schedule[..k]) == Some(pool)
    {
      PrefixRan(world, services, schedule, k + 1);
      assert schedule[..k + 1][..k] == schedule[..k];
      pool := Next(world, services, pool, schedule[k]);
    }
    assert schedule[..|schedule|] == schedule;
  }

  lemma PrefixRan(world: World, services: seq<string>, schedule: seq<Step>, k: nat)
    requires k <= |schedule| && Ran(world, services, schedule).Some?
    ensures Ran(world, services, schedule[..k]).Some?
  {
    if k < |schedule| {
      var before := schedule[..|schedule| - 1];
      PrefixRan(world, services, before, k);
      assert before[..k] == schedule[..k];
    } else {
      assert schedule[..k] == schedule;
    }
  }

  /** Whatever the interleaving, once all the checks are done the verdict is the right one. */
  method CheckParallel(world: World, services: seq<string>, required: set<string>, schedule: seq<Step>)
    returns (v: Verdict)
    requires Distinct(services)
    requires Ran(world, services, schedule).Some? && AllDone(Ran(world, services, schedule).value)
    ensures IsVerdict(world, services, required, v)
  {
    if services == [] {
      return Report(true, []);
    }
    var pool := RunPool(world, services, schedule);
    ReachableKeepsInvariant(world, services, schedule);
    var statuses: seq<Status> := [];
    var failureCauses: map<string, Exn> := map[];
    for i := 0 to |services|
      invariant |statuses| == i
      invariant forall j :: 0 <= j < i ==> statuses[j] == RunServiceCheck(world, services[j]).0
      invariant forall j :: 0 <= j < i && Fails(world, services[j]) ==>
                  services[j] in failureCauses && Some(failureCauses[services[j]]) == world.check(services[j])
    {
      statuses := statuses + [pool.phases[i].status];
      if pool.phases[i].exn.Some? {
        failureCauses := failureCauses[services[i] := pool.phases[i].exn.value];
      }
    }
    for i := 0 to |statuses|
      invariant forall j :: 0 <= j < i ==> !(Fails(world, services[j]) && services[j] in required)
    {
      var status := statuses[i];
      if !status.ok && status.service in required {
        assert IsFirstRequiredFailure(world, services, required, i);
        var cause := if status.service in failureCauses then Some(failureCauses[status.service]) else None;
        return HealthCheckError(status.service, ErrorText(status), cause);
      }
    }
    v := Report(AllOk(statuses), statuses);
    assert forall i :: 0 <= i < |services| ==> statuses[i].ok == !Fails(world, services[i]);
  }

  /** The verdict does not depend on the mode: it is right either way, and VerdictIsUnique says
      that there is only one. */
  method CheckAllServices(world: World, services: seq<string>, required: set<string>, parallel: bool,
                          schedule: seq<Step>)
    returns (v: Verdict)
    requires Distinct(services)
    requires parallel ==> Ran(world, services, schedule).Some? && AllDone(Ran(world, services, schedule).value)
    ensures IsVerdict(world, services, required, v)
  {
    if parallel {
      v := CheckParallel(world, services, required, schedule);
    } else {
      v := CheckSequential(world, services, required);
    }
  }
}
