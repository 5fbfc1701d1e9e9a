// The driver of crates/dr-dsh-daemon/src/lifecycle.rs: one task that owns the process, with a back-off
// that commands can interrupt. `script` is what the environment does at the awaits, in order; an entry
// that does not fit the current await never happens. When the script is over the driver waits for ever.
module LifecycleDriver {
  import opened Results
  import opened Lifecycle

  predicate StopWillFail(script: seq<Happening>, at: nat)
    requires at <= |script|
  {
    var h := FirstFitting(script, at, ForStop).0;
    h.Some? && h.value.StopFails?
  }

  // How one round of starting ends.
  datatype StartOutcome = Hangs | Begun | GivenUp | Again(delay: nat)

  datatype Process = Process(pid: Option<nat>)

  // The next entry of a script that fits an await, and where the script goes on.
  function FirstFitting(script: seq<Happening>, at: nat, a: Await): (Option<Happening>, nat)
    requires at <= |script|
    decreases |script| - at
  {
    if at == |script| then (None, at)
    else if Fits(a, script[at]) then (Some(script[at]), at + 1)
    else FirstFitting(script, at + 1, a)
  }

  // A command was taken at the head of the loop, where the process was held or not.
  predicate JustReceived(trace: Trace, op: Op, held: bool)
  {
    trace.Then? && trace.last == Received(op) && trace.past.Then? && trace.past.last.AtHead? && trace.past.last.view.held == held
  }

  class Driver {
    const controller: Controller
    const script: seq<Happening>
    var at: nat
    var published: Lifecycle
    var running: Option<Process>
    ghost var alive: bool
    ghost var trace: Trace

    ghost function Now(): View
      reads this, controller
    {
      View(controller.lifecycle, published, running.Some?, alive, controller.wantedRunning)
    }

    // Holds whenever the driver is about to record something.
    ghost predicate Sound()
      reads this, controller
    {
      && at <= |script|
      && TraceOk(controller.policy, trace) && RecoveryBounded(controller.policy, controller.lifecycle)
      && (controller.lifecycle.Recovering? ==> controller.lifecycle.attempt == controller.attempts)
      && LastAttempt(trace) <= controller.attempts
      && (Quieted(trace) ==> !controller.wantedRunning)
    }

    // Holds between operations: a process is held exactly when the state says so, and the state is public.
    ghost predicate Settled()
      reads this, controller
    {
      && published == controller.lifecycle && running.Some? == alive == controller.lifecycle.Running?
      && (running.Some? ==> controller.wantedRunning == !StopTried(trace))
      && controller.attempts == Min(Failures(trace), U32_MAX)
      && (controller.lifecycle.Running? ==> controller.lifecycle.pid == StartedPid(trace))
    }

    // What the driver goes on to do must be what follows from what was recorded.
    ghost predicate May(e: Entry)
      reads this, controller
    {
      Follows(controller.policy, trace, e)
    }

    // The head of the loop, or the answer that is still owed.
    ghost function Resumption(): Entry
      reads this, controller
    {
      match Serving(trace)
      case None => AtHead(Now(), running.Some?)
      case Some(op) => Answered(op, running.Some?, Now(), false)
    }

    ghost predicate AtTheHead()
      reads this, controller
    {
      Sound() && Settled() && Serving(trace).None? && May(AtHead(Now(), running.Some?))
    }

    // Just created, or created and then given a process.
    ghost predicate Unused()
      reads this
    {
      if running.None? then trace == Nothing else trace.Then? && trace.past == Nothing && trace.last.HasStarted?
    }

    constructor (policy: RestartPolicy, script: seq<Happening>)
      ensures Sound() && Settled() && fresh(controller) && controller.policy == policy && this.script == script
      ensures at == 0 && Unused() && running.None? && controller.lifecycle == Lifecycle.Stopped(None)
    {
      controller := new Controller(policy);
      this.script := script;
      at, published, running := 0, Lifecycle.Stopped(None), None;
      alive, trace := false, Nothing;
    }

    // Takes over a process that is already running.
    method Adopt(process: Process)
      requires Sound() && Settled() && Unused() && running.None?
      modifies this`published, this`running, this`alive, this`trace, controller
      ensures AtTheHead() && Unused() && running == Some(process) && controller.wantedRunning
      ensures trace == Then(Nothing, HasStarted(process.pid))
    {
      controller.BeginStart();
      trace := Then(trace, HasStarted(process.pid));
      controller.Started(process.pid);
      running := Some(process);
      alive := true;
      Publish();
      assert Serving(trace) == Serving(Nothing) && StopTried(Nothing) == false;
    }

    // The only way to wait. It records the view at the await, lets the environment act, and
    // records what that was: nothing that is spawned, exits, is commanded or slept through goes unseen.
    method Next(a: Await) returns (h: Option<Happening>)
      requires Sound() && EntryOk(controller.policy, trace, EntryAt(a, Now()))
      modifies this`at, this`alive, this`trace
      ensures old(at) <= at <= |script|
      ensures h.Some? ==> Fits(a, h.value) && at > old(at)
      ensures alive == (if h.Some? then AliveAfter(old(alive), h.value) else old(alive))
      ensures trace == Noted(Then(old(trace), EntryAt(a, old(Now()))), h)
      ensures TraceOk(controller.policy, trace)
      ensures Quieted(trace) == (!(h.Some? && h.value.Commanded? && h.value.op != Stop) && Quieted(old(trace)))
      ensures LastAttempt(trace) ==
        if h.Some? && (h.value.SpawnSucceeds? || h.value.StopSucceeds?) then 0
        else if a.ForSleep? then old(controller.lifecycle).attempt else LastAttempt(old(trace))
      ensures SpawnCount(trace) == SpawnCount(old(trace)) + if a == ForSpawn then 1 else 0
      ensures StopTried(trace) == (!(h.Some? && h.value.SpawnSucceeds?) && (a == ForStop || StopTried(old(trace))))
      ensures Serving(trace) ==
        if h.Some? && h.value.Commanded? && !a.ForSleep? then Some(h.value.op) else Serving(old(trace))
      ensures StartedPid(trace) == if h.Some? && h.value.SpawnSucceeds? then h.value.pid else StartedPid(old(trace))
      ensures Failures(trace) ==
        if h.None? then Failures(old(trace))
        else if h.value.SpawnSucceeds? || h.value.StopSucceeds? then 0
        else if h.value.SpawnFails? || (h.value.ProcessExits? && !StopTried(old(trace))) then Failures(old(trace)) + 1
        else Failures(old(trace))
      ensures (h, at) == FirstFitting(script, old(at), a)
    {
      ghost var before, v := trace, Now();
      h := Fitting(a);
      NotedIsOk(controller.policy, before, a, v, h);
      NotedCommands(before, a, v, h);
      NotedStarts(before, a, v, h);
      NotedFailures(before, a, v, h);
      trace := Noted(Then(before, EntryAt(a, v)), h);
      if h.Some? {
        alive := AliveAfter(alive, h.value);
      }
    }

    // Records an answer.
    ghost method Answer(op: Op, ok: bool, inBackoff: bool)
      requires Sound() && EntryOk(controller.policy, trace, Answered(op, ok, Now(), inBackoff))
      requires op == Stop && ok ==> !controller.wantedRunning
      modifies this`trace
      ensures Sound() && trace == Then(old(trace), Answered(op, ok, Now(), inBackoff))
      ensures StopTried(trace) == StopTried(old(trace)) && StartedPid(trace) == StartedPid(old(trace))
      ensures Failures(trace) == Failures(old(trace)) && SpawnCount(trace) == SpawnCount(old(trace))
      ensures Serving(trace) == if inBackoff then Serving(old(trace)) else None
      ensures Quieted(trace) == ((op == Stop && ok) || Quieted(old(trace)))
    {
      AnswerNoted(trace, op, ok, Now(), inBackoff);
      trace := Then(trace, Answered(op, ok, Now(), inBackoff));
    }

    // The next entry of the script that fits, if there is one.
    method Fitting(a: Await) returns (h: Option<Happening>)
      requires at <= |script|
      modifies this`at
      ensures old(at) <= at <= |script|
      ensures h.Some? ==> Fits(a, h.value) && at > old(at)
      ensures (h, at) == FirstFitting(script, old(at), a)
    {
      while at < |script|
        invariant old(at) <= at <= |script| && FirstFitting(script, at, a) == FirstFitting(script, old(at), a)
      {
        var candidate := script[at];
        at := at + 1;
        if Fits(a, candidate) {
          return Some(candidate);
        }
      }
      return None;
    }

    method Publish()
      modifies this`published
      ensures published == controller.lifecycle
    {
      published := controller.lifecycle;
    }

    // Whatever the environment does and however often commands interrupt it, the record of a whole run
    // shows one owner, a true published state, final stops, growing delays and true answers, and that nothing
    // that is owed is left undone.
    method Run()
      requires Sound() && Settled() && Unused()
      modifies this, controller
      ensures Sound()
      ensures SpawnsAlone(Entries(trace)) && PublishesTruth(controller.policy, Entries(trace))
      ensures StopHolds(Entries(trace)) && DelaysGrow(Entries(trace)) && AnswersTruly(Entries(trace))
      ensures StartsAreKept(Entries(trace)) && CrashesHeal(Entries(trace))
      ensures Proceeds(Entries(trace)) && FailuresRetried(controller.policy, trace)
    {
      Drive();
      RecordKeepsPromises(controller.policy, trace);
      RecordProceeds(controller.policy, trace);
      RetriesHappen(controller.policy, trace);
    }

    // The first start and the loop over commands and exits.
    method Drive()
      requires Sound() && Settled() && Unused()
      modifies this, controller
      ensures Sound() && EndsWaiting(trace)
    {
      if running.None? {
        var over := StartProcess();
        if over {
          return;
        }
      }
      while true
        invariant AtTheHead()
        decreases |script| - at
      {
        var h := Next(if running.Some? then ForCommandOrExit else ForCommand);
        if h.None? {
          return;
        }
        var over := false;
        match h.value {
          case Commanded(op) =>
            over := Serve(op);
          case ProcessExits(how) =>
            over := AfterExit(how);
        }
        if over {
          return;
        }
      }
    }

    // The arm of the loop for a process that exited.
    method AfterExit(how: string) returns (over: bool)
      requires Sound() && published == controller.lifecycle && controller.lifecycle.Running? && running.Some? && !alive
      requires trace.Then? && trace.last == HasExited(how) && Serving(trace).None?
      requires controller.wantedRunning == !StopTried(trace) && controller.attempts == Min(Failures(trace.past), U32_MAX)
      modifies this, controller
      ensures Sound() && at >= old(at)
      ensures if over then EndsWaiting(trace) else AtTheHead()
      ensures !old(controller.wantedRunning) ==> !over && controller.lifecycle == Lifecycle.Stopped(Some(how)) && trace == old(trace)
    {
      running := None;
      var again := controller.Exited(how);
      if !again {
        Publish();
        return false;
      }
      var delay := controller.CurrentDelay();
      Publish();
      var go;
      go, over := Backoff(delay);
      if go && !over {
        over := StartProcess();
      }
    }

    // Waits out a back-off; true if a start should still happen. A command interrupts it.
    method Backoff(delay: nat) returns (go: bool, over: bool)
      requires Sound() && Settled() && controller.lifecycle.Recovering? && controller.wantedRunning
      requires delay == controller.lifecycle.retryIn && May(Sleeps(Now(), delay))
      modifies this`at, this`trace, this`alive, controller`wantedRunning, this`published
      ensures Sound() && Settled() && controller.lifecycle == old(controller.lifecycle)
      ensures at >= old(at) && SpawnCount(trace) == SpawnCount(old(trace)) && Serving(trace) == Serving(old(trace))
      ensures if over then EndsWaiting(trace) else if go then May(Spawns(Now())) else May(Resumption())
      ensures go && !over ==> controller.wantedRunning
      ensures !over ==> at > old(at) && go == controller.wantedRunning
    {
      while true
        invariant Sound() && Settled() && controller.lifecycle == old(controller.lifecycle) && controller.wantedRunning
        invariant at >= old(at) && SpawnCount(trace) == SpawnCount(old(trace))
        invariant May(Sleeps(Now(), delay)) && Serving(trace) == Serving(old(trace))
        decreases |script| - at
      {
        var h := Next(ForSleep(delay));
        if h.None? {
          return false, true;
        }
        match h.value {
          case SleepEnds =>
            return controller.wantedRunning, false;
          case Commanded(op) =>
            var ok := ServeCommandOnly(op);
            Answer(op, ok, true);
            if !controller.wantedRunning {
              return false, false;
            }
        }
      }
    }

    // During a back-off only the wish changes.
    method ServeCommandOnly(op: Op) returns (ok: bool)
      requires Settled() && controller.lifecycle.Recovering?
      modifies controller`wantedRunning, this`published
      ensures ok && Settled()
      ensures controller.wantedRunning == (old(controller.wantedRunning) && op != Stop)
    {
      if op == Stop {
        controller.BeginStop();
        Publish();
      }
      return true;
    }

    // Starts the process, retrying as the policy says. Each round uses up one of the attempts left.
    method StartProcess() returns (over: bool)
      requires Sound() && Settled() && running.None? && !Quieted(trace) && May(Spawns(Now()))
      modifies this, controller
      ensures Sound() && at >= old(at)
      ensures SpawnCount(trace) <= SpawnCount(old(trace)) + StartBudget(controller.policy, old(controller.attempts))
      ensures Serving(trace) == Serving(old(trace)) && (over ==> EndsWaiting(trace))
      ensures !over ==> Settled() && at > old(at) && May(Resumption()) && (running.Some? ==> controller.wantedRunning)
    {
      ghost var rounds := 0;
      while true
        invariant Sound() && Settled() && running.None? && !Quieted(trace) && May(Spawns(Now()))
        invariant Serving(trace) == Serving(old(trace))
        invariant at >= old(at) + rounds
        invariant SpawnCount(trace) == SpawnCount(old(trace)) + rounds
        invariant controller.attempts == old(controller.attempts) + rounds
        invariant rounds > 0 ==> controller.attempts < controller.policy.maxAttempts
        decreases |script| - at
      {
        var outcome := TryStart();
        rounds := rounds + 1;
        if !outcome.Again? {
          return outcome.Hangs?;
        }
        var go;
        go, over := Backoff(outcome.delay);
        if over || !go {
          return over;
        }
      }
    }

    // One round of starting: publish, spawn, and what the controller makes of the outcome.
    method TryStart() returns (outcome: StartOutcome)
      requires Sound() && Settled() && running.None? && !Quieted(trace) && May(Spawns(Now()))
      modifies this`at, this`published, this`running, this`alive, this`trace, controller
      ensures Sound() && at >= old(at) && SpawnCount(trace) == SpawnCount(old(trace)) + 1
      ensures Serving(trace) == Serving(old(trace))
      ensures if outcome.Hangs? then EndsWaiting(trace) else Settled() && at > old(at)
      ensures outcome.Begun? || outcome.GivenUp? ==> May(Resumption())
      ensures outcome.Again? ==> May(Sleeps(Now(), outcome.delay))
      ensures outcome.Begun? ==> running.Some? && controller.wantedRunning
      ensures outcome.GivenUp? ==> running.None?
      ensures outcome.Again? ==>
        && running.None? && controller.wantedRunning && !Quieted(trace) && controller.lifecycle.Recovering?
        && outcome.delay == controller.lifecycle.retryIn
        && controller.attempts == old(controller.attempts) + 1 < controller.policy.maxAttempts
    {
      controller.BeginStart();
      Publish();
      var h := Next(ForSpawn);
      if h.None? {
        return Hangs;
      }
      if h.value.SpawnSucceeds? {
        Succeeded(h.value.pid);
        return Begun;
      }
      outcome := StartFailure(h.value.reason);
    }

    method Succeeded(pid: Option<nat>)
      requires Sound() && LastAttempt(trace) == 0 && alive && controller.wantedRunning && !StopTried(trace)
      requires trace.Then? && trace.last == HasStarted(pid)
      modifies this`published, this`running, controller
      ensures Sound() && Settled() && May(Resumption()) && running.Some? && controller.wantedRunning == old(controller.wantedRunning)
    {
      controller.Started(pid);
      running := Some(Process(pid));
      Publish();
    }

    method StartFailure(reason: string) returns (outcome: StartOutcome)
      requires Sound() && running.None? && !alive && controller.wantedRunning
      requires trace.Then? && trace.last == HasFailed(reason) && controller.attempts == Min(Failures(trace.past), U32_MAX)
      modifies this`published, controller
      ensures Sound() && Settled() && controller.wantedRunning
      ensures May(if outcome.Again? then Sleeps(Now(), outcome.delay) else Resumption())
      ensures outcome == if controller.lifecycle.Recovering? then Again(controller.lifecycle.retryIn) else GivenUp
      ensures outcome.Again? ==> controller.attempts == old(controller.attempts) + 1 < controller.policy.maxAttempts
    {
      var again := controller.StartFailed(reason);
      if !again {
        Publish();
        return GivenUp;
      }
      var delay := controller.CurrentDelay();
      Publish();
      return Again(delay);
    }

    method Serve(op: Op) returns (over: bool)
      requires Sound() && Settled() && (op != Stop ==> !Quieted(trace)) && JustReceived(trace, op, running.Some?)
      modifies this, controller
      ensures Sound() && at >= old(at)
      ensures if over then EndsWaiting(trace) else AtTheHead()
      ensures op == Start && old(running.Some?) ==>
        && !over && at == old(at) && running == old(running) && controller.wantedRunning == old(controller.wantedRunning)
        && trace == Then(old(trace), Answered(Start, true, old(Now()), false))
      ensures op == Stop && old(running.Some?) && StopWillFail(script, old(at)) ==>
        && !over && at == FirstFitting(script, old(at), ForStop).1 && running == old(running) && !controller.wantedRunning
        && Quieted(trace) == Quieted(old(trace))
    {
      var ok;
      match op {
        case Start =>
          if running.Some? {
            Answer(Start, true, false);
            return false;
          }
          over := StartProcess();
          if over {
            return;
          }
          ok := controller.lifecycle.Running?;
        case Stop =>
          ok, over := StopProcess();
        case Restart =>
          ok, over := StopProcess();
          if over {
            return;
          }
          if ok {
            over := StartProcess();
            if over {
              return;
            }
            ok := controller.lifecycle.Running?;
          }
      }
      if !over {
        Answer(op, ok, false);
      }
    }

    // Stops the process, if there is one. A stop that fails leaves the process held.
    method StopProcess() returns (ok: bool, over: bool)
      requires Sound() && Settled() && (JustReceived(trace, Stop, running.Some?) || JustReceived(trace, Restart, running.Some?))
      modifies this, controller
      ensures Sound() && at >= old(at) && Quieted(trace) == Quieted(old(trace)) && Serving(trace) == Serving(old(trace))
      ensures trace.Then? && (if over then EndsWaiting(trace) else if ok then trace.last.HasStopped? else trace.last.StopRefused?)
      ensures SpawnCount(trace) == SpawnCount(old(trace))
      ensures !over ==> Settled() && !controller.wantedRunning && ok == running.None?
      ensures !over && ok ==> controller.lifecycle == Lifecycle.Stopped(None) && controller.attempts == 0
      ensures old(running.Some?) && StopWillFail(script, old(at)) ==>
        !over && !ok && at == FirstFitting(script, old(at), ForStop).1 && running == old(running)
    {
      if running.None? {
        controller.BeginStop();
        trace := Then(trace, HasStopped);
        controller.StoppedNow(None);
        Publish();
        return true, false;
      }
      var process := running.value;
      running := None;
      controller.BeginStop();
      var h := Next(ForStop);
      if h.None? {
        return false, true;
      }
      match h.value {
        case StopSucceeds =>
          controller.StoppedNow(None);
          Publish();
          return true, false;
        case StopFails(reason) =>
          running := Some(process);
          Publish();
          return false, false;
      }
    }
  }

  // A Stop that fails, on a process that was adopted.
  method FailedStop(policy: RestartPolicy, process: Process, reason: string, how: string) returns (d: Driver)
    ensures fresh(d) && fresh(d.controller) && d.AtTheHead() && d.running.Some? && !d.controller.wantedRunning && !Quieted(d.trace)
    ensures d.script == [Commanded(Stop), StopFails(reason), Commanded(Start), ProcessExits(how)] && d.at == 2
  {
    d := new Driver(policy, [Commanded(Stop), StopFails(reason), Commanded(Start), ProcessExits(how)]);
    d.Adopt(process);
    ScriptSteps(d.script, reason, how);
    var h := d.Next(ForCommandOrExit);
    var over := d.Serve(Stop);
  }

  // The input that breaks a Start that was answered ok: a Stop fails, the Start finds the process running and
  // does nothing, and the next crash is taken for the stop that was asked for.
  method StartAfterFailedStop(policy: RestartPolicy, process: Process, reason: string, how: string) returns (d: Driver)
    ensures fresh(d) && d.script == [Commanded(Stop), StopFails(reason), Commanded(Start), ProcessExits(how)]
    ensures d.running.None? && d.controller.lifecycle == Lifecycle.Stopped(Some(how)) && d.at == |d.script|
    ensures exists e :: e in Entries(d.trace) && e.Answered? && e.op == Start && e.ok && e.view.held && !e.view.wanted
  {
    d := FailedStop(policy, process, reason, how);
    ScriptSteps(d.script, reason, how);
    var h := d.Next(ForCommandOrExit);
    ghost var answer := Answered(Start, true, d.Now(), false);
    var over := d.Serve(Start);
    ghost var answered := d.trace;
    h := d.Next(ForCommandOrExit);
    over := d.AfterExit(how);
    AnswerStays(answered, d.trace, answer);
  }

  lemma ScriptSteps(script: seq<Happening>, reason: string, how: string)
    requires script == [Commanded(Stop), StopFails(reason), Commanded(Start), ProcessExits(how)]
    ensures FirstFitting(script, 0, ForCommandOrExit) == (Some(Commanded(Stop)), 1)
    ensures FirstFitting(script, 1, ForStop) == (Some(StopFails(reason)), 2) && StopWillFail(script, 1)
    ensures FirstFitting(script, 2, ForCommandOrExit) == (Some(Commanded(Start)), 3)
    ensures FirstFitting(script, 3, ForCommandOrExit) == (Some(ProcessExits(how)), 4)
  {}

  lemma AnswerStays(before: Trace, after: Trace, answer: Entry)
    requires before.Then? && before.last == answer
    requires after.Then? && after.past.Then? && after.past.past == before
    ensures answer in Entries(after)
  {
    var n := |Entries(before)| - 1;
    assert Entries(before) == Entries(before.past) + [answer];
    assert Entries(after) == Entries(after.past) + [after.last] && Entries(after.past) == Entries(before) + [after.past.last];
    assert Entries(after)[n] == answer;
  }
}
