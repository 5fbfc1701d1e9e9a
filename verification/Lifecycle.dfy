// The owner of the DSH process, crates/dr-dsh-daemon/src/lifecycle.rs: the controller, and the driver with
// its nested loops. Every await reads the next fitting entry of a script that stands for the
// environment; what the driver does is recorded in a trace, and the promises are about traces.
module Lifecycle {
  import opened Results

  type u32 = x: int | 0 <= x < 0x1_0000_0000
  const U32_MAX: nat := 0xffff_ffff

  // ------------------------------------------------------------------ policy

  // Times in nanoseconds; a duration saturates at its largest value.
  const DURATION_MAX: nat := 18446744073709551615 * 1000000000 + 999999999

  datatype RestartPolicy = RestartPolicy(base: nat, max: nat, maxAttempts: u32)

  function Min(a: nat, b: nat): nat { if a < b then a else b }
  function Max(a: nat, b: nat): nat { if a < b then b else a }

  function PowerOfTwo(e: nat): (r: nat)
    ensures r > 0
  {
    if e == 0 then 1 else 2 * PowerOfTwo(e - 1)
  }

  function Delay(policy: RestartPolicy, attempt: u32): nat
  {
    var exponent := Min(if attempt == 0 then 0 else attempt - 1, 16);
    Min(Min(policy.base * PowerOfTwo(exponent), DURATION_MAX), policy.max)
  }

  // The delay is base doubled once per earlier attempt, at most 16 times, and never above the ceiling.
  lemma DelayFormula(policy: RestartPolicy, attempt: u32)
    requires attempt >= 1 && policy.max <= DURATION_MAX
    ensures Delay(policy, attempt) == Min(policy.base * PowerOfTwo(Min(attempt - 1, 16)), policy.max)
  {}

  lemma {:induction false} PowerMonotone(a: nat, b: nat)
    requires a <= b
    ensures PowerOfTwo(a) <= PowerOfTwo(b)
  {
    if a < b {
      PowerMonotone(a, b - 1);
    }
  }

  lemma DelayMonotone(policy: RestartPolicy, a: u32, b: u32)
    requires a <= b
    ensures Delay(policy, a) <= Delay(policy, b)
  {
    var d, e := Min(if a == 0 then 0 else a - 1, 16), Min(if b == 0 then 0 else b - 1, 16);
    PowerMonotone(d, e);
    ProductMonotone(policy.base, PowerOfTwo(d), PowerOfTwo(e));
  }

  lemma ProductMonotone(k: nat, a: nat, b: nat)
    requires a <= b
    ensures k * a <= k * b
  {}

  // -------------------------------------------------------------- controller

  datatype Lifecycle =
    | Stopped(why: Option<string>)
    | Starting
    | Running(pid: Option<nat>)
    | Recovering(retryIn: nat, attempt: u32, reason: string)
    | Failed(cause: string, gaveUpAfter: u32)

  // What the state says about recovery: between the first attempt and the last but one, after the
  // delay of that attempt.
  predicate RecoveryBounded(policy: RestartPolicy, lifecycle: Lifecycle)
  {
    lifecycle.Recovering? ==>
      1 <= lifecycle.attempt < policy.maxAttempts && lifecycle.retryIn == Delay(policy, lifecycle.attempt)
  }

  class Controller {
    const policy: RestartPolicy
    var lifecycle: Lifecycle
    var attempts: u32
    var wantedRunning: bool

    constructor (policy: RestartPolicy)
      ensures this.policy == policy && lifecycle == Stopped(None) && attempts == 0 && !wantedRunning
    {
      this.policy := policy;
      lifecycle, attempts, wantedRunning := Stopped(None), 0, false;
    }

    method BeginStart()
      modifies this
      ensures wantedRunning && lifecycle == Starting && attempts == old(attempts)
    {
      wantedRunning := true;
      lifecycle := Starting;
    }

    method Started(pid: Option<nat>)
      modifies this
      ensures lifecycle == Running(pid) && attempts == 0 && wantedRunning == old(wantedRunning)
    {
      attempts := 0;
      lifecycle := Running(pid);
    }

    // A failed start and a crash are counted alike.
    method StartFailed(reason: string) returns (again: bool)
      modifies this
      ensures wantedRunning == old(wantedRunning)
      ensures lifecycle == AfterFailure(policy, old(wantedRunning), old(attempts), reason)
      ensures attempts == if old(wantedRunning) then Min(old(attempts) + 1, U32_MAX) else old(attempts)
      ensures again == lifecycle.Recovering? && RecoveryBounded(policy, lifecycle)
      ensures again ==> attempts == old(attempts) + 1 == lifecycle.attempt
    {
      if !wantedRunning {
        lifecycle := Stopped(Some(reason));
        return false;
      }
      attempts := if attempts == U32_MAX then attempts else attempts + 1;
      if attempts >= policy.maxAttempts {
        lifecycle := Failed(reason, policy.maxAttempts);
        return false;
      }
      lifecycle := Recovering(Delay(policy, attempts), attempts, reason);
      return true;
    }

    method Exited(reason: string) returns (again: bool)
      modifies this
      ensures wantedRunning == old(wantedRunning)
      ensures lifecycle == AfterFailure(policy, old(wantedRunning), old(attempts), reason)
      ensures attempts == if old(wantedRunning) then Min(old(attempts) + 1, U32_MAX) else old(attempts)
      ensures again == lifecycle.Recovering? && RecoveryBounded(policy, lifecycle)
      ensures again ==> attempts == old(attempts) + 1 == lifecycle.attempt
    {
      if !wantedRunning {
        lifecycle := Stopped(Some(reason));
        return false;
      }
      attempts := if attempts == U32_MAX then attempts else attempts + 1;
      if attempts >= policy.maxAttempts {
        lifecycle := Failed(reason, policy.maxAttempts);
        return false;
      }
      lifecycle := Recovering(Delay(policy, attempts), attempts, reason);
      return true;
    }

    method CurrentDelay() returns (delay: nat)
      ensures delay == if lifecycle.Recovering? then lifecycle.retryIn else Delay(policy, Max(attempts, 1))
    {
      if lifecycle.Recovering? {
        return lifecycle.retryIn;
      }
      return Delay(policy, Max(attempts, 1));
    }

    method BeginStop()
      modifies this`wantedRunning
      ensures !wantedRunning
    {
      wantedRunning := false;
    }

    method StoppedNow(why: Option<string>)
      modifies this
      ensures !wantedRunning && attempts == 0 && lifecycle == Stopped(why)
    {
      wantedRunning := false;
      attempts := 0;
      lifecycle := Stopped(why);
    }
  }

  // How often a start may be tried before the policy gives up.
  function StartBudget(policy: RestartPolicy, attempts: u32): nat
  {
    if attempts < policy.maxAttempts then policy.maxAttempts - attempts else 1
  }

  // The state after an exit or a failed start.
  function AfterFailure(policy: RestartPolicy, wanted: bool, attempts: u32, reason: string): Lifecycle
  {
    if !wanted then Stopped(Some(reason))
    else if attempts + 1 >= policy.maxAttempts then Failed(reason, policy.maxAttempts)
    else Recovering(Delay(policy, attempts + 1), attempts + 1, reason)
  }

  // ---------------------------------------------------------------- commands

  datatype Op = Start | Stop | Restart

  // ------------------------------------------------------------------ traces

  // What the environment does at an await.
  datatype Happening =
    | Commanded(op: Op)
    | ProcessExits(how: string)
    | SpawnSucceeds(pid: Option<nat>)
    | SpawnFails(reason: string)
    | SleepEnds
    | StopSucceeds
    | StopFails(reason: string)

  datatype Await = ForCommand | ForCommandOrExit | ForSpawn | ForSleep(delay: nat) | ForStop

  predicate Fits(a: Await, h: Happening)
  {
    match a
    case ForCommand => h.Commanded?
    case ForCommandOrExit => h.Commanded? || h.ProcessExits?
    case ForSpawn => h.SpawnSucceeds? || h.SpawnFails?
    case ForSleep(_) => h.SleepEnds? || h.Commanded?
    case ForStop => h.StopSucceeds? || h.StopFails?
  }

  // What can be seen of the driver: its state, the published copy, whether it holds a process, whether
  // one is alive, whether one is wanted.
  datatype View = View(lifecycle: Lifecycle, published: Lifecycle, held: bool, alive: bool, wanted: bool)

  datatype Entry =
    | AtHead(view: View, watching: bool)
    | Spawns(view: View)
    | Sleeps(view: View, delay: nat)
    | AsksToStop(view: View)
    | Received(op: Op)
    | Answered(op: Op, ok: bool, view: View, inBackoff: bool)
    | HasStarted(pid: Option<nat>)
    | HasFailed(reason: string)
    | HasExited(how: string)
    | Slept
    | HasStopped
    | StopRefused

  // What has been recorded, oldest first.
  datatype Trace = Nothing | Then(past: Trace, last: Entry)

  function Entries(trace: Trace): seq<Entry>
  {
    match trace
    case Nothing => []
    case Then(past, last) => Entries(past) + [last]
  }

  // The first n entries.
  function FirstOf(trace: Trace, n: nat): (r: Trace)
    requires n <= |Entries(trace)|
    ensures Entries(r) == Entries(trace)[..n]
  {
    if n == |Entries(trace)| then trace else FirstOf(trace.past, n)
  }

  function EntryAt(a: Await, v: View): Entry
  {
    match a
    case ForSpawn => Spawns(v)
    case ForSleep(delay) => Sleeps(v, delay)
    case ForStop => AsksToStop(v)
    case ForCommand => AtHead(v, false)
    case ForCommandOrExit => AtHead(v, true)
  }

  // What is noted about what the environment did.
  function Noted(trace: Trace, h: Option<Happening>): Trace
  {
    match h
    case None => trace
    case Some(Commanded(op)) => Then(trace, Received(op))
    case Some(SpawnSucceeds(pid)) => Then(trace, HasStarted(pid))
    case Some(SpawnFails(reason)) => Then(trace, HasFailed(reason))
    case Some(ProcessExits(how)) => Then(trace, HasExited(how))
    case Some(SleepEnds) => Then(trace, Slept)
    case Some(StopSucceeds) => Then(trace, HasStopped)
    case Some(StopFails(_)) => Then(trace, StopRefused)
  }

  function AliveAfter(alive: bool, h: Happening): bool
  {
    match h
    case SpawnSucceeds(_) => true
    case ProcessExits(_) => false
    case StopSucceeds => false
    case _ => alive
  }

  // Whether a Stop has been answered ok, with no Start or Restart received since.
  predicate Quieted(trace: Trace)
  {
    match trace
    case Nothing => false
    case Then(past, last) =>
      (last.Answered? && last.op == Stop && last.ok) || (!AsksForStart(last) && Quieted(past))
  }

  predicate AsksForStart(e: Entry)
  {
    e.Received? && e.op != Stop
  }

  // Whether the process that was started last has been asked to stop. If it is still held, that failed.
  predicate StopTried(trace: Trace)
  {
    match trace
    case Nothing => false
    case Then(past, last) => last.AsksToStop? || (!last.HasStarted? && StopTried(past))
  }

  // The failed starts and crashes since the last success or completed stop.
  function Failures(trace: Trace): nat
  {
    match trace
    case Nothing => 0
    case Then(past, last) =>
      if last.HasStarted? || last.HasStopped? then 0
      else if last.HasFailed? || (last.HasExited? && !StopTried(past)) then Failures(past) + 1
      else Failures(past)
  }

  // The command taken at the head of the loop that has not been answered yet.
  function Serving(trace: Trace): Option<Op>
  {
    match trace
    case Nothing => None
    case Then(past, last) =>
      match last
      case Received(op) => if past.Then? && past.last.AtHead? then Some(op) else Serving(past)
      case Answered(_, _, _, inBackoff) => if inBackoff then Serving(past) else None
      case _ => Serving(past)
  }

  function StartedPid(trace: Trace): Option<nat>
  {
    match trace
    case Nothing => None
    case Then(past, last) => if last.HasStarted? then last.pid else StartedPid(past)
  }

  predicate EndsWaiting(trace: Trace)
  {
    trace.Then? && IsAwait(trace.last)
  }

  // What the driver comes back to when a start is through: the answer it owes, or the head of the loop.
  predicate Resumes(before: Trace, e: Entry)
  {
    match Serving(before)
    case None => e.AtHead?
    case Some(op) => e.Answered? && e.op == op && !e.inBackoff
  }

  // A failed start or a crash is retried after a back-off until the attempts are used up.
  predicate Retries(policy: RestartPolicy, before: Trace, why: string, e: Entry)
  {
    if Failures(before) < policy.maxAttempts then
      e.Sleeps? && e.view.lifecycle.Recovering? && e.view.lifecycle.attempt == Failures(before) && e.view.lifecycle.reason == why
    else Resumes(before, e) && (e.AtHead? || !e.ok) && e.view.lifecycle == Failed(why, policy.maxAttempts)
  }

  // What a command leads to that was received at the head of the loop.
  predicate Served(op: Op, held: bool, e: Entry)
  {
    match op
    case Start => if held then e.Answered? && e.op == Start && e.ok && !e.inBackoff else e.Spawns?
    case _ => if held then e.AsksToStop? else e.HasStopped?
  }

  // What may be recorded next: either what the environment does at an await, or the one thing the driver
  // goes on to do.
  predicate Follows(policy: RestartPolicy, before: Trace, e: Entry)
  {
    match before
    case Nothing => e.Spawns? || e.HasStarted?
    case Then(past, last) =>
      match last
      case AtHead(v, watching) => e.Received? || (watching && e.HasExited?)
      case Spawns(_) => e.HasStarted? || e.HasFailed?
      case Sleeps(_, _) => e.Slept? || e.Received?
      case AsksToStop(_) => e.HasStopped? || e.StopRefused?
      case Received(op) =>
        past.Then? &&
        (match past.last
         case AtHead(v, _) => Served(op, v.held, e)
         case Sleeps(v, _) => e.Answered? && e.op == op && e.ok && e.inBackoff && e.view.lifecycle == v.lifecycle
         case _ => false)
      case HasStarted(_) => Resumes(before, e) && (e.AtHead? || e.ok)
      case HasFailed(why) => Retries(policy, before, why, e)
      case HasExited(how) =>
        if StopTried(past) then e.AtHead? && e.view.lifecycle == Stopped(Some(how))
        else IsAwait(e) && Retries(policy, before, how, e)
      case Slept => e.Spawns?
      case HasStopped =>
        (match Serving(before)
         case Some(Restart) => e.Spawns?
         case Some(Stop) => e.Answered? && e.op == Stop && e.ok && !e.inBackoff
         case _ => false)
      case StopRefused => Serving(before).Some? && Resumes(before, e) && !e.ok
      case Answered(op, _, v, inBackoff) =>
        if !inBackoff then e.AtHead? && e.view.lifecycle == v.lifecycle
        else if op == Stop then Resumes(before, e) && (e.AtHead? || !e.ok) && e.view.lifecycle == v.lifecycle
        else e.Sleeps? && e.view.lifecycle == v.lifecycle
  }

  // The attempt of the last back-off since the last success or completed stop.
  function LastAttempt(trace: Trace): u32
  {
    match trace
    case Nothing => 0
    case Then(past, last) =>
      if last.HasStarted? || last.HasStopped? then 0
      else if last.Sleeps? && last.view.lifecycle.Recovering? then last.view.lifecycle.attempt
      else LastAttempt(past)
  }

  function SpawnCount(trace: Trace): nat
  {
    match trace
    case Nothing => 0
    case Then(past, last) => SpawnCount(past) + if last.Spawns? then 1 else 0
  }

  // What each recorded step keeps, given what was recorded before it.
  predicate EntryOk(policy: RestartPolicy, before: Trace, e: Entry)
  {
    && (IsAwait(e) ==>
          e.view.published == e.view.lifecycle && RecoveryBounded(policy, e.view.lifecycle))
    && (match e
        case AtHead(v, watching) => v.held == v.lifecycle.Running? && v.held == v.alive && watching == v.held
        case Spawns(v) => !v.held && !v.alive && v.wanted && v.lifecycle == Starting && !Quieted(before)
        case Sleeps(v, delay) => !v.held && !v.alive && v.lifecycle.Recovering? && delay == v.lifecycle.retryIn && LastAttempt(before) <= v.lifecycle.attempt
        case AsksToStop(v) => v.alive && !v.wanted && v.lifecycle.Running?
        case Answered(op, ok, v, inBackoff) =>
          AnswerOk(op, ok, v, inBackoff) && (op == Start && ok && !inBackoff ==> v.wanted == !StopTried(before))
        case _ => true)
    && ((IsAwait(e) || e.Answered?) && e.view.lifecycle.Running? ==> e.view.lifecycle.pid == StartedPid(before))
    && Follows(policy, before, e)
  }

  predicate IsAwait(e: Entry)
  {
    e.AtHead? || e.Spawns? || e.Sleeps? || e.AsksToStop?
  }

  // What an answer means. During a back-off a Start or Restart is answered ok because a start is due
  // anyway, and a Stop is answered ok with `Recovering` still showing.
  predicate AnswerOk(op: Op, ok: bool, v: View, inBackoff: bool)
  {
    if inBackoff then ok && !v.alive && v.lifecycle.Recovering? && v.wanted == (op != Stop)
    else
      && v.published == v.lifecycle && v.held == v.alive == v.lifecycle.Running?
      && (match op
          case Start => ok == v.held
          case Restart => ok ==> v.held && v.wanted
          case Stop => !v.wanted && ok == !v.held && (ok ==> v.lifecycle == Stopped(None)))
  }

  predicate TraceOk(policy: RestartPolicy, trace: Trace)
  {
    trace.Then? ==> TraceOk(policy, trace.past) && EntryOk(policy, trace.past, trace.last)
  }

  lemma {:induction false} EveryEntryOk(policy: RestartPolicy, trace: Trace, i: nat)
    requires TraceOk(policy, trace) && i < |Entries(trace)|
    ensures EntryOk(policy, FirstOf(trace, i), Entries(trace)[i]) && TraceOk(policy, FirstOf(trace, i))
  {
    if i < |Entries(trace)| - 1 {
      EveryEntryOk(policy, trace.past, i);
    } else {
      assert FirstOf(trace, i) == FirstOf(trace.past, i) == trace.past;
    }
  }

  // ------------------------------------------------- what is promised of a run

  // The process is spawned only when none is held and none is alive, and only while it is wanted.
  predicate SpawnsAlone(entries: seq<Entry>)
  {
    forall i :: 0 <= i < |entries| && entries[i].Spawns? ==>
      !entries[i].view.held && !entries[i].view.alive && entries[i].view.wanted
  }

  // At every await the published state is the controller's, and a recovery it shows is bounded; at the
  // head of the loop a process is held, and alive, exactly when the published state is Running.
  predicate PublishesTruth(policy: RestartPolicy, entries: seq<Entry>)
  {
    forall i :: 0 <= i < |entries| && IsAwait(entries[i]) ==>
      && entries[i].view.published == entries[i].view.lifecycle && RecoveryBounded(policy, entries[i].view.published)
      && (entries[i].AtHead? ==> entries[i].view.held == entries[i].view.alive == entries[i].view.published.Running?)
  }

  predicate StopAnswered(e: Entry)
  {
    e.Answered? && e.op == Stop && e.ok
  }

  // Between a Stop that was answered ok, wherever it was served, and a later spawn there is a Start or
  // a Restart.
  predicate StopHolds(entries: seq<Entry>)
  {
    forall i, j :: 0 <= i < j < |entries| && StopAnswered(entries[i]) && entries[j].Spawns? ==>
      exists k :: i < k < j && AsksForStart(entries[k])
  }

  predicate NoReset(entries: seq<Entry>, i: int, j: int)
    requires 0 <= i < j < |entries|
  {
    forall k :: i < k < j ==> !entries[k].HasStarted? && !entries[k].HasStopped?
  }

  // Back-offs with no success and no completed stop between them: attempts and delays never decrease.
  predicate DelaysGrow(entries: seq<Entry>)
  {
    forall i, j :: 0 <= i < j < |entries| && entries[i].Sleeps? && entries[j].Sleeps? && NoReset(entries, i, j) ==>
      var a, b := entries[i].view.lifecycle, entries[j].view.lifecycle;
      a.Recovering? && b.Recovering? && a.attempt <= b.attempt && a.retryIn <= b.retryIn
      && entries[i].delay == a.retryIn && entries[j].delay == b.retryIn
  }

  // Every answer was true when it was given; during a back-off a Start, Restart or Stop is always ok.
  predicate AnswersTruly(entries: seq<Entry>)
  {
    forall i :: 0 <= i < |entries| && entries[i].Answered? ==>
      AnswerOk(entries[i].op, entries[i].ok, entries[i].view, entries[i].inBackoff)
  }

  // Whether the process started last before an entry has been asked to stop.
  predicate StopTriedBefore(entries: seq<Entry>, i: nat)
    requires i <= |entries|
  {
    exists k: nat :: k < i && entries[k].AsksToStop? && forall m :: k < m < i ==> !entries[m].HasStarted?
  }

  // A Start that is answered ok leaves the process wanted exactly when no Stop or Restart has tried, and
  // failed, to stop it since it was started.
  predicate StartsAreKept(entries: seq<Entry>)
  {
    forall i :: 0 <= i < |entries| && entries[i].Answered? && entries[i].op == Start && entries[i].ok && !entries[i].inBackoff ==>
      entries[i].view.wanted == !StopTriedBefore(entries, i)
  }

  // And under the same condition an exit is a crash, which is retried or given up; otherwise it is taken
  // for the stop that was asked for, and the process stays down.
  predicate CrashesHeal(entries: seq<Entry>)
  {
    forall i :: 0 <= i < |entries| - 1 && entries[i].HasExited? ==>
      IsAwait(entries[i + 1]) && entries[i + 1].view.lifecycle.Stopped? == StopTriedBefore(entries, i)
  }

  // It ends only in a wait for the environment.
  predicate EndsInAwait(entries: seq<Entry>)
  {
    entries != [] ==> IsAwait(entries[|entries| - 1])
  }

  // At the head of the loop a process that is held is watched.
  predicate HeadsWatch(entries: seq<Entry>)
  {
    forall i :: 0 <= i < |entries| && entries[i].AtHead? ==> entries[i].watching == entries[i].view.held
  }

  // A sleep that ended is followed by a spawn.
  predicate SleepsEndInSpawns(entries: seq<Entry>)
  {
    forall i :: 0 <= i < |entries| && entries[i].Slept? ==> i + 1 < |entries| && entries[i + 1].Spawns?
  }

  // A Start received at the head of the loop is followed by a spawn or, with a process running, by its
  // answer; a Stop or a Restart by the attempt to stop what is held.
  predicate CommandsServed(entries: seq<Entry>)
  {
    forall i :: 0 < i < |entries| && entries[i].Received? && entries[i - 1].AtHead? ==>
      i + 1 < |entries| && Served(entries[i].op, entries[i - 1].view.held, entries[i + 1])
  }

  // A command received during a back-off is answered at once.
  predicate BackoffsAnswer(entries: seq<Entry>)
  {
    forall i :: 0 < i < |entries| && entries[i].Received? && entries[i - 1].Sleeps? ==>
      i + 1 < |entries| && entries[i + 1].Answered? && entries[i + 1].op == entries[i].op && entries[i + 1].ok
  }

  // A Restart that found nothing to stop spawns, and so does one whose stop was completed.
  predicate IdleRestartsSpawn(entries: seq<Entry>)
  {
    forall i :: 1 < i < |entries| && entries[i].HasStopped? && entries[i - 1] == Received(Restart) ==>
      i + 1 < |entries| && entries[i + 1].Spawns?
  }

  predicate StoppedRestartsSpawn(entries: seq<Entry>)
  {
    forall i :: 2 < i < |entries| && entries[i].HasStopped? && entries[i - 1].AsksToStop? && entries[i - 2] == Received(Restart) ==>
      i + 1 < |entries| && entries[i + 1].Spawns?
  }

  // What the driver owes it does.
  predicate Proceeds(entries: seq<Entry>)
  {
    && EndsInAwait(entries) && HeadsWatch(entries) && SleepsEndInSpawns(entries)
    && CommandsServed(entries) && BackoffsAnswer(entries)
    && IdleRestartsSpawn(entries) && StoppedRestartsSpawn(entries)
  }

  // A failed start, or the crash of a process nobody tried to stop, is followed by a back-off as long as
  // there have been fewer failures than the policy allows, and by giving up otherwise.
  predicate FailuresRetried(policy: RestartPolicy, trace: Trace)
  {
    match trace
    case Nothing => true
    case Then(past, last) =>
      && FailuresRetried(policy, past)
      && (past.Then? && (past.last.HasFailed? || (past.last.HasExited? && !StopTried(past))) ==>
            if Failures(past) < policy.maxAttempts then last.Sleeps?
            else !last.Sleeps? && (IsAwait(last) || last.Answered?) && last.view.lifecycle.Failed?)
  }

  lemma {:induction false} RetriesHappen(policy: RestartPolicy, trace: Trace)
    requires TraceOk(policy, trace)
    ensures FailuresRetried(policy, trace)
  {
    if trace.Then? {
      RetriesHappen(policy, trace.past);
    }
  }

  lemma FollowsAt(policy: RestartPolicy, trace: Trace, i: nat)
    requires TraceOk(policy, trace) && 0 < i < |Entries(trace)|
    ensures (var before := FirstOf(trace, i);
             before.Then? && before.last == Entries(trace)[i - 1] && Follows(policy, before, Entries(trace)[i]))
    ensures i > 1 ==> FirstOf(trace, i).past.Then? && FirstOf(trace, i).past.last == Entries(trace)[i - 2]
    ensures i > 2 ==> FirstOf(trace, i).past.past.Then? && FirstOf(trace, i).past.past.last == Entries(trace)[i - 3]
  {
    EveryEntryOk(policy, trace, i);
    var before := FirstOf(trace, i);
    LastOfFirst(trace, i - 1);
    assert Entries(before) == Entries(before.past) + [before.last];
    if i > 1 {
      assert Entries(before.past)[i - 2] == Entries(before)[i - 2] == Entries(trace)[i - 2];
      assert Entries(before.past) == Entries(before.past.past) + [before.past.last];
    }
    if i > 2 {
      assert Entries(before.past.past)[i - 3] == Entries(before.past)[i - 3] == Entries(before)[i - 3] == Entries(trace)[i - 3];
      assert Entries(before.past.past) == Entries(before.past.past.past) + [before.past.past.last];
    }
  }

  lemma NotTheEnd(trace: Trace, i: nat)
    requires EndsWaiting(trace) && i < |Entries(trace)| && !IsAwait(Entries(trace)[i])
    ensures i + 1 < |Entries(trace)|
  {
    assert Entries(trace) == Entries(trace.past) + [trace.last];
  }

  lemma RecordProceeds(policy: RestartPolicy, trace: Trace)
    requires TraceOk(policy, trace) && EndsWaiting(trace)
    ensures Proceeds(Entries(trace))
  {
    assert Entries(trace) == Entries(trace.past) + [trace.last];
    SleepsProceed(policy, trace);
    HeadsAreWatched(policy, trace);
    CommandsProceed(policy, trace);
    BackoffsProceed(policy, trace);
    IdleRestartsProceed(policy, trace);
    StoppedRestartsProceed(policy, trace);
  }

  lemma SleepsProceed(policy: RestartPolicy, trace: Trace)
    requires TraceOk(policy, trace) && EndsWaiting(trace)
    ensures SleepsEndInSpawns(Entries(trace))
  {
    var entries := Entries(trace);
    forall i | 0 <= i < |entries| && entries[i].Slept? ensures i + 1 < |entries| && entries[i + 1].Spawns? {
      NotTheEnd(trace, i);
      FollowsAt(policy, trace, i + 1);
    }
  }

  lemma HeadsAreWatched(policy: RestartPolicy, trace: Trace)
    requires TraceOk(policy, trace)
    ensures HeadsWatch(Entries(trace))
  {
    var entries := Entries(trace);
    forall i | 0 <= i < |entries| && entries[i].AtHead? ensures entries[i].watching == entries[i].view.held {
      EveryEntryOk(policy, trace, i);
    }
  }

  lemma CommandsProceed(policy: RestartPolicy, trace: Trace)
    requires TraceOk(policy, trace) && EndsWaiting(trace)
    ensures CommandsServed(Entries(trace))
  {
    var entries := Entries(trace);
    forall i | 0 < i < |entries| && entries[i].Received? && entries[i - 1].AtHead?
      ensures i + 1 < |entries| && Served(entries[i].op, entries[i - 1].view.held, entries[i + 1])
    {
      NotTheEnd(trace, i);
      FollowsAt(policy, trace, i + 1);
    }
  }

  lemma BackoffsProceed(policy: RestartPolicy, trace: Trace)
    requires TraceOk(policy, trace) && EndsWaiting(trace)
    ensures BackoffsAnswer(Entries(trace))
  {
    var entries := Entries(trace);
    forall i | 0 < i < |entries| && entries[i].Received? && entries[i - 1].Sleeps?
      ensures i + 1 < |entries| && entries[i + 1].Answered? && entries[i + 1].op == entries[i].op && entries[i + 1].ok
    {
      NotTheEnd(trace, i);
      FollowsAt(policy, trace, i + 1);
    }
  }

  lemma IdleRestartsProceed(policy: RestartPolicy, trace: Trace)
    requires TraceOk(policy, trace) && EndsWaiting(trace)
    ensures IdleRestartsSpawn(Entries(trace))
  {
    var entries := Entries(trace);
    forall i | 1 < i < |entries| && entries[i].HasStopped? && entries[i - 1] == Received(Restart)
      ensures i + 1 < |entries| && entries[i + 1].Spawns?
    {
      NotTheEnd(trace, i);
      FollowsAt(policy, trace, i + 1);
      FollowsBefore(policy, trace, i + 1);
      StoppedForRestart(policy, FirstOf(trace, i + 1), entries[i + 1]);
    }
  }

  lemma StoppedRestartsProceed(policy: RestartPolicy, trace: Trace)
    requires TraceOk(policy, trace) && EndsWaiting(trace)
    ensures StoppedRestartsSpawn(Entries(trace))
  {
    var entries := Entries(trace);
    forall i | 2 < i < |entries| && entries[i].HasStopped? && entries[i - 1].AsksToStop? && entries[i - 2] == Received(Restart)
      ensures i + 1 < |entries| && entries[i + 1].Spawns?
    {
      NotTheEnd(trace, i);
      FollowsAt(policy, trace, i + 1);
      FollowsBefore(policy, trace, i + 1);
      AskedForRestart(policy, FirstOf(trace, i + 1), entries[i + 1]);
    }
  }

  // What the two entries before the last one of a prefix followed.
  lemma FollowsBefore(policy: RestartPolicy, trace: Trace, i: nat)
    requires TraceOk(policy, trace) && 2 < i <= |Entries(trace)|
    ensures (var before := FirstOf(trace, i);
             && before.Then? && before.past.Then? && before.past.past.Then?
             && Follows(policy, before.past, before.last) && Follows(policy, before.past.past, before.past.last))
  {
    var before := FirstOf(trace, i);
    if i < |Entries(trace)| {
      EveryEntryOk(policy, trace, i);
    } else {
      assert before == trace;
    }
    assert Entries(before) == Entries(before.past) + [before.last];
    assert Entries(before.past) == Entries(before.past.past) + [before.past.last];
  }

  lemma AskedForRestart(policy: RestartPolicy, before: Trace, e: Entry)
    requires before.Then? && before.past.Then? && before.past.past.Then?
    requires before.last.HasStopped? && before.past.last.AsksToStop? && before.past.past.last == Received(Restart)
    requires Follows(policy, before, e) && Follows(policy, before.past, before.last) && Follows(policy, before.past.past, before.past.last)
    ensures e.Spawns?
  {
    assert Serving(before) == Serving(before.past) == Serving(before.past.past) == Some(Restart);
  }

  lemma StoppedForRestart(policy: RestartPolicy, before: Trace, e: Entry)
    requires before.Then? && before.past.Then? && before.last.HasStopped? && before.past.last == Received(Restart)
    requires Follows(policy, before, e) && Follows(policy, before.past, before.last)
    ensures e.Spawns?
  {
    assert before.past.past.Then? && before.past.past.last.AtHead?;
    assert Serving(before) == Serving(before.past) == Some(Restart);
  }

  lemma {:induction false} StopTriedIff(trace: Trace)
    ensures StopTried(trace) <==> StopTriedBefore(Entries(trace), |Entries(trace)|)
  {
    if trace.Then? {
      var entries, past, n := Entries(trace), Entries(trace.past), |Entries(trace)| - 1;
      StopTriedIff(trace.past);
      assert entries[n] == trace.last && forall k :: 0 <= k < n ==> entries[k] == past[k];
      if trace.last.AsksToStop? {
        assert entries[n].AsksToStop?;
      } else if !trace.last.HasStarted? && StopTriedBefore(past, n) {
        var k: nat :| k < n && past[k].AsksToStop? && forall m :: k < m < n ==> !past[m].HasStarted?;
        assert entries[k].AsksToStop? && forall m :: k < m < n + 1 ==> !entries[m].HasStarted?;
      }
      if StopTriedBefore(entries, n + 1) {
        var k: nat :| k < n + 1 && entries[k].AsksToStop? && forall m :: k < m < n + 1 ==> !entries[m].HasStarted?;
        if k < n {
          assert past[k].AsksToStop? && forall m :: k < m < n ==> !past[m].HasStarted?;
        }
      }
    }
  }

  lemma StopTriedAt(trace: Trace, i: nat)
    requires i <= |Entries(trace)|
    ensures StopTried(FirstOf(trace, i)) <==> StopTriedBefore(Entries(trace), i)
  {
    var first, entries := Entries(FirstOf(trace, i)), Entries(trace);
    StopTriedIff(FirstOf(trace, i));
    assert first == entries[..i];
    if StopTriedBefore(first, i) {
      var k: nat :| k < i && first[k].AsksToStop? && forall m :: k < m < i ==> !first[m].HasStarted?;
      assert entries[k].AsksToStop? && forall m :: k < m < i ==> !entries[m].HasStarted?;
    }
    if StopTriedBefore(entries, i) {
      var k: nat :| k < i && entries[k].AsksToStop? && forall m :: k < m < i ==> !entries[m].HasStarted?;
      assert first[k].AsksToStop? && forall m :: k < m < i ==> !first[m].HasStarted?;
    }
  }

  lemma StartKept(policy: RestartPolicy, trace: Trace, i: nat)
    requires TraceOk(policy, trace) && i < |Entries(trace)|
    ensures (var e := Entries(trace)[i];
             e.Answered? && e.op == Start && e.ok && !e.inBackoff ==> e.view.wanted == !StopTriedBefore(Entries(trace), i))
  {
    EveryEntryOk(policy, trace, i);
    StopTriedAt(trace, i);
  }

  lemma CrashHeals(policy: RestartPolicy, trace: Trace, i: nat)
    requires TraceOk(policy, trace) && i < |Entries(trace)| - 1 && Entries(trace)[i].HasExited?
    ensures IsAwait(Entries(trace)[i + 1])
    ensures Entries(trace)[i + 1].view.lifecycle.Stopped? == StopTriedBefore(Entries(trace), i)
  {
    EveryEntryOk(policy, trace, i + 1);
    var first := FirstOf(trace, i + 1);
    LastOfFirst(trace, i);
    StopTriedAt(trace, i + 1);
    NotHere(Entries(trace), i);
  }

  lemma LastOfFirst(trace: Trace, i: nat)
    requires i < |Entries(trace)|
    ensures FirstOf(trace, i + 1).Then? && FirstOf(trace, i + 1).last == Entries(trace)[i]
  {
    var first := FirstOf(trace, i + 1);
    assert Entries(first)[i] == Entries(trace)[i];
  }

  lemma NotHere(entries: seq<Entry>, i: nat)
    requires i < |entries| && entries[i].HasExited?
    ensures StopTriedBefore(entries, i + 1) <==> StopTriedBefore(entries, i)
  {
    if StopTriedBefore(entries, i + 1) {
      var k: nat :| k < i + 1 && entries[k].AsksToStop? && forall m :: k < m < i + 1 ==> !entries[m].HasStarted?;
      assert k < i && forall m :: k < m < i ==> !entries[m].HasStarted?;
    }
    if StopTriedBefore(entries, i) {
      var k: nat :| k < i && entries[k].AsksToStop? && forall m :: k < m < i ==> !entries[m].HasStarted?;
      assert forall m :: k < m < i + 1 ==> !entries[m].HasStarted?;
    }
  }

  // The step by step record that the driver keeps adds up to the promises about whole runs.
  lemma RecordKeepsPromises(policy: RestartPolicy, trace: Trace)
    requires TraceOk(policy, trace)
    ensures SpawnsAlone(Entries(trace)) && PublishesTruth(policy, Entries(trace)) && AnswersTruly(Entries(trace))
    ensures StopHolds(Entries(trace)) && DelaysGrow(Entries(trace))
    ensures StartsAreKept(Entries(trace)) && CrashesHeal(Entries(trace))
  {
    RecordKeepsWishes(policy, trace);
    var entries := Entries(trace);
    forall i | 0 <= i < |entries| ensures EntryOk(policy, FirstOf(trace, i), entries[i]) {
      EveryEntryOk(policy, trace, i);
    }
    forall i, j | 0 <= i < j < |entries| && StopAnswered(entries[i]) && entries[j].Spawns?
      ensures exists k :: i < k < j && AsksForStart(entries[k])
    {
      StopIsFinal(policy, trace, i, j);
    }
    forall i, j | 0 <= i < j < |entries| && entries[i].Sleeps? && entries[j].Sleeps? && NoReset(entries, i, j)
      ensures (var a, b := entries[i].view.lifecycle, entries[j].view.lifecycle;
               a.Recovering? && b.Recovering? && a.attempt <= b.attempt && a.retryIn <= b.retryIn)
    {
      DelaysNeverDecrease(policy, trace, i, j);
    }
  }

  lemma RecordKeepsWishes(policy: RestartPolicy, trace: Trace)
    requires TraceOk(policy, trace)
    ensures StartsAreKept(Entries(trace)) && CrashesHeal(Entries(trace))
  {
    var entries := Entries(trace);
    forall i | 0 <= i < |entries| && entries[i].Answered? && entries[i].op == Start && entries[i].ok && !entries[i].inBackoff
      ensures entries[i].view.wanted == !StopTriedBefore(entries, i)
    {
      StartKept(policy, trace, i);
    }
    forall i | 0 <= i < |entries| - 1 && entries[i].HasExited?
      ensures IsAwait(entries[i + 1]) && entries[i + 1].view.lifecycle.Stopped? == StopTriedBefore(entries, i)
    {
      CrashHeals(policy, trace, i);
    }
  }

  // Stop is final: between a Stop that was answered ok, wherever it was served, and the next spawn
  // there is a Start or a Restart.
  lemma StopIsFinal(policy: RestartPolicy, trace: Trace, i: nat, j: nat)
    requires TraceOk(policy, trace) && i < j < |Entries(trace)|
    requires (var e := Entries(trace)[i]; e.Answered? && e.op == Stop && e.ok) && Entries(trace)[j].Spawns?
    ensures exists k :: i < k < j && AsksForStart(Entries(trace)[k])
  {
    EveryEntryOk(policy, trace, j);
    var past := FirstOf(trace, j);
    if forall k :: i < k < j ==> !AsksForStart(Entries(trace)[k]) {
      forall k | i < k < |Entries(past)| ensures !AsksForStart(Entries(past)[k]) {
        assert Entries(past)[k] == Entries(trace)[k];
      }
      StaysQuiet(past, i);
      assert false;
    }
  }

  lemma {:induction false} StaysQuiet(trace: Trace, i: nat)
    requires i < |Entries(trace)| && (var e := Entries(trace)[i]; e.Answered? && e.op == Stop && e.ok)
    requires forall k :: i < k < |Entries(trace)| ==> !AsksForStart(Entries(trace)[k])
    ensures Quieted(trace)
  {
    if i < |Entries(trace)| - 1 {
      var n := |Entries(trace)| - 1;
      assert Entries(trace)[n] == trace.last;
      forall k | i < k < |Entries(trace.past)| ensures !AsksForStart(Entries(trace.past)[k]) {
        assert Entries(trace.past)[k] == Entries(trace)[k];
      }
      StaysQuiet(trace.past, i);
    }
  }

  // As long as no start succeeds and no stop completes, the delays of the back-offs never decrease.
  lemma DelaysNeverDecrease(policy: RestartPolicy, trace: Trace, i: nat, j: nat)
    requires TraceOk(policy, trace) && i < j < |Entries(trace)| && Entries(trace)[i].Sleeps? && Entries(trace)[j].Sleeps?
    requires forall k :: i < k < j ==> !Entries(trace)[k].HasStarted? && !Entries(trace)[k].HasStopped?
    ensures (var a, b := Entries(trace)[i].view.lifecycle, Entries(trace)[j].view.lifecycle;
             && a.Recovering? && b.Recovering? && a.attempt <= b.attempt && a.retryIn <= b.retryIn)
  {
    EveryEntryOk(policy, trace, i);
    EveryEntryOk(policy, trace, j);
    var past := FirstOf(trace, j);
    assert forall k :: 0 <= k < j ==> Entries(past)[k] == Entries(trace)[k];
    AttemptsGrow(policy, past, i);
    DelayMonotone(policy, Entries(trace)[i].view.lifecycle.attempt, Entries(trace)[j].view.lifecycle.attempt);
  }

  lemma {:induction false} AttemptsGrow(policy: RestartPolicy, trace: Trace, i: nat)
    requires TraceOk(policy, trace) && i < |Entries(trace)|
    requires Entries(trace)[i].Sleeps? && Entries(trace)[i].view.lifecycle.Recovering?
    requires forall k :: i < k < |Entries(trace)| ==> !Entries(trace)[k].HasStarted? && !Entries(trace)[k].HasStopped?
    ensures Entries(trace)[i].view.lifecycle.attempt <= LastAttempt(trace)
  {
    if i < |Entries(trace)| - 1 {
      assert Entries(trace)[|Entries(trace)| - 1] == trace.last;
      assert forall k :: 0 <= k < |Entries(trace.past)| ==> Entries(trace.past)[k] == Entries(trace)[k];
      AttemptsGrow(policy, trace.past, i);
    }
  }

  // ------------------------------------------------------- one wait, recorded

  lemma NotedIsOk(policy: RestartPolicy, before: Trace, a: Await, v: View, h: Option<Happening>)
    requires TraceOk(policy, before) && EntryOk(policy, before, EntryAt(a, v)) && (h.Some? ==> Fits(a, h.value))
    ensures TraceOk(policy, Noted(Then(before, EntryAt(a, v)), h))
  {
    var at := Then(before, EntryAt(a, v));
    if h.Some? {
      assert TraceOk(policy, Noted(at, h).past) && EntryOk(policy, at, Noted(at, h).last);
    }
  }

  lemma NotedCommands(before: Trace, a: Await, v: View, h: Option<Happening>)
    requires h.Some? ==> Fits(a, h.value)
    ensures (var after := Noted(Then(before, EntryAt(a, v)), h);
             && Quieted(after) == (!(h.Some? && h.value.Commanded? && h.value.op != Stop) && Quieted(before))
             && Serving(after) == (if h.Some? && h.value.Commanded? && !a.ForSleep? then Some(h.value.op) else Serving(before)))
  {
    var at := Then(before, EntryAt(a, v));
    assert Quieted(at) == Quieted(before) && Serving(at) == Serving(before);
  }

  lemma NotedStarts(before: Trace, a: Await, v: View, h: Option<Happening>)
    requires h.Some? ==> Fits(a, h.value)
    ensures (var after := Noted(Then(before, EntryAt(a, v)), h);
             && SpawnCount(after) == SpawnCount(before) + (if a == ForSpawn then 1 else 0)
             && StopTried(after) == (!(h.Some? && h.value.SpawnSucceeds?) && (a == ForStop || StopTried(before)))
             && StartedPid(after) == (if h.Some? && h.value.SpawnSucceeds? then h.value.pid else StartedPid(before)))
  {
    var at := Then(before, EntryAt(a, v));
    assert SpawnCount(at) == SpawnCount(before) + (if a == ForSpawn then 1 else 0);
    assert StopTried(at) == (a == ForStop || StopTried(before)) && StartedPid(at) == StartedPid(before);
  }

  lemma NotedFailures(before: Trace, a: Await, v: View, h: Option<Happening>)
    requires h.Some? ==> Fits(a, h.value)
    ensures (var after := Noted(Then(before, EntryAt(a, v)), h);
             && Failures(after) ==
                  (if h.None? then Failures(before)
                   else if h.value.SpawnSucceeds? || h.value.StopSucceeds? then 0
                   else if h.value.SpawnFails? || (h.value.ProcessExits? && !StopTried(before)) then Failures(before) + 1
                   else Failures(before))
             && LastAttempt(after) ==
                  (if h.Some? && (h.value.SpawnSucceeds? || h.value.StopSucceeds?) then 0
                   else if a.ForSleep? && v.lifecycle.Recovering? then v.lifecycle.attempt else LastAttempt(before)))
  {
    var at := Then(before, EntryAt(a, v));
    assert Failures(at) == Failures(before);
    assert StopTried(at) == (a == ForStop || StopTried(before));
    assert LastAttempt(at) == if a.ForSleep? && v.lifecycle.Recovering? then v.lifecycle.attempt else LastAttempt(before);
  }

  // An answer given in its turn.
  lemma AnswerNoted(before: Trace, op: Op, ok: bool, v: View, inBackoff: bool)
    ensures (var after := Then(before, Answered(op, ok, v, inBackoff));
             && Quieted(after) == ((op == Stop && ok) || Quieted(before)) && LastAttempt(after) == LastAttempt(before)
             && SpawnCount(after) == SpawnCount(before) && StopTried(after) == StopTried(before)
             && StartedPid(after) == StartedPid(before) && Failures(after) == Failures(before)
             && Serving(after) == if inBackoff then Serving(before) else None)
  {}
}
