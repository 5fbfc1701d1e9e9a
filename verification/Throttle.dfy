// The pairing throttle of crates/dr-dsh-crypto/src/throttle.rs and the order in which the pair command of
// crates/dr-dsh-daemon/src/lib.rs uses it. Times are nanoseconds since the Unix epoch; the file keeps
// whole seconds, which is what the bounds below lose.
module Throttle {
  import opened Results

  type u32 = x: int | 0 <= x < 0x1_0000_0000
  const U32_MAX: nat := 0xffff_ffff

  const SECOND: nat := 1000000000
  const ATTEMPTS_BEFORE_LOCKOUT: nat := 5
  const LOCKOUT: nat := 300 * SECOND
  const SPACING: nat := 2 * SECOND

  datatype Throttled = LockedOut(retryAfter: nat) | TooSoon(retryAfter: nat)

  function Max(a: int, b: int): int { if a < b then b else a }

  // Whole seconds between two times, at least one.
  function SecondsBetween(from: int, to: int): (s: nat)
    ensures s >= 1
  {
    Max(Max(to - from, 0) / SECOND, 1)
  }

  datatype Guard = Guard(failures: u32, lastAttempt: Option<int>, lockedUntil: Option<int>)

  const FRESH: Guard := Guard(0, None, None)

  // Whether an attempt may start.
  function Checked(g: Guard, now: int): Option<Throttled>
  {
    if g.lockedUntil.Some? && now < g.lockedUntil.value then Some(LockedOut(SecondsBetween(now, g.lockedUntil.value)))
    else if g.lastAttempt.Some? && Max(now - g.lastAttempt.value, 0) < SPACING then
      Some(TooSoon(Max((SPACING - Max(now - g.lastAttempt.value, 0)) / SECOND, 1)))
    else None
  }

  // An attempt is refused exactly while a lockout runs or the last attempt is less than two seconds old, the
  // lockout first. The wait that is announced falls short of the time left by less than a second, and exceeds
  // it only where it is rounded up to one second.
  lemma RefusedIff(g: Guard, now: int)
    ensures Checked(g, now).None? <==>
      (g.lockedUntil.Some? ==> now >= g.lockedUntil.value) && (g.lastAttempt.Some? ==> now - g.lastAttempt.value >= SPACING)
    ensures Checked(g, now).Some? && Checked(g, now).value.LockedOut? <==> g.lockedUntil.Some? && now < g.lockedUntil.value
    ensures Checked(g, now).Some? ==>
      (var wait, left := Checked(g, now).value.retryAfter, TimeLeft(g, now);
       && wait >= 1 && left > 0 && left < (wait + 1) * SECOND && (wait * SECOND <= left || wait == 1))
  {}

  // How long a refused attempt would have to wait. A clock that went back counts as no time gone by.
  function TimeLeft(g: Guard, now: int): int
  {
    if g.lockedUntil.Some? && now < g.lockedUntil.value then g.lockedUntil.value - now
    else if g.lastAttempt.Some? then SPACING - Max(now - g.lastAttempt.value, 0)
    else 0
  }

  function WithFailure(g: Guard, now: int): Guard
  {
    var failures := if g.failures == U32_MAX then g.failures else g.failures + 1;
    if failures >= ATTEMPTS_BEFORE_LOCKOUT then Guard(0, Some(now), Some(now + LOCKOUT))
    else Guard(failures, Some(now), g.lockedUntil)
  }

  // ---------------------------------------------------------------- the file

  datatype StoredGuard = StoredGuard(failures: u32, lastAttempt: Option<nat>, lockedUntil: Option<nat>)

  datatype File = Missing | Unreadable | Malformed | Stored(guard: StoredGuard)

  datatype GuardError = ReadError | MalformedState | WriteError

  // A time before the epoch has no stored form.
  function TimeToEpoch(time: int): Option<nat>
  {
    if time < 0 then None else Some(time / SECOND)
  }

  function EpochToTime(seconds: nat): int
  {
    seconds * SECOND
  }

  function Saving(g: Guard): StoredGuard
  {
    StoredGuard(g.failures,
                if g.lastAttempt.Some? then TimeToEpoch(g.lastAttempt.value) else None,
                if g.lockedUntil.Some? then TimeToEpoch(g.lockedUntil.value) else None)
  }

  function Restoring(s: StoredGuard): Guard
  {
    Guard(s.failures,
          if s.lastAttempt.Some? then Some(EpochToTime(s.lastAttempt.value)) else None,
          if s.lockedUntil.Some? then Some(EpochToTime(s.lockedUntil.value)) else None)
  }

  // Through the file, times on or after the epoch lose less than a second and come out as whole
  // seconds; nothing else changes.
  lemma FileTruncates(g: Guard)
    ensures (var r := Restoring(Saving(g));
             && r.failures == g.failures
             && (g.lastAttempt.Some? && g.lastAttempt.value >= 0 ==>
                   r.lastAttempt.Some? && g.lastAttempt.value - SECOND < r.lastAttempt.value <= g.lastAttempt.value
                   && r.lastAttempt.value % SECOND == 0)
             && (g.lockedUntil.Some? && g.lockedUntil.value >= 0 ==>
                   r.lockedUntil.Some? && g.lockedUntil.value - SECOND < r.lockedUntil.value <= g.lockedUntil.value))
    ensures Restoring(Saving(g)) == g <==>
      (g.lastAttempt.Some? ==> g.lastAttempt.value >= 0 && g.lastAttempt.value % SECOND == 0)
      && (g.lockedUntil.Some? ==> g.lockedUntil.value >= 0 && g.lockedUntil.value % SECOND == 0)
  {}

  class PairingGuard {
    var failures: u32
    var lastAttempt: Option<int>
    var lockedUntil: Option<int>

    function State(): Guard
      reads this
    {
      Guard(failures, lastAttempt, lockedUntil)
    }

    constructor (g: Guard)
      ensures State() == g
    {
      failures, lastAttempt, lockedUntil := g.failures, g.lastAttempt, g.lockedUntil;
    }

    method Check(now: int) returns (refusal: Option<Throttled>)
      ensures refusal == Checked(State(), now)
    {
      if lockedUntil.Some? && now < lockedUntil.value {
        return Some(LockedOut(SecondsBetween(now, lockedUntil.value)));
      }
      if lastAttempt.Some? {
        var elapsed := Max(now - lastAttempt.value, 0);
        if elapsed < SPACING {
          return Some(TooSoon(Max((SPACING - elapsed) / SECOND, 1)));
        }
      }
      return None;
    }

    method RecordFailure(now: int) returns (refusal: Option<Throttled>)
      modifies this
      ensures State() == WithFailure(old(State()), now)
      ensures refusal == if State().failures == 0 then Some(LockedOut(300)) else None
      ensures lastAttempt == Some(now) && (refusal.Some? <==> old(failures) + 1 >= 5)
      ensures if refusal.Some? then lockedUntil == Some(now + 300 * SECOND) else failures == old(failures) + 1 && lockedUntil == old(lockedUntil)
    {
      failures := if failures == U32_MAX then failures else failures + 1;
      lastAttempt := Some(now);
      if failures >= ATTEMPTS_BEFORE_LOCKOUT {
        lockedUntil := Some(now + LOCKOUT);
        failures := 0;
        return Some(LockedOut(LOCKOUT / SECOND));
      }
      return None;
    }

    method RecordSuccess()
      modifies this
      ensures State() == FRESH
    {
      failures, lastAttempt, lockedUntil := 0, None, None;
    }

    static method Load(file: File) returns (r: Result<PairingGuard, GuardError>)
      ensures r.Ok? ==> fresh(r.value)
      ensures match file
              case Missing => r.Ok? && r.value.State() == FRESH
              case Unreadable => r == Err(ReadError)
              case Malformed => r == Err(MalformedState)
              case Stored(s) => r.Ok? && r.value.State() == Restoring(s)
    {
      match file {
        case Missing =>
          var g := new PairingGuard(FRESH);
          return Ok(g);
        case Unreadable => return Err(ReadError);
        case Malformed => return Err(MalformedState);
        case Stored(s) =>
          var g := new PairingGuard(Restoring(s));
          return Ok(g);
      }
    }

    method Save(before: File, writes: bool) returns (after: File)
      ensures after == if writes then Stored(Saving(State())) else before
    {
      if !writes {
        return before;
      }
      return Stored(StoredGuard(failures,
                                if lastAttempt.Some? then TimeToEpoch(lastAttempt.value) else None,
                                if lockedUntil.Some? then TimeToEpoch(lockedUntil.value) else None));
    }
  }

  // -------------------------------------------------------- the pair command

  // One run of the command: when it checks the throttle, when its exchange ends, how, and whether
  // the state can be saved afterwards.
  datatype Attempt = Attempt(checkedAt: int, endedAt: int, paired: bool, writes: bool)

  datatype Outcome = NotStarted | Refused | Paired | FailedAt(time: int)

  function Attempting(file: File, a: Attempt): (File, Outcome)
  {
    match file
    case Unreadable => (file, NotStarted)
    case Malformed => (file, NotStarted)
    case _ =>
      var g := if file.Stored? then Restoring(file.guard) else FRESH;
      if Checked(g, a.checkedAt).Some? then (file, Refused)
      else if a.paired then (if a.writes then Stored(Saving(FRESH)) else file, Paired)
      else (if a.writes then Stored(Saving(WithFailure(g, a.endedAt))) else file, FailedAt(a.endedAt))
  }

  function FailuresIn(file: File): u32
  {
    if file.Stored? then file.guard.failures else 0
  }

  // The throttle is asked before a code exists: a refused run mints none and leaves the file alone.
  method PairCommand(file: File, a: Attempt) returns (after: File, outcome: Outcome, minted: bool)
    ensures (after, outcome) == Attempting(file, a)
    ensures minted <==> outcome.Paired? || outcome.FailedAt?
    ensures !minted ==> after == file
    ensures outcome.NotStarted? <==> file.Unreadable? || file.Malformed?
    ensures outcome.Paired? ==> after == if a.writes then Stored(StoredGuard(0, None, None)) else file
    ensures outcome.FailedAt? && a.writes && a.endedAt >= 0 ==>
      && after.Stored? && after.guard.lastAttempt == Some(a.endedAt / SECOND)
      && (after.guard.failures == 0 <==> FailuresIn(file) + 1 >= 5)
      && (if FailuresIn(file) + 1 >= 5 then after.guard.lockedUntil == Some((a.endedAt + 300 * SECOND) / SECOND)
          else after.guard.failures == FailuresIn(file) + 1)
  {
    minted := false;
    var loaded := PairingGuard.Load(file);
    if loaded.Err? {
      return file, NotStarted, minted;
    }
    var guard := loaded.value;
    var refusal := guard.Check(a.checkedAt);
    if refusal.Some? {
      return file, Refused, minted;
    }
    minted := true;
    if a.paired {
      guard.RecordSuccess();
      after := guard.Save(file, a.writes);
      return after, Paired, minted;
    }
    var _ := guard.RecordFailure(a.endedAt);
    after := guard.Save(file, a.writes);
    return after, FailedAt(a.endedAt), minted;
  }

  // ---------------------------------------------------------------- the bounds

  // A series of runs, and the failures in it since the last success.
  function RunAll(file: File, attempts: seq<Attempt>): (File, seq<int>)
  {
    if attempts == [] then (file, [])
    else
      var (before, streak) := RunAll(file, attempts[..|attempts| - 1]);
      var (after, outcome) := Attempting(before, attempts[|attempts| - 1]);
      (after, match outcome
              case FailedAt(time) => streak + [time]
              case Paired => []
              case _ => streak)
  }

  // Runs one after another, on a clock that never goes back and is past the epoch, all saved.
  predicate Sequential(attempts: seq<Attempt>)
  {
    && (forall i :: 0 <= i < |attempts| ==> 0 <= attempts[i].checkedAt <= attempts[i].endedAt && attempts[i].writes)
    && (forall i :: 0 < i < |attempts| ==> attempts[i - 1].endedAt <= attempts[i].checkedAt)
  }

  // What the file knows about the failures since the last success.
  predicate Remembers(file: File, streak: seq<int>)
  {
    streak != [] ==>
      var n := |streak|;
      && file.Stored? && file.guard.failures < ATTEMPTS_BEFORE_LOCKOUT
      && streak[n - 1] >= 0 && file.guard.lastAttempt == Some(streak[n - 1] / SECOND)
      // The last lockout was set when the count was last reset, if that was in this streak.
      && (file.guard.failures < n ==>
            var locked := streak[n - 1 - file.guard.failures];
            locked >= 0 && file.guard.lockedUntil == Some((locked + LOCKOUT) / SECOND))
  }

  predicate Spaced(streak: seq<int>)
  {
    && (forall i, j :: 0 <= i < j < |streak| ==> streak[j] - streak[i] > SECOND)
    && (forall i, j :: 0 <= i && i + 5 <= j < |streak| ==> streak[j] - streak[i] > 299 * SECOND)
  }

  // A new failure passed the check after the last one was saved.
  lemma CheckedIsLater(file: File, streak: seq<int>, a: Attempt)
    requires Remembers(file, streak) && streak != [] && a.checkedAt <= a.endedAt && a.writes
    requires Attempting(file, a).1 == FailedAt(a.endedAt)
    ensures a.endedAt - streak[|streak| - 1] > SECOND
    ensures file.guard.failures < |streak| ==>
      a.endedAt - streak[|streak| - 1 - file.guard.failures] > 299 * SECOND
  {
    var g := Restoring(file.guard);
    assert Checked(g, a.checkedAt).None?;
    assert a.checkedAt - g.lastAttempt.value >= SPACING;
  }

  lemma FailureRemembered(file: File, streak: seq<int>, a: Attempt)
    requires Remembers(file, streak) && 0 <= a.checkedAt <= a.endedAt && a.writes
    requires Attempting(file, a).1 == FailedAt(a.endedAt)
    ensures Remembers(Attempting(file, a).0, streak + [a.endedAt])
  {
    var g := if file.Stored? then Restoring(file.guard) else FRESH;
    var n := |streak|;
    var g' := WithFailure(g, a.endedAt);
    if g'.failures != 0 && g'.failures < n + 1 {
      assert (streak + [a.endedAt])[n - g'.failures] == streak[n - 1 - g.failures];
      FileTruncates(g');
      assert g'.lockedUntil == g.lockedUntil;
    }
  }

  lemma SpacedExtends(file: File, streak: seq<int>, a: Attempt)
    requires Remembers(file, streak) && Spaced(streak) && 0 <= a.checkedAt <= a.endedAt && a.writes
    requires Attempting(file, a).1 == FailedAt(a.endedAt)
    ensures Spaced(streak + [a.endedAt])
  {
    var n := |streak|;
    if n > 0 {
      CheckedIsLater(file, streak, a);
    }
  }

  lemma {:induction false} StreakIsSpaced(file: File, attempts: seq<Attempt>)
    requires Sequential(attempts)
    ensures (var (after, streak) := RunAll(file, attempts); Remembers(after, streak) && Spaced(streak))
  {
    if attempts != [] {
      var n := |attempts| - 1;
      StreakIsSpaced(file, attempts[..n]);
      var (before, streak) := RunAll(file, attempts[..n]);
      if Attempting(before, attempts[n]).1.FailedAt? {
        FailureRemembered(before, streak, attempts[n]);
        SpacedExtends(before, streak, attempts[n]);
      }
    }
  }

  // Whatever the file held at first: of the failures since the last success, any two are more than a
  // second apart and any six in a row span more than 299 seconds.
  lemma RateBound(file: File, attempts: seq<Attempt>, i: nat)
    requires Sequential(attempts)
    ensures (var streak := RunAll(file, attempts).1;
             && (i + 1 < |streak| ==> streak[i + 1] - streak[i] > SECOND)
             && (i + 5 < |streak| ==> streak[i + 5] - streak[i] > 299 * SECOND))
  {
    StreakIsSpaced(file, attempts);
  }

  // The state that the next run finds after a failure, whatever the guard was when its check passed.
  function FoundAfter(g: Guard, failedAt: int): Guard
  {
    Restoring(Saving(WithFailure(g, failedAt)))
  }

  predicate Locks(g: Guard)
  {
    g.failures + 1 >= ATTEMPTS_BEFORE_LOCKOUT
  }

  // From then on an attempt is allowed exactly from the nominal time on, counted from the second of
  // the failure: 300 s after one that locks, 2 s after any other.
  lemma NextAttemptIff(g: Guard, checkedAt: int, failedAt: nat, now: int)
    requires Checked(g, checkedAt).None? && checkedAt <= failedAt
    ensures Checked(FoundAfter(g, failedAt), now).None?
       <==> now >= failedAt / SECOND * SECOND + if Locks(g) then LOCKOUT else SPACING
  {
    FileTruncates(WithFailure(g, failedAt));
  }

  // The nominal two seconds are kept after a failure that does not lock exactly when it happened on a
  // whole second, on every guard that let its run start.
  lemma FullSpacingIff(g: Guard, checkedAt: int, failedAt: nat)
    requires Checked(g, checkedAt).None? && checkedAt <= failedAt && !Locks(g)
    ensures (forall now: int :: now >= failedAt && Checked(FoundAfter(g, failedAt), now).None? ==> now - failedAt >= SPACING)
       <==> failedAt % SECOND == 0
  {
    forall now: int ensures Checked(FoundAfter(g, failedAt), now).None? <==> now >= failedAt / SECOND * SECOND + SPACING {
      NextAttemptIff(g, checkedAt, failedAt, now);
    }
    assert Checked(FoundAfter(g, failedAt), failedAt / SECOND * SECOND + SPACING).None?;
  }

  // And so are the nominal 300 seconds after a failure that locks.
  lemma FullLockoutIff(g: Guard, checkedAt: int, failedAt: nat)
    requires Checked(g, checkedAt).None? && checkedAt <= failedAt && Locks(g)
    ensures (forall now: int :: now >= failedAt && Checked(FoundAfter(g, failedAt), now).None? ==> now - failedAt >= LOCKOUT)
       <==> failedAt % SECOND == 0
  {
    forall now: int ensures Checked(FoundAfter(g, failedAt), now).None? <==> now >= failedAt / SECOND * SECOND + LOCKOUT {
      NextAttemptIff(g, checkedAt, failedAt, now);
    }
    assert Checked(FoundAfter(g, failedAt), failedAt / SECOND * SECOND + LOCKOUT).None?;
  }
}
