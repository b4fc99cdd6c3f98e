/** The sign-in lockout: a gate before the password check, one atomic UPDATE after a failure and a
    reset after a success. */
module SignInLockout {
  import opened Wrappers

  const MAX_LOGIN_ATTEMPTS: nat := 5

  /** Fifteen minutes, in milliseconds. */
  const LOCK_MS: nat := 15 * 60_000

  datatype Row = Row(failedLoginAttempts: nat, lockedUntil: Option<int>)

  const FRESH: Row := Row(0, None)

  predicate Blocked(row: Row, now: int) {
    row.lockedUntil.Some? && row.lockedUntil.value > now
  }

  /** The UPDATE of a failed sign-in. */
  function Failed(row: Row, lockUntil: int): Row {
    var n := row.failedLoginAttempts + 1;
    Row(n, if n >= MAX_LOGIN_ATTEMPTS then Some(lockUntil) else row.lockedUntil)
  }

  // ---------- the hooks ----------

  datatype Logged = SignInBlocked | SignInSuccess | UnknownEmail | LockedNow | FailedSignIn

  /** The columns of the user table that the lockout uses. */
  class UserTable {
    var rows: map<string, Row>

    /** The gate in front of the password check. An email without a row passes. */
    method Gate(email: string, now: int) returns (passes: bool)
      ensures passes <==> !(email in rows && Blocked(rows[email], now))
    {
      passes := true;
      if email in rows {
        var lockedUntil := rows[email].lockedUntil;
        if lockedUntil.Some? && lockedUntil.value > now {
          passes := false;
        }
      }
    }

    method ResetFailedLoginAttempts(email: string) returns (log: Logged)
      modifies this
      ensures rows == if email in old(rows) then old(rows)[email := FRESH] else old(rows)
      ensures log == SignInSuccess
    {
      if email in rows {
        rows := rows[email := Row(0, None)];
      }
      log := SignInSuccess;
    }

    /** `now` is read before the UPDATE and `later` after it. */
    method RecordFailedLogin(email: string, now: int, later: int) returns (log: Logged)
      modifies this
      ensures rows == if email in old(rows) then old(rows)[email := Failed(old(rows)[email], now + LOCK_MS)]
                      else old(rows)
      ensures log == UnknownEmail <==> email !in old(rows)
      ensures log == LockedNow <==>
              email in rows && rows[email].failedLoginAttempts >= MAX_LOGIN_ATTEMPTS && Blocked(rows[email], later)
      ensures log in {UnknownEmail, LockedNow, FailedSignIn}
    {
      var lockUntil := now + LOCK_MS;
      if email !in rows {
        return UnknownEmail;
      }
      var row := rows[email];
      var attempts := row.failedLoginAttempts + 1;
      var locked := row.lockedUntil;
      if attempts >= MAX_LOGIN_ATTEMPTS {
        locked := Some(lockUntil);
      }
      rows := rows[email := Row(attempts, locked)];
      var justLocked := attempts >= MAX_LOGIN_ATTEMPTS && locked.Some? && locked.value > later;
      log := if justLocked then LockedNow else FailedSignIn;
    }

    /** The hook after the sign-in endpoint. */
    method AfterSignIn(email: string, newSession: bool, now: int, later: int) returns (log: Logged)
      modifies this
      ensures email !in old(rows) ==> rows == old(rows)
      ensures email in old(rows) ==>
                rows == old(rows)[email := if newSession then FRESH else Failed(old(rows)[email], now + LOCK_MS)]
      ensures log == SignInSuccess <==> newSession
    {
      if newSession {
        log := ResetFailedLoginAttempts(email);
      } else {
        log := RecordFailedLogin(email, now, later);
      }
    }
  }

  // ---------- one attempt at a time ----------

  /** A failing attempt at a time; `counted` says whether the hook after it also runs if it is blocked. */
  datatype Attempt = Attempt(at: int, counted: bool)

  function AfterAttempt(row: Row, a: Attempt): Row {
    if Blocked(row, a.at) && !a.counted then row else Failed(row, a.at + LOCK_MS)
  }

  /** How many of the attempts pass the gate between `from` and `to`. */
  function Passing(row: Row, attempts: seq<Attempt>, from: int, to: int): nat
    decreases |attempts|
  {
    if attempts == [] then 0
    else
      var a := attempts[0];
      (if !Blocked(row, a.at) && from <= a.at <= to then 1 else 0)
      + Passing(AfterAttempt(row, a), attempts[1..], from, to)
  }

  ghost predicate InOrder(attempts: seq<Attempt>) {
    forall i, j | 0 <= i < j < |attempts| :: attempts[i].at <= attempts[j].at
  }

  /** Before the attempts at `now` or later: the lock does not reach further than it may, and after
      `c` passes from `from` on it reaches at least `c - 4` lock times beyond `from`. */
  ghost predicate Holding(row: Row, c: nat, from: int, now: int) {
    && c <= row.failedLoginAttempts
    && (row.failedLoginAttempts >= MAX_LOGIN_ATTEMPTS ==> row.lockedUntil.Some?)
    && (row.lockedUntil.Some? ==> row.lockedUntil.value <= now + LOCK_MS)
    && (c >= MAX_LOGIN_ATTEMPTS ==> row.lockedUntil.value >= from + (c - 4) * LOCK_MS)
  }

  lemma {:induction false} PassingBound(row: Row, attempts: seq<Attempt>, c: nat, from: int, now: int, span: nat)
    requires InOrder(attempts) && (attempts != [] ==> now <= attempts[0].at)
    requires Holding(row, c, from, now) && (c > MAX_LOGIN_ATTEMPTS ==> (c - 5) * LOCK_MS <= span)
    ensures var n := c + Passing(row, attempts, from, from + span);
            n > MAX_LOGIN_ATTEMPTS ==> (n - 5) * LOCK_MS <= span
    decreases |attempts|
  {
    if attempts == [] {
    } else {
      var a := attempts[0];
      var next := AfterAttempt(row, a);
      var counts := !Blocked(row, a.at) && from <= a.at <= from + span;
      var d := if counts then c + 1 else c;
      if d >= MAX_LOGIN_ATTEMPTS && next != row {
        assert next.lockedUntil == Some(a.at + LOCK_MS);
        assert a.at + LOCK_MS >= from + (d - 4) * LOCK_MS by {
          if counts && c >= MAX_LOGIN_ATTEMPTS {
            assert a.at >= from + (c - 4) * LOCK_MS;
          } else if !counts {
            assert a.at + LOCK_MS >= row.lockedUntil.value;
          }
        }
      }
      assert Holding(next, d, from, a.at);
      assert d > MAX_LOGIN_ATTEMPTS ==> (d - 5) * LOCK_MS <= span;
      PassingBound(next, attempts[1..], d, from, a.at, span);
    }
  }

  /** Starting from a fresh row, of any failing attempts made one after the other at most five, and
      one more for each whole lock time, pass the gate within any span of time. */
  lemma RateBound(attempts: seq<Attempt>, from: int, span: nat)
    requires InOrder(attempts)
    ensures Passing(FRESH, attempts, from, from + span) <= MAX_LOGIN_ATTEMPTS + span / LOCK_MS
  {
    if attempts != [] {
      PassingBound(FRESH, attempts, 0, from, attempts[0].at, span);
      var n := Passing(FRESH, attempts, from, from + span);
      if n > MAX_LOGIN_ATTEMPTS {
        DivisionBound(n - 5, LOCK_MS, span);
      }
    }
  }

  lemma DivisionBound(k: nat, d: nat, n: nat)
    requires d > 0 && k * d <= n
    ensures k <= n / d
  {
    assert n == (n / d) * d + n % d;
    ProductGrows(n / d + 1, k, d);
  }

  lemma ProductGrows(a: nat, b: nat, d: nat)
    ensures a <= b ==> a * d <= b * d
  {
  }

  /** Five attempts at once, and then one whenever the lock has just run out. */
  function Persistent(k: nat): seq<Attempt> {
    if k == 0 then seq(MAX_LOGIN_ATTEMPTS, _ => Attempt(0, false))
    else Persistent(k - 1) + [Attempt(k * LOCK_MS, false)]
  }

  function AfterAll(row: Row, attempts: seq<Attempt>): Row
    decreases |attempts|
  {
    if attempts == [] then row else AfterAll(AfterAttempt(row, attempts[0]), attempts[1..])
  }

  lemma {:induction false} PassingSnoc(row: Row, attempts: seq<Attempt>, a: Attempt, from: int, to: int)
    ensures Passing(row, attempts + [a], from, to) ==
            Passing(row, attempts, from, to)
            + if !Blocked(AfterAll(row, attempts), a.at) && from <= a.at <= to then 1 else 0
    ensures AfterAll(row, attempts + [a]) == AfterAttempt(AfterAll(row, attempts), a)
    decreases |attempts|
  {
    if attempts == [] {
      assert attempts + [a] == [a];
    } else {
      assert (attempts + [a])[1..] == attempts[1..] + [a];
      PassingSnoc(AfterAttempt(row, attempts[0]), attempts[1..], a, from, to);
    }
  }

  lemma {:induction false} PassingNarrow(row: Row, attempts: seq<Attempt>, from: int, to: int, further: int)
    requires to <= further && forall a <- attempts :: a.at <= to
    ensures Passing(row, attempts, from, further) == Passing(row, attempts, from, to)
    decreases |attempts|
  {
    if attempts == [] {
    } else {
      assert attempts[0] in attempts;
      PassingNarrow(AfterAttempt(row, attempts[0]), attempts[1..], from, to, further);
    }
  }

  lemma NextPasses(k: nat)
    requires k > 0
    ensures k * LOCK_MS == (k - 1) * LOCK_MS + LOCK_MS
    ensures var row := Row(MAX_LOGIN_ATTEMPTS + k - 1, Some(k * LOCK_MS));
            && !Blocked(row, k * LOCK_MS)
            && AfterAttempt(row, Attempt(k * LOCK_MS, false)) == Row(MAX_LOGIN_ATTEMPTS + k, Some((k + 1) * LOCK_MS))
  {
  }

  lemma {:induction false} PersistentInOrder(k: nat)
    ensures InOrder(Persistent(k)) && forall a <- Persistent(k) :: a.at <= k * LOCK_MS
  {
    if k == 0 {
    } else {
      PersistentInOrder(k - 1);
    }
  }

  /** The bound is reached, for every span of whole lock times. */
  lemma {:induction false} RateBoundIsReached(k: nat)
    ensures Passing(FRESH, Persistent(k), 0, k * LOCK_MS) == MAX_LOGIN_ATTEMPTS + k
    ensures AfterAll(FRESH, Persistent(k)) == Row(MAX_LOGIN_ATTEMPTS + k, Some((k + 1) * LOCK_MS))
  {
    if k == 0 {
      FiveAtOnce();
    } else {
      var before, a := Persistent(k - 1), Attempt(k * LOCK_MS, false);
      RateBoundIsReached(k - 1);
      PersistentInOrder(k - 1);
      NextPasses(k);
      PassingSnoc(FRESH, before, a, 0, k * LOCK_MS);
      PassingNarrow(FRESH, before, 0, (k - 1) * LOCK_MS, k * LOCK_MS);
    }
  }

  lemma FiveAtOnce()
    ensures Passing(FRESH, Persistent(0), 0, 0) == MAX_LOGIN_ATTEMPTS
    ensures AfterAll(FRESH, Persistent(0)) == Row(MAX_LOGIN_ATTEMPTS, Some(LOCK_MS))
  {
    var a := Attempt(0, false);
    var s: seq<Attempt> := [];
    var n := 0;
    while n < MAX_LOGIN_ATTEMPTS
      invariant n <= MAX_LOGIN_ATTEMPTS && |s| == n && forall i | 0 <= i < n :: s[i] == a
      invariant Passing(FRESH, s, 0, 0) == n
      invariant AfterAll(FRESH, s) == Row(n, if n == MAX_LOGIN_ATTEMPTS then Some(LOCK_MS) else None)
    {
      PassingSnoc(FRESH, s, a, 0, 0);
      s, n := s + [a], n + 1;
    }
    assert s == Persistent(0);
  }

  // ---------- any number of attempts at once ----------

  /** How far a concurrent attempt has come: it has read the lock; it is past the gate; it was refused
      there, but the hook after it still runs; it has taken the time for its UPDATE. */
  datatype Phase = Looked(lock: Option<int>) | Past | Refused | Stamped(lockUntil: int)

  /** One account under concurrent attempts. `updates` counts the UPDATEs since the last reset. */
  datatype System = System(row: Row, clock: int, inFlight: map<int, Phase>, updates: nat)

  datatype Step =
    | Tick(ms: nat)
    | Look(id: int)
    | Decide(id: int, counted: bool)
    | Stamp(id: int)
    | Update(id: int)
    | Succeed(id: int)

  predicate Enabled(sys: System, step: Step) {
    match step
    case Tick(_) => true
    case Look(id) => id !in sys.inFlight
    case Decide(id, _) => id in sys.inFlight && sys.inFlight[id].Looked?
    case Stamp(id) => id in sys.inFlight && (sys.inFlight[id].Past? || sys.inFlight[id].Refused?)
    case Update(id) => id in sys.inFlight && sys.inFlight[id].Stamped?
    case Succeed(id) => id in sys.inFlight && sys.inFlight[id].Past?
  }

  function Apply(sys: System, step: Step): System
    requires Enabled(sys, step)
  {
    match step
    case Tick(ms) => sys.(clock := sys.clock + ms)
    case Look(id) => sys.(inFlight := sys.inFlight[id := Looked(sys.row.lockedUntil)])
    case Decide(id, counted) =>
      var lock := sys.inFlight[id].lock;
      if !(lock.Some? && lock.value > sys.clock) then sys.(inFlight := sys.inFlight[id := Past])
      else if counted then sys.(inFlight := sys.inFlight[id := Refused])
      else sys.(inFlight := sys.inFlight - {id})
    case Stamp(id) => sys.(inFlight := sys.inFlight[id := Stamped(sys.clock + LOCK_MS)])
    case Update(id) =>
      sys.(row := Failed(sys.row, sys.inFlight[id].lockUntil), inFlight := sys.inFlight - {id},
           updates := sys.updates + 1)
    case Succeed(id) => sys.(row := FRESH, inFlight := sys.inFlight - {id}, updates := 0)
  }

  ghost predicate CanRun(sys: System, steps: seq<Step>)
    decreases |steps|
  {
    steps == [] || (Enabled(sys, steps[0]) && CanRun(Apply(sys, steps[0]), steps[1..]))
  }

  ghost function Run(sys: System, steps: seq<Step>): System
    requires CanRun(sys, steps)
    decreases |steps|
  {
    if steps == [] then sys else Run(Apply(sys, steps[0]), steps[1..])
  }

  function Start(now: int): System {
    System(FRESH, now, map[], 0)
  }

  /** A lock end that an attempt made between `start` and `now` can have asked for. */
  predicate InWindow(lockUntil: int, start: int, now: int) {
    start + LOCK_MS <= lockUntil <= now + LOCK_MS
  }

  ghost predicate Consistent(sys: System, start: int) {
    && start <= sys.clock
    && sys.row.failedLoginAttempts == sys.updates
    && (sys.row.lockedUntil.Some? <==> sys.updates >= MAX_LOGIN_ATTEMPTS)
    && (sys.row.lockedUntil.Some? ==> InWindow(sys.row.lockedUntil.value, start, sys.clock))
    && (forall id <- sys.inFlight :: sys.inFlight[id].Stamped? ==>
          InWindow(sys.inFlight[id].lockUntil, start, sys.clock))
  }

  lemma StepKeepsConsistent(sys: System, step: Step, start: int)
    requires Consistent(sys, start) && Enabled(sys, step)
    ensures Consistent(Apply(sys, step), start)
  {
  }

  /** In every reachable state the counter is the number of UPDATEs since the last reset, there is a
      lock exactly when that is five or more, and the lock ends within one lock time from now. */
  lemma {:induction false} AllRunsConsistent(sys: System, steps: seq<Step>, start: int)
    requires Consistent(sys, start) && CanRun(sys, steps)
    ensures Consistent(Run(sys, steps), start)
    decreases |steps|
  {
    if steps == [] {
    } else {
      StepKeepsConsistent(sys, steps[0], start);
      AllRunsConsistent(Apply(sys, steps[0]), steps[1..], start);
    }
  }

  function Updates(steps: seq<Step>): nat {
    if steps == [] then 0 else (if steps[0].Update? then 1 else 0) + Updates(steps[1..])
  }

  ghost predicate NoSuccess(steps: seq<Step>) {
    forall step <- steps :: !step.Succeed?
  }

  lemma {:induction false} UpdatesCounted(sys: System, steps: seq<Step>)
    requires CanRun(sys, steps) && NoSuccess(steps)
    ensures Run(sys, steps).updates == sys.updates + Updates(steps)
    decreases |steps|
  {
    if steps == [] {
    } else {
      assert steps[0] in steps && forall step <- steps[1..] :: step in steps;
      UpdatesCounted(Apply(sys, steps[0]), steps[1..]);
    }
  }

  /** The lock end that the last UPDATE of a run asked for, as its attempt had stamped it. */
  ghost function LastAsked(sys: System, steps: seq<Step>): Option<int>
    requires CanRun(sys, steps)
    decreases |steps|
  {
    if steps == [] then None
    else
      var later := LastAsked(Apply(sys, steps[0]), steps[1..]);
      if later.Some? then later else AskedBy(sys, steps[0])
  }

  function AskedBy(sys: System, step: Step): Option<int>
    requires Enabled(sys, step)
  {
    if step.Update? then Some(sys.inFlight[step.id].lockUntil) else None
  }

  /** The lock is what was asked for last, from the fifth UPDATE on. */
  ghost predicate LockedAs(sys: System, asked: Option<int>) {
    && sys.row == Row(sys.updates, if sys.updates >= MAX_LOGIN_ATTEMPTS then asked else None)
    && (sys.updates > 0 ==> asked.Some?)
  }

  lemma LockedAsStep(sys: System, step: Step, asked: Option<int>)
    requires LockedAs(sys, asked) && Enabled(sys, step)
    ensures LockedAs(Apply(sys, step), if AskedBy(sys, step).Some? then AskedBy(sys, step) else asked)
  {
  }

  lemma {:induction false} LockedAsRun(sys: System, steps: seq<Step>, asked: Option<int>)
    requires CanRun(sys, steps) && LockedAs(sys, asked)
    ensures LockedAs(Run(sys, steps), if LastAsked(sys, steps).Some? then LastAsked(sys, steps) else asked)
    decreases |steps|
  {
    if steps == [] {
    } else {
      LockedAsStep(sys, steps[0], asked);
      LockedAsRun(Apply(sys, steps[0]), steps[1..],
                  if AskedBy(sys, steps[0]).Some? then AskedBy(sys, steps[0]) else asked);
    }
  }

  /** However attempts interleave and succeed in between, an account is locked exactly when there were five
      UPDATEs since the last reset, and until the time the last of them asked for, early or late. */
  lemma LastUpdateDecides(steps: seq<Step>, start: int, now: int)
    requires CanRun(Start(start), steps)
    ensures var sys, last := Run(Start(start), steps), LastAsked(Start(start), steps);
            Blocked(sys.row, now) <==> sys.updates >= MAX_LOGIN_ATTEMPTS && last.Some? && last.value > now
  {
    LockedAsRun(Start(start), steps, None);
  }

  /** Without a success five failures lock the account, until the time the last of them asked for and so for
      at least one lock time from the start; fewer never do. */
  lemma FiveFailuresLock(steps: seq<Step>, start: int, now: int)
    requires CanRun(Start(start), steps) && NoSuccess(steps)
    ensures var row, last := Run(Start(start), steps).row, LastAsked(Start(start), steps);
            && row.failedLoginAttempts == Updates(steps)
            && (Blocked(row, now) <==> Updates(steps) >= MAX_LOGIN_ATTEMPTS && last.Some? && last.value > now)
            && (Updates(steps) >= MAX_LOGIN_ATTEMPTS && now < start + LOCK_MS ==> Blocked(row, now))
  {
    AllRunsConsistent(Start(start), steps, start);
    UpdatesCounted(Start(start), steps);
    LastUpdateDecides(steps, start, now);
  }

  // ---------- attempts that overlap, and attempts that do not ----------

  /** The step lets an attempt pass the gate. */
  predicate PassesGate(sys: System, step: Step)
    requires Enabled(sys, step)
  {
    step.Decide? &&
    var lock := sys.inFlight[step.id].lock;
    !(lock.Some? && lock.value > sys.clock)
  }

  /** How many attempts pass the gate between `from` and `to`. */
  ghost function Passes(sys: System, steps: seq<Step>, from: int, to: int): nat
    requires CanRun(sys, steps)
    decreases |steps|
  {
    if steps == [] then 0
    else
      Counts(sys, steps[0], from, to) + Passes(Apply(sys, steps[0]), steps[1..], from, to)
  }

  /** There are never more than `w` attempts in flight. */
  ghost predicate Wide(sys: System, steps: seq<Step>, w: nat)
    requires CanRun(sys, steps)
    decreases |steps|
  {
    |sys.inFlight| <= w && (steps == [] || Wide(Apply(sys, steps[0]), steps[1..], w))
  }

  lemma {:induction false} Wider(sys: System, steps: seq<Step>, v: nat, w: nat)
    requires CanRun(sys, steps) && Wide(sys, steps, v) && v <= w
    ensures Wide(sys, steps, w)
    decreases |steps|
  {
    if steps == [] {
    } else {
      Wider(Apply(sys, steps[0]), steps[1..], v, w);
    }
  }

  lemma {:induction false} CountAppend(sys: System, a: seq<Step>, b: seq<Step>, from: int, to: int, w: nat)
    requires CanRun(sys, a) && CanRun(Run(sys, a), b)
    ensures CanRun(sys, a + b)
    ensures Passes(sys, a + b, from, to) == Passes(sys, a, from, to) + Passes(Run(sys, a), b, from, to)
    ensures Wide(sys, a, w) && Wide(Run(sys, a), b, w) ==> Wide(sys, a + b, w)
    decreases |a|
  {
    RunAppend(sys, a, b);
    if a == [] {
      assert a + b == b;
    } else {
      assert (a + b)[0] == a[0] && (a + b)[1..] == a[1..] + b;
      CountAppend(Apply(sys, a[0]), a[1..], b, from, to, w);
    }
  }

  /** With at most one attempt in flight, after `c` passes between `from` and `to`: how far the lock
      reaches, or will once that attempt has counted. */
  ghost predicate Alone(sys: System, c: nat, start: int, from: int, to: int) {
    && Consistent(sys, start) && (c > MAX_LOGIN_ATTEMPTS ==> (c - 5) * LOCK_MS <= to - from)
    && (forall i <- sys.inFlight, j <- sys.inFlight :: i == j)
    && (forall id <- sys.inFlight :: sys.inFlight[id].Looked? ==> sys.inFlight[id].lock == sys.row.lockedUntil)
    && (if exists id <- sys.inFlight :: sys.inFlight[id].Past? || sys.inFlight[id].Stamped? then
          && c <= sys.updates + 1
          && (c >= MAX_LOGIN_ATTEMPTS ==>
                forall id <- sys.inFlight :: Pending(sys, sys.inFlight[id], from + (c - 5) * LOCK_MS))
        else
          c <= sys.updates && (c >= MAX_LOGIN_ATTEMPTS ==> sys.row.lockedUntil.value >= from + (c - 4) * LOCK_MS))
  }

  /** The attempt passed no earlier than `time`, or asks for a lock no shorter than if it had passed then. */
  ghost predicate Pending(sys: System, phase: Phase, time: int) {
    && (phase.Past? ==> sys.clock >= time)
    && (phase.Stamped? ==> phase.lockUntil >= time + LOCK_MS)
  }

  lemma AloneStep(sys: System, step: Step, c: nat, start: int, from: int, to: int)
    requires Alone(sys, c, start, from, to) && Enabled(sys, step) && !step.Succeed?
    requires forall i <- Apply(sys, step).inFlight, j <- Apply(sys, step).inFlight :: i == j
    ensures Alone(Apply(sys, step), c + Counts(sys, step, from, to), start, from, to)
  {
    StepKeepsConsistent(sys, step, start);
    match step
    case Tick(_) => AloneTick(sys, step, c, start, from, to);
    case Look(_) => AloneLook(sys, step, c, start, from, to);
    case Decide(_, _) => AloneDecide(sys, step, c, start, from, to);
    case Stamp(_) => AloneStamp(sys, step, c, start, from, to);
    case Update(_) => AloneUpdate(sys, step, c, start, from, to);
  }

  /** One if the step lets an attempt pass between `from` and `to`, and else zero. */
  function Counts(sys: System, step: Step, from: int, to: int): nat
    requires Enabled(sys, step)
  {
    if PassesGate(sys, step) && from <= sys.clock <= to then 1 else 0
  }

  lemma AloneTick(sys: System, step: Step, c: nat, start: int, from: int, to: int)
    requires Alone(sys, c, start, from, to) && step.Tick? && Consistent(Apply(sys, step), start)
    ensures Alone(Apply(sys, step), c, start, from, to)
  {
    assert Apply(sys, step).inFlight == sys.inFlight;
  }

  lemma AloneLook(sys: System, step: Step, c: nat, start: int, from: int, to: int)
    requires Alone(sys, c, start, from, to) && step.Look? && Enabled(sys, step) && Consistent(Apply(sys, step), start)
    requires forall i <- Apply(sys, step).inFlight, j <- Apply(sys, step).inFlight :: i == j
    ensures Alone(Apply(sys, step), c, start, from, to)
  {
    var next := Apply(sys, step);
    assert next.inFlight.Keys == sys.inFlight.Keys + {step.id};
    assert forall id <- next.inFlight :: id == step.id;
    assert sys.inFlight.Keys <= next.inFlight.Keys == {step.id};
    assert sys.inFlight.Keys == {};
  }

  lemma AloneDecide(sys: System, step: Step, c: nat, start: int, from: int, to: int)
    requires Alone(sys, c, start, from, to) && step.Decide? && Enabled(sys, step) && Consistent(Apply(sys, step), start)
    ensures Alone(Apply(sys, step), c + Counts(sys, step, from, to), start, from, to)
  {
    var next := Apply(sys, step);
    assert forall id <- sys.inFlight :: id == step.id;
    if PassesGate(sys, step) {
      assert step.id in next.inFlight && next.inFlight[step.id].Past?;
      assert c >= MAX_LOGIN_ATTEMPTS ==> sys.clock >= from + (c - 4) * LOCK_MS;
    }
  }

  lemma AloneStamp(sys: System, step: Step, c: nat, start: int, from: int, to: int)
    requires Alone(sys, c, start, from, to) && step.Stamp? && Enabled(sys, step) && Consistent(Apply(sys, step), start)
    ensures Alone(Apply(sys, step), c, start, from, to)
  {
    var next := Apply(sys, step);
    assert forall id <- sys.inFlight :: id == step.id;
    assert next.inFlight[step.id] == Stamped(sys.clock + LOCK_MS);
    if sys.inFlight[step.id].Refused? {
      assert c >= MAX_LOGIN_ATTEMPTS ==> sys.clock + LOCK_MS >= from + (c - 4) * LOCK_MS;
    }
  }

  lemma AloneUpdate(sys: System, step: Step, c: nat, start: int, from: int, to: int)
    requires Alone(sys, c, start, from, to) && step.Update? && Enabled(sys, step) && Consistent(Apply(sys, step), start)
    ensures Alone(Apply(sys, step), c, start, from, to)
  {
    assert forall id <- sys.inFlight :: id == step.id;
    assert Apply(sys, step).inFlight == map[];
    assert c >= MAX_LOGIN_ATTEMPTS ==> sys.inFlight[step.id].lockUntil >= from + (c - 5) * LOCK_MS + LOCK_MS;
  }

  lemma AtMostOne(m: map<int, Phase>, i: int, j: int)
    requires |m| <= 1 && i in m && j in m
    ensures i == j
  {
    if i != j {
      assert {i, j} <= m.Keys;
      CardinalityGrows({i, j}, m.Keys);
    }
  }

  lemma CardinalityGrows(a: set<int>, b: set<int>)
    requires a <= b
    ensures |a| <= |b|
  {
    assert b == a + (b - a);
  }

  lemma StaysAlone(sys: System, step: Step, c: nat, start: int, from: int, to: int)
    requires Alone(sys, c, start, from, to) && Enabled(sys, step) && !step.Succeed? && |Apply(sys, step).inFlight| <= 1
    ensures Alone(Apply(sys, step), c + Counts(sys, step, from, to), start, from, to)
  {
    var next := Apply(sys, step);
    forall i, j | i in next.inFlight && j in next.inFlight
      ensures i == j
    {
      AtMostOne(next.inFlight, i, j);
    }
    AloneStep(sys, step, c, start, from, to);
  }

  lemma FirstStep(sys: System, steps: seq<Step>, from: int, to: int)
    requires steps != [] && CanRun(sys, steps) && NoSuccess(steps) && Wide(sys, steps, 1)
    ensures var next, rest := Apply(sys, steps[0]), steps[1..];
            && CanRun(next, rest) && NoSuccess(rest) && !steps[0].Succeed?
            && Wide(next, rest, 1) && |next.inFlight| <= 1
            && Passes(sys, steps, from, to) == Counts(sys, steps[0], from, to) + Passes(next, rest, from, to)
  {
    assert steps[0] in steps && forall step <- steps[1..] :: step in steps;
  }

  lemma {:induction false} AloneRun(sys: System, steps: seq<Step>, c: nat, start: int, from: int, to: int)
    requires Alone(sys, c, start, from, to)
    requires CanRun(sys, steps) && NoSuccess(steps) && Wide(sys, steps, 1)
    ensures Alone(Run(sys, steps), c + Passes(sys, steps, from, to), start, from, to)
    decreases |steps|
  {
    if steps == [] {
    } else {
      var next, rest, d := Apply(sys, steps[0]), steps[1..], c + Counts(sys, steps[0], from, to);
      FirstStep(sys, steps, from, to);
      StaysAlone(sys, steps[0], c, start, from, to);
      AloneRun(next, rest, d, start, from, to);
      assert c + Passes(sys, steps, from, to) == d + Passes(next, rest, from, to);
    }
  }

  /** The rate bound in the interleaved system: it holds for every run without a success in which no two
      attempts overlap. */
  lemma SoloRateBound(steps: seq<Step>, start: int, from: int, span: nat)
    requires CanRun(Start(start), steps) && NoSuccess(steps) && Wide(Start(start), steps, 1)
    ensures Passes(Start(start), steps, from, from + span) <= MAX_LOGIN_ATTEMPTS + span / LOCK_MS
  {
    var n := Passes(Start(start), steps, from, from + span);
    assert n > MAX_LOGIN_ATTEMPTS ==> (n - 5) * LOCK_MS <= span by {
      AloneRun(Start(start), steps, 0, start, from, from + span);
    }
    WholeLockTimes(n, span);
  }

  lemma WholeLockTimes(n: nat, span: nat)
    requires n > MAX_LOGIN_ATTEMPTS ==> (n - 5) * LOCK_MS <= span
    ensures n <= MAX_LOGIN_ATTEMPTS + span / LOCK_MS
  {
    if n > MAX_LOGIN_ATTEMPTS {
      DivisionBound(n - 5, LOCK_MS, span);
    }
  }

  /** `k` failing attempts, one after the other. */
  function Failures(k: nat): seq<Step> {
    if k == 0 then [] else Failures(k - 1) + [Look(0), Decide(0, false), Stamp(0), Update(0)]
  }

  lemma OneStep(sys: System, step: Step, rest: seq<Step>, from: int, to: int, w: nat)
    requires Enabled(sys, step) && CanRun(Apply(sys, step), rest)
    ensures var steps := [step] + rest;
            && CanRun(sys, steps) && Run(sys, steps) == Run(Apply(sys, step), rest)
            && Passes(sys, steps, from, to) == Counts(sys, step, from, to) + Passes(Apply(sys, step), rest, from, to)
            && (Wide(sys, steps, w) <==> |sys.inFlight| <= w && Wide(Apply(sys, step), rest, w))
  {
    assert ([step] + rest)[1..] == rest;
  }

  lemma OneFails(sys: System, steps: seq<Step>)
    requires sys.row.lockedUntil.None? && sys.inFlight == map[] && sys.row.failedLoginAttempts + 1 < MAX_LOGIN_ATTEMPTS
    requires steps == [Look(0), Decide(0, false), Stamp(0), Update(0)]
    ensures CanRun(sys, steps) && Passes(sys, steps, sys.clock, sys.clock) == 1 && Wide(sys, steps, 1)
    ensures Run(sys, steps) == sys.(row := Row(sys.row.failedLoginAttempts + 1, None), updates := sys.updates + 1)
  {
    var now := sys.clock;
    var looked := sys.(inFlight := map[0 := Looked(None)]);
    var past := sys.(inFlight := map[0 := Past]);
    var stamped := sys.(inFlight := map[0 := Stamped(now + LOCK_MS)]);
    var done := sys.(row := Row(sys.row.failedLoginAttempts + 1, None), updates := sys.updates + 1);
    assert Apply(sys, Look(0)) == looked && Apply(looked, Decide(0, false)) == past;
    assert Apply(past, Stamp(0)) == stamped;
    assert Apply(stamped, Update(0)).inFlight == map[];
    assert Apply(stamped, Update(0)) == done;
    OneStep(stamped, Update(0), [], now, now, 1);
    OneStep(past, Stamp(0), [Update(0)], now, now, 1);
    OneStep(looked, Decide(0, false), [Stamp(0), Update(0)], now, now, 1);
    OneStep(sys, Look(0), [Decide(0, false), Stamp(0), Update(0)], now, now, 1);
    ShowSteps(steps);
  }

  lemma ShowSteps(steps: seq<Step>)
    requires steps == [Look(0), Decide(0, false), Stamp(0), Update(0)]
    ensures steps == [Look(0)] + [Decide(0, false), Stamp(0), Update(0)]
    ensures [Decide(0, false), Stamp(0), Update(0)] == [Decide(0, false)] + [Stamp(0), Update(0)]
    ensures [Stamp(0), Update(0)] == [Stamp(0)] + [Update(0)] && [Update(0)] == [Update(0)] + []
  {
  }

  lemma {:induction false} FailuresPass(k: nat, start: int)
    requires k < MAX_LOGIN_ATTEMPTS
    ensures CanRun(Start(start), Failures(k)) && Wide(Start(start), Failures(k), 1)
    ensures Passes(Start(start), Failures(k), start, start) == k
    ensures Run(Start(start), Failures(k)) == System(Row(k, None), start, map[], k)
  {
    if k == 0 {
    } else {
      FailuresPass(k - 1, start);
      var more := [Look(0), Decide(0, false), Stamp(0), Update(0)];
      OneFails(Run(Start(start), Failures(k - 1)), more);
      RunAppend(Start(start), Failures(k - 1), more);
      CountAppend(Start(start), Failures(k - 1), more, start, start, 1);
    }
  }

  /** With `w` attempts in flight at most, `4 + w` can pass at one instant: the bound is broken as soon as
      two can overlap, and by any number. */
  lemma OverlapBreaksBound(w: nat, start: int)
    requires w > 0
    ensures var steps := Failures(4) + Burst(w);
            && CanRun(Start(start), steps) && Wide(Start(start), steps, w)
            && Passes(Start(start), steps, start, start) == 4 + w
  {
    FailuresPass(4, start);
    var sys := Run(Start(start), Failures(4));
    AnyNumberPassAtOnce(sys, w);
    Wider(Start(start), Failures(4), 1, w);
    RunAppend(Start(start), Failures(4), Burst(w));
    CountAppend(Start(start), Failures(4), Burst(w), start, start, w);
  }

  // ---------- what interleaving changes ----------

  /** `n` attempts that all read the lock and pass the gate before any of them has failed. */
  function Burst(n: nat): seq<Step> {
    if n == 0 then [] else Burst(n - 1) + [Look(n), Decide(n, false)]
  }

  lemma {:induction false} RunAppend(sys: System, a: seq<Step>, b: seq<Step>)
    requires CanRun(sys, a) && CanRun(Run(sys, a), b)
    ensures CanRun(sys, a + b) && Run(sys, a + b) == Run(Run(sys, a), b)
    decreases |a|
  {
    if a == [] {
      assert a + b == b;
    } else {
      assert (a + b)[0] == a[0] && (a + b)[1..] == a[1..] + b;
      RunAppend(Apply(sys, a[0]), a[1..], b);
    }
  }

  /** At one instant any number of concurrent attempts can pass the gate of an account that is not locked. */
  lemma {:induction false} AnyNumberPassAtOnce(sys: System, n: nat)
    requires sys.row.lockedUntil.None? && sys.inFlight == map[]
    ensures CanRun(sys, Burst(n)) && Wide(sys, Burst(n), n) && Passes(sys, Burst(n), sys.clock, sys.clock) == n
    ensures var now := Run(sys, Burst(n));
            && now.(inFlight := map[]) == sys
            && (forall id :: id in now.inFlight <==> 1 <= id <= n)
            && |now.inFlight| == n && forall id <- now.inFlight :: now.inFlight[id] == Past
  {
    if n == 0 {
    } else {
      AnyNumberPassAtOnce(sys, n - 1);
      OneMorePasses(sys, Burst(n - 1), n);
    }
  }

  lemma OneMorePasses(sys: System, fewer: seq<Step>, n: nat)
    requires n > 0 && CanRun(sys, fewer) && Wide(sys, fewer, n - 1)
    requires var now := Run(sys, fewer);
             now.row.lockedUntil.None? && n !in now.inFlight && |now.inFlight| < n && now.clock == sys.clock
    ensures var steps, now := fewer + [Look(n), Decide(n, false)], Run(sys, fewer);
            && CanRun(sys, steps) && Wide(sys, steps, n) && Run(sys, steps) == now.(inFlight := now.inFlight[n := Past])
            && Passes(sys, steps, sys.clock, sys.clock) == Passes(sys, fewer, sys.clock, sys.clock) + 1
  {
    var more := [Look(n), Decide(n, false)];
    OnePasses(Run(sys, fewer), n);
    Wider(sys, fewer, n - 1, n);
    Wider(Run(sys, fewer), more, |Run(sys, fewer).inFlight| + 1, n);
    RunAppend(sys, fewer, more);
    CountAppend(sys, fewer, more, sys.clock, sys.clock, n);
  }

  lemma OnePasses(sys: System, id: int)
    requires sys.row.lockedUntil.None? && id !in sys.inFlight
    ensures CanRun(sys, [Look(id), Decide(id, false)])
    ensures Run(sys, [Look(id), Decide(id, false)]) == sys.(inFlight := sys.inFlight[id := Past])
    ensures Passes(sys, [Look(id), Decide(id, false)], sys.clock, sys.clock) == 1
    ensures Wide(sys, [Look(id), Decide(id, false)], |sys.inFlight| + 1)
  {
    var steps := [Look(id), Decide(id, false)];
    var looked := Apply(sys, Look(id));
    var past := Apply(looked, Decide(id, false));
    assert steps[1..] == [Decide(id, false)] && steps[1..][1..] == [];
    assert past.inFlight == sys.inFlight[id := Past];
    assert Run(looked, steps[1..]) == past;
    assert Passes(looked, steps[1..], sys.clock, sys.clock) == 1 + Passes(past, [], sys.clock, sys.clock);
    assert looked.inFlight.Keys == past.inFlight.Keys == sys.inFlight.Keys + {id};
    assert Wide(past, [], |sys.inFlight| + 1);
  }

  /** After four failures: a fifth attempt that has taken its time when a lock time goes by, and a sixth that
      overtakes it. */
  function Overtaking(): seq<Step> {
    [Look(1), Decide(1, false), Stamp(1)] + ([Tick(LOCK_MS)] + Sixth())
  }

  function Sixth(): seq<Step> {
    [Look(0), Decide(0, false), Stamp(0)] + [Update(0)]
  }

  lemma SixthRun(sys: System)
    requires sys.row == Row(4, None) && sys.inFlight == map[1 := Stamped(sys.clock)] && sys.updates == 4
    ensures CanRun(sys, Sixth())
    ensures Run(sys, Sixth()) == System(Row(5, Some(sys.clock + LOCK_MS)), sys.clock, map[1 := Stamped(sys.clock)], 5)
  {
    var stamped := sys.(inFlight := sys.inFlight[0 := Stamped(sys.clock + LOCK_MS)]);
    assert stamped.inFlight - {0} == map[1 := Stamped(sys.clock)];
    assert [Update(0)] + [] == [Update(0)];
    OneStep(stamped, Update(0), [], 0, 0, 0);
    ToStamp(sys, 0, [Update(0)]);
  }

  lemma OvertakingRun(sys: System)
    requires sys.row == Row(4, None) && sys.inFlight == map[] && sys.updates == 4
    ensures CanRun(sys, Overtaking())
    ensures var now := sys.clock + LOCK_MS;
            Run(sys, Overtaking()) == System(Row(5, Some(now + LOCK_MS)), now, map[1 := Stamped(now)], 5)
  {
    var waiting := sys.(inFlight := map[1 := Stamped(sys.clock + LOCK_MS)]);
    SixthRun(waiting.(clock := sys.clock + LOCK_MS));
    OneStep(waiting, Tick(LOCK_MS), Sixth(), 0, 0, 0);
    ToStamp(sys, 1, [Tick(LOCK_MS)] + Sixth());
  }

  /** An attempt on an account that is not locked comes to its stamp. */
  lemma ToStamp(sys: System, id: int, rest: seq<Step>)
    requires sys.row.lockedUntil.None? && id !in sys.inFlight
    requires CanRun(sys.(inFlight := sys.inFlight[id := Stamped(sys.clock + LOCK_MS)]), rest)
    ensures var steps := [Look(id), Decide(id, false), Stamp(id)] + rest;
            && CanRun(sys, steps)
            && Run(sys, steps) == Run(sys.(inFlight := sys.inFlight[id := Stamped(sys.clock + LOCK_MS)]), rest)
  {
    var looked := sys.(inFlight := sys.inFlight[id := Looked(None)]);
    var past := sys.(inFlight := sys.inFlight[id := Past]);
    var stamped := sys.(inFlight := sys.inFlight[id := Stamped(sys.clock + LOCK_MS)]);
    assert Apply(sys, Look(id)) == looked && Apply(looked, Decide(id, false)) == past;
    assert Apply(past, Stamp(id)) == stamped;
    OneStep(past, Stamp(id), rest, 0, 0, 0);
    OneStep(looked, Decide(id, false), [Stamp(id)] + rest, 0, 0, 0);
    OneStep(sys, Look(id), [Decide(id, false)] + ([Stamp(id)] + rest), 0, 0, 0);
    assert [Look(id), Decide(id, false), Stamp(id)] + rest ==
           [Look(id)] + ([Decide(id, false)] + ([Stamp(id)] + rest));
  }

  lemma {:induction false} FailuresFail(k: nat)
    ensures NoSuccess(Failures(k))
  {
    if k == 0 {
    } else {
      FailuresFail(k - 1);
    }
  }

  /** A lock can become shorter, down to nothing: an account that is locked is open right after its sixth
      failure, because the time of that one was taken a lock time ago. */
  lemma StaleUpdateOpens(start: int) returns (steps: seq<Step>)
    ensures CanRun(Start(start), steps) && NoSuccess(steps)
    ensures var sys := Run(Start(start), steps);
            && Blocked(sys.row, sys.clock) && Enabled(sys, Update(1))
            && Apply(sys, Update(1)).updates == 6
            && !Blocked(Apply(sys, Update(1)).row, sys.clock)
  {
    var four, rest := Failures(4), Overtaking();
    FailuresPass(4, start);
    FailuresFail(4);
    OvertakingRun(Run(Start(start), four));
    RunOn(Start(start), four, rest, Run(Start(start), four));
    steps := four + rest;
  }

  lemma RunOn(sys: System, a: seq<Step>, b: seq<Step>, mid: System)
    requires CanRun(sys, a) && mid == Run(sys, a) && CanRun(mid, b)
    ensures CanRun(sys, a + b) && Run(sys, a + b) == Run(mid, b)
  {
    RunAppend(sys, a, b);
  }
}
