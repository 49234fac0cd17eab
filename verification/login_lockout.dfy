/** Login attempts: five wrong passwords in a row lock the account for fifteen minutes. Times are in
    seconds. */
module LoginLockout {
  import opened Options
  import opened RollingWindows

  const LOGIN_MAX_FAILURES := 5
  const LOCKOUT_SECONDS := 900.0

  /** The lockout column: empty, not a date, or a time. */
  datatype Lockout = NoLockout | Unreadable | Until(time: real)

  datatype User = User(failedAttempts: int, lockout: Lockout)

  datatype Status = Invalid | Locked(retryAfter: int) | Ok

  datatype Attempt = Attempt(now: real, passwordMatches: bool)

  predicate IsLocked(u: User, now: real) {
    u.lockout.Until? && u.lockout.time > now
  }

  function Remaining(until: real, now: real): int {
    var seconds := (until - now).Floor + 1;
    if seconds < 1 then 1 else seconds
  }

  function After(u: User, a: Attempt): User {
    if IsLocked(u, a.now) then u
    else if a.passwordMatches then User(0, NoLockout)
    else if u.failedAttempts + 1 >= LOGIN_MAX_FAILURES then User(0, Until(a.now + LOCKOUT_SECONDS))
    else User(u.failedAttempts + 1, NoLockout)
  }

  // ------------------------------------------------------------------- runs

  function UserAfter(u: User, attempts: seq<Attempt>): User {
    if attempts == [] then u
    else After(UserAfter(u, attempts[..|attempts| - 1]), attempts[|attempts| - 1])
  }

  /** The times of the wrong-password checks since the last success. */
  function WrongChecks(u: User, attempts: seq<Attempt>): seq<real> {
    if attempts == [] then []
    else
      var before, last := attempts[..|attempts| - 1], attempts[|attempts| - 1];
      var checks := WrongChecks(u, before);
      var u' := UserAfter(u, before);
      if IsLocked(u', last.now) then checks
      else if last.passwordMatches then []
      else checks + [last.now]
  }

  predicate InOrder(attempts: seq<Attempt>) {
    forall i, j :: 0 <= i < j < |attempts| ==> attempts[i].now <= attempts[j].now
  }

  /** Any six wrong checks in a row span at least the lockout. */
  predicate SixSpanLockout(checks: seq<real>) {
    forall i :: 0 <= i && i + LOGIN_MAX_FAILURES < |checks| ==>
      checks[i + LOGIN_MAX_FAILURES] - checks[i] >= LOCKOUT_SECONDS
  }

  /** The stored counter counts the checks after the one that last locked the account. */
  predicate CounterExplained(u: User, checks: seq<real>) {
    && 0 <= u.failedAttempts < LOGIN_MAX_FAILURES
    && (|checks| > u.failedAttempts ==>
          var p := |checks| - 1 - u.failedAttempts;
          if u.failedAttempts == 0 then u.lockout == Until(checks[p] + LOCKOUT_SECONDS)
          else checks[p + 1] >= checks[p] + LOCKOUT_SECONDS)
  }

  predicate Explained(u: User, checks: seq<real>, now: real) {
    CounterExplained(u, checks) && Nondecreasing(checks) && AllUpTo(checks, now) && SixSpanLockout(checks)
  }

  lemma WrongCheckExplained(u: User, checks: seq<real>, before: real, now: real)
    requires Explained(u, checks, before) && before <= now && !IsLocked(u, now)
    ensures Explained(After(u, Attempt(now, false)), checks + [now], now)
  {
    var checks' := checks + [now];
    var i := |checks| - LOGIN_MAX_FAILURES;
    if i >= 0 {
      var p := |checks| - 1 - u.failedAttempts;
      assert now >= checks[p] + LOCKOUT_SECONDS;
      assert checks[i] <= checks[p];
    }
    forall j | 0 <= j && j + LOGIN_MAX_FAILURES < |checks'|
      ensures checks'[j + LOGIN_MAX_FAILURES] - checks'[j] >= LOCKOUT_SECONDS
    {
      if j != i { assert checks[j + LOGIN_MAX_FAILURES] - checks[j] >= LOCKOUT_SECONDS; }
    }
  }

  lemma {:induction false} RunExplained(u: User, attempts: seq<Attempt>, now: real)
    requires 0 <= u.failedAttempts < LOGIN_MAX_FAILURES && InOrder(attempts)
    requires attempts != [] ==> attempts[|attempts| - 1].now <= now
    ensures Explained(UserAfter(u, attempts), WrongChecks(u, attempts), now)
  {
    hide Explained, CounterExplained, SixSpanLockout, After;
    if attempts == [] {
      StartExplained(u, now);
    } else {
      var before, last := attempts[..|attempts| - 1], attempts[|attempts| - 1];
      var earlier := if before == [] then last.now else before[|before| - 1].now;
      RunExplained(u, before, earlier);
      NextExplained(UserAfter(u, before), WrongChecks(u, before), earlier, last, now);
    }
  }

  lemma StartExplained(u: User, now: real)
    requires 0 <= u.failedAttempts < LOGIN_MAX_FAILURES
    ensures Explained(u, [], now)
  {
  }

  lemma NextExplained(u: User, checks: seq<real>, before: real, a: Attempt, now: real)
    requires Explained(u, checks, before) && before <= a.now <= now
    ensures Explained(After(u, a),
                      if IsLocked(u, a.now) then checks else if a.passwordMatches then [] else checks + [a.now],
                      now)
  {
    if !IsLocked(u, a.now) && !a.passwordMatches {
      WrongCheckExplained(u, checks, before, a.now);
    }
  }

  /** A user who starts without failures is locked by every fifth wrong check since the last success, and
      in between has as many failures as wrong checks since the last lock. */
  lemma {:induction false} EveryFifthLocks(u: User, attempts: seq<Attempt>)
    requires u == User(0, NoLockout)
    ensures var checks := WrongChecks(u, attempts);
      UserAfter(u, attempts)
        == User(|checks| % 5,
                if checks != [] && |checks| % 5 == 0 then Until(checks[|checks| - 1] + 900.0) else NoLockout)
  {
    if attempts != [] { EveryFifthLocks(u, attempts[..|attempts| - 1]); }
  }

  /** For any sequence of attempts on one account: the stored counter stays below the limit, and any
      six wrong-password checks with no success between them span at least fifteen minutes. */
  lemma SixWrongChecksSpanTheLockout(u: User, attempts: seq<Attempt>)
    requires 0 <= u.failedAttempts < LOGIN_MAX_FAILURES && InOrder(attempts)
    ensures 0 <= UserAfter(u, attempts).failedAttempts < LOGIN_MAX_FAILURES
    ensures SixSpanLockout(WrongChecks(u, attempts))
  {
    hide UserAfter, WrongChecks;
    RunExplained(u, attempts, if attempts == [] then 0.0 else attempts[|attempts| - 1].now);
  }

  /** So no half-open window of fifteen minutes holds more than five of them. */
  lemma WindowHoldsFive(u: User, attempts: seq<Attempt>)
    requires 0 <= u.failedAttempts < LOGIN_MAX_FAILURES && InOrder(attempts)
    ensures EveryWindowHolds(WrongChecks(u, attempts), 900.0, 5)
  {
    hide UserAfter, WrongChecks;
    RunExplained(u, attempts, if attempts == [] then 0.0 else attempts[|attempts| - 1].now);
    var checks := WrongChecks(u, attempts);
    forall end: real ensures CountEnding(checks, end, LOCKOUT_SECONDS) <= LOGIN_MAX_FAILURES {
      FiveFit(checks, end);
    }
  }

  lemma {:induction false} FiveFit(checks: seq<real>, end: real)
    requires Nondecreasing(checks) && SixSpanLockout(checks)
    ensures CountEnding(checks, end, LOCKOUT_SECONDS) <= LOGIN_MAX_FAILURES
  {
    var n := |checks|;
    if n > LOGIN_MAX_FAILURES {
      if checks[n - 1] > end {
        assert checks[..n - 1][..] == checks[..n - 1];
        FiveFit(checks[..n - 1], end);
      } else {
        assert checks[n - 1 - LOGIN_MAX_FAILURES + LOGIN_MAX_FAILURES] - checks[n - 1 - LOGIN_MAX_FAILURES] >= LOCKOUT_SECONDS;
        CountAtMost(checks, n - LOGIN_MAX_FAILURES, end - LOCKOUT_SECONDS, end);
      }
    } else {
      CountAtMost(checks, 0, end - LOCKOUT_SECONDS, end);
    }
  }

  /** A locked answer names a time after which the account is open again. */
  lemma RetryAfterLockout(until: real, now: real)
    requires until > now
    ensures now + (Remaining(until, now) - 1) as real <= until <= now + Remaining(until, now) as real
  {
  }

  // ---------------------------------------------------- simultaneous attempts

  /** An attempt between its read of the user's row and its update. */
  datatype Pending = Checking(seen: User, now: real) | Over

  /** `checks` are the wrong checks since the last success, in the order of their updates. */
  datatype World = World(user: User, pending: seq<Pending>, checks: seq<real>, clock: real)

  datatype Event = Begin(now: real) | Finish(i: nat, passwordMatches: bool)

  function InFlight(pending: seq<Pending>): nat {
    if pending == [] then 0
    else InFlight(pending[..|pending| - 1]) + (if pending[|pending| - 1].Checking? then 1 else 0)
  }

  /** At most `limit` attempts on the account are under way at once. */
  predicate Enabled(w: World, limit: nat, e: Event) {
    match e
    case Begin(now) => now >= w.clock && InFlight(w.pending) < limit
    case Finish(i, _) => i < |w.pending| && w.pending[i].Checking?
  }

  function Step(w: World, limit: nat, e: Event): World
    requires Enabled(w, limit, e)
  {
    match e
    case Begin(now) =>
      w.(pending := w.pending + [if IsLocked(w.user, now) then Over else Checking(w.user, now)], clock := now)
    case Finish(i, matches) =>
      var p := w.pending[i];
      World(After(p.seen, Attempt(p.now, matches)), w.pending[i := Over],
            if matches then [] else w.checks + [p.now], w.clock)
  }

  ghost predicate Run(w: World, limit: nat, events: seq<Event>, end: World)
    decreases |events|
  {
    if events == [] then w == end
    else Enabled(w, limit, events[0]) && Run(Step(w, limit, events[0]), limit, events[1..], end)
  }

  function Start(u: User): World {
    World(u, [], [], 0.0)
  }

  predicate NoneInFlight(pending: seq<Pending>) {
    forall i :: 0 <= i < |pending| ==> pending[i].Over?
  }

  lemma {:induction false} NoneCounted(pending: seq<Pending>)
    ensures InFlight(pending) == 0 <==> NoneInFlight(pending)
  {
    if pending != [] {
      var init, last := pending[..|pending| - 1], pending[|pending| - 1];
      NoneCounted(init);
      assert NoneInFlight(pending) <==> NoneInFlight(init) && last.Over? by {
        if NoneInFlight(init) && last.Over? {
          forall i | 0 <= i < |pending| ensures pending[i].Over? { assert i < |init| ==> pending[i] == init[i]; }
        }
      }
    }
  }

  /** One attempt at a time: it has seen the row as it still is. */
  predicate Undisturbed(w: World) {
    && (forall i, j :: 0 <= i < |w.pending| && 0 <= j < |w.pending| && w.pending[i].Checking? && w.pending[j].Checking? ==> i == j)
    && (forall i :: 0 <= i < |w.pending| && w.pending[i].Checking? ==>
          && w.pending[i].seen == w.user && w.pending[i].now == w.clock && !IsLocked(w.user, w.clock))
    && Explained(w.user, w.checks, w.clock)
  }

  lemma StepUndisturbed(w: World, e: Event)
    requires Undisturbed(w) && Enabled(w, 1, e)
    ensures Undisturbed(Step(w, 1, e))
  {
    hide CounterExplained, SixSpanLockout, After;
    match e {
      case Begin(now) => NoneCounted(w.pending);
      case Finish(i, matches) =>
        hide Explained;
        NextExplained(w.user, w.checks, w.clock, Attempt(w.clock, matches), w.clock);
    }
  }

  lemma {:induction false} RunUndisturbed(w: World, events: seq<Event>, end: World)
    requires Undisturbed(w) && Run(w, 1, events, end)
    ensures Undisturbed(end)
    decreases |events|
  {
    hide Undisturbed, Step, Enabled;
    if events != [] {
      StepUndisturbed(w, events[0]);
      RunUndisturbed(Step(w, 1, events[0]), events[1..], end);
    }
  }

  ghost predicate Reachable(w: World, limit: nat) {
    exists events :: Run(Start(User(0, NoLockout)), limit, events, w)
  }

  lemma {:induction false} RunSnoc(w: World, limit: nat, events: seq<Event>, middle: World, e: Event)
    requires Run(w, limit, events, middle) && Enabled(middle, limit, e)
    ensures Run(w, limit, events + [e], Step(middle, limit, e))
    decreases |events|
  {
    hide Step, Enabled;
    if events == [] {
      assert Run(Step(w, limit, e), limit, [], Step(w, limit, e));
      assert ([e])[1..] == [];
    } else {
      RunSnoc(Step(w, limit, events[0]), limit, events[1..], middle, e);
      assert (events + [e])[1..] == events[1..] + [e];
    }
  }

  lemma ReachNext(w: World, limit: nat, e: Event, w': World)
    requires Reachable(w, limit) && Enabled(w, limit, e) && w' == Step(w, limit, e)
    ensures Reachable(w', limit)
  {
    hide Step, Enabled, Run;
    var events :| Run(Start(User(0, NoLockout)), limit, events, w);
    RunSnoc(Start(User(0, NoLockout)), limit, events, w, e);
  }

  /** Two attempts that read the same row count as one failure. */
  lemma PairCountsOnce(w: World, limit: nat, failures: nat) returns (w': World)
    requires Reachable(w, limit) && limit >= 2 && NoneInFlight(w.pending) && w.clock == 0.0
    requires w.user == User(failures, NoLockout) && failures + 1 < LOGIN_MAX_FAILURES
    ensures Reachable(w', limit) && NoneInFlight(w'.pending) && w'.clock == 0.0
    ensures w'.user == User(failures + 1, NoLockout) && w'.checks == w.checks + [0.0, 0.0]
  {
    hide Reachable;
    var n, p := |w.pending|, Checking(w.user, 0.0);
    NoneCounted(w.pending);
    var w1 := w.(pending := w.pending + [p]);
    ReachNext(w, limit, Begin(0.0), w1);
    assert w1.pending[..n] == w.pending;
    var w2 := w1.(pending := w1.pending + [p]);
    ReachNext(w1, limit, Begin(0.0), w2);
    var w3 := Step(w2, limit, Finish(n, false));
    ReachNext(w2, limit, Finish(n, false), w3);
    w' := Step(w3, limit, Finish(n + 1, false));
    ReachNext(w3, limit, Finish(n + 1, false), w');
    assert w.checks + [0.0] + [0.0] == w.checks + [0.0, 0.0];
  }

  /** With two attempts at once, six wrong passwords can be checked in one moment. */
  lemma SixAtOnce(limit: nat) returns (w: World)
    requires limit >= 2
    ensures Reachable(w, limit) && w.checks == [0.0, 0.0, 0.0, 0.0, 0.0, 0.0]
  {
    var w0 := Start(User(0, NoLockout));
    assert Run(w0, limit, [], w0);
    hide Run;
    var w1 := PairCountsOnce(w0, limit, 0);
    var w2 := PairCountsOnce(w1, limit, 1);
    w := PairCountsOnce(w2, limit, 2);
  }

  /** No run with at most `limit` attempts at once checks more than five wrong passwords in a window. */
  ghost predicate FiveHold(limit: nat) {
    forall u: User, events, end ::
      0 <= u.failedAttempts < LOGIN_MAX_FAILURES && Run(Start(u), limit, events, end) ==>
        EveryWindowHolds(end.checks, 900.0, 5)
  }

  /** The bound of five holds in every interleaving exactly if attempts on an account do not overlap. */
  lemma FiveHoldExactly(limit: nat)
    ensures FiveHold(limit) <==> limit <= 1
  {
    hide Run;
    if limit <= 1 {
      forall u: User, events, end |
        0 <= u.failedAttempts < LOGIN_MAX_FAILURES && Run(Start(u), limit, events, end)
        ensures EveryWindowHolds(end.checks, LOCKOUT_SECONDS, LOGIN_MAX_FAILURES)
      {
        RunWithin(Start(u), limit, events, end);
        StartExplained(u, 0.0);
        RunUndisturbed(Start(u), events, end);
        forall t: real ensures CountEnding(end.checks, t, LOCKOUT_SECONDS) <= LOGIN_MAX_FAILURES {
          FiveFit(end.checks, t);
        }
      }
    } else {
      var w := SixAtOnce(limit);
      CountOfSplit(w.checks, 0, -LOCKOUT_SECONDS, 0.0);
      assert CountEnding(w.checks, 0.0, LOCKOUT_SECONDS) == 6;
      var events :| Run(Start(User(0, NoLockout)), limit, events, w);
    }
  }

  lemma {:induction false} RunWithin(w: World, limit: nat, events: seq<Event>, end: World)
    requires Run(w, limit, events, end) && limit <= 1
    ensures Run(w, 1, events, end)
    decreases |events|
  {
    hide IsLocked, After, InFlight;
    if events != [] { RunWithin(Step(w, limit, events[0]), limit, events[1..], end); }
  }

  // ------------------------------------------------------------------- class

  /** A success clears the row, the fifth wrong password in a row locks it for 900 seconds, and while it
      is locked nothing changes. */
  predicate RowRight(before: User, after: User, now: real, passwordMatches: bool) {
    if before.lockout.Until? && before.lockout.time > now then after == before
    else if passwordMatches then after == User(0, NoLockout)
    else if before.failedAttempts >= 4 then after == User(0, Until(now + 900.0))
    else after == User(before.failedAttempts + 1, NoLockout)
  }

  class UserTable {
    var users: map<int, User>

    constructor (users: map<int, User>)
      ensures this.users == users
    {
      this.users := users;
    }

    /** `found` is the row of the given name or address, if there is one. */
    method ConsumeLoginAttempt(found: Option<int>, now: real, passwordMatches: bool) returns (status: Status)
      requires found.Some? ==> found.value in users
      modifies this`users
      ensures found.None? ==> status == Invalid && users == old(users)
      ensures found.Some? ==>
                && users == old(users)[found.value := After(old(users[found.value]), Attempt(now, passwordMatches))]
                && RowRight(old(users[found.value]), users[found.value], now, passwordMatches)
                && (status.Ok? <==> passwordMatches && !IsLocked(old(users[found.value]), now))
                && (status.Locked? <==> IsLocked(users[found.value], now))
                && (status.Locked? ==>
                      && status.retryAfter >= 1 && !IsLocked(users[found.value], now + status.retryAfter as real)
                      && IsLocked(users[found.value], now + (status.retryAfter - 2) as real))
    {
      if found.None? {
        return Invalid;
      }
      var user := users[found.value];
      if user.lockout != NoLockout {
        var lockoutUntil := if user.lockout.Until? then user.lockout.time else now;
        if lockoutUntil > now {
          RetryAfterLockout(lockoutUntil, now);
          assert users == users[found.value := user];
          return Locked(Remaining(lockoutUntil, now));
        }
      }
      if !passwordMatches {
        var attempts := user.failedAttempts + 1;
        if attempts >= LOGIN_MAX_FAILURES {
          var lockoutUntil := now + LOCKOUT_SECONDS;
          users := users[found.value := User(0, Until(lockoutUntil))];
          RetryAfterLockout(lockoutUntil, now);
          return Locked(Remaining(lockoutUntil, now));
        }
        users := users[found.value := User(attempts, NoLockout)];
        return Invalid;
      }
      users := users[found.value := User(0, NoLockout)];
      return Ok;
    }
  }
}
