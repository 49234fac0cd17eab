/** The Training Hub's limiter on MariaDB, where the statements of concurrent calls interleave. */
module MariaDbRateLimiter {
  import opened FixedWindows
  import opened RateLimiters

  const ATTEMPTS := 3

  /** Where a call stands. `removed` are the rows that its open transaction has pruned. */
  datatype Phase =
    | Deleting(attempt: nat)
    | Updating(attempt: nat, removed: Table)
    | Selecting(attempt: nat, removed: Table)
    | Inserting(attempt: nat, removed: Table)
    | Allowed
    | BucketFull
    | LostThreeRaces
    | Raised

  datatype Caller = Caller(call: Call, phase: Phase)

  /** `log` and `horizon` are history: the requests admitted so far, and where pruning has reached. */
  datatype State = State(table: Table, callers: seq<Caller>, clock: nat, log: seq<Bucket>, horizon: int)

  datatype Event =
    | Begin(call: Call)
    | Delete(i: nat)
    | Update(i: nat)
    | Select(i: nat)
    | Insert(i: nat)
    | Fails(i: nat)

  predicate Active(c: Caller) {
    c.phase.Deleting? || c.phase.Updating? || c.phase.Selecting? || c.phase.Inserting?
  }

  predicate Enabled(s: State, e: Event) {
    match e
    case Begin(call) => s.clock <= call.now
    case Delete(i) => i < |s.callers| && s.callers[i].phase.Deleting?
    case Update(i) => i < |s.callers| && s.callers[i].phase.Updating?
    case Select(i) => i < |s.callers| && s.callers[i].phase.Selecting?
    case Insert(i) => i < |s.callers| && s.callers[i].phase.Inserting?
    case Fails(i) => i < |s.callers| && Active(s.callers[i])
  }

  function To(s: State, i: nat, phase: Phase): State
    requires i < |s.callers|
  {
    s.(callers := s.callers[i := s.callers[i].(phase := phase)])
  }

  function Removed(p: Phase): Table {
    match p
    case Updating(_, removed) => removed
    case Selecting(_, removed) => removed
    case Inserting(_, removed) => removed
    case _ => map[]
  }

  function NextAttempt(attempt: nat): Phase {
    if attempt + 1 < ATTEMPTS then Deleting(attempt + 1) else LostThreeRaces
  }

  function Admit(s: State, i: nat, b: Bucket): State
    requires i < |s.callers|
  {
    To(s, i, Allowed).(table := s.table[b := Row(s.table, b) + 1], log := s.log + [b])
  }

  /** A rollback puts back the rows that the transaction pruned. */
  function RolledBack(s: State, i: nat): State
    requires i < |s.callers|
  {
    s.(table := Removed(s.callers[i].phase) + s.table)
  }

  function Step(s: State, e: Event): State
    requires Enabled(s, e)
  {
    match e
    case Begin(call) => s.(callers := s.callers + [Caller(call, Deleting(0))], clock := call.now)
    case Delete(i) =>
      var stale := StaleOf(s.callers[i].call);
      var removed := map b | b in s.table && b.start < stale :: s.table[b];
      To(s, i, Updating(s.callers[i].phase.attempt, removed)).(
        table := Pruned(s.table, stale), horizon := Later(s.horizon, stale))
    case Update(i) =>
      var c, b := s.callers[i], BucketOf(s.callers[i].call);
      if b in s.table && s.table[b] < c.call.maxRequests then Admit(s, i, b)
      else To(s, i, Selecting(c.phase.attempt, c.phase.removed))
    case Select(i) =>
      var c, b := s.callers[i], BucketOf(s.callers[i].call);
      if b !in s.table then To(s, i, Inserting(c.phase.attempt, c.phase.removed))
      else if s.table[b] >= c.call.maxRequests then To(s, i, BucketFull)
      else To(s, i, NextAttempt(c.phase.attempt))
    case Insert(i) =>
      var c, b := s.callers[i], BucketOf(s.callers[i].call);
      if b !in s.table then Admit(s, i, b)
      else To(RolledBack(s, i), i, NextAttempt(c.phase.attempt))
    case Fails(i) => To(RolledBack(s, i), i, Raised)
  }

  /** No call dawdles: one that is still under way when another prunes started late enough. */
  predicate Prompt(s: State, e: Event)
    requires Enabled(s, e)
  {
    e.Delete? ==>
      var pruning := s.callers[e.i].call;
      forall c <- s.callers :: Active(c) ==>
        pruning.now - c.call.now <= Slack(SafeWindow(pruning.window), SafeWindow(c.call.window))
  }

  /** A call that prunes started at most `lag` seconds after every call that is under way. */
  predicate WithinLag(s: State, e: Event, lag: int)
    requires Enabled(s, e)
  {
    e.Delete? ==> forall c <- s.callers :: Active(c) ==> s.callers[e.i].call.now - c.call.now <= lag
  }

  ghost predicate Run(s: State, windows: set<int>, events: seq<Event>, end: State)
    decreases |events|
  {
    if events == [] then s == end
    else
      && Enabled(s, events[0]) && Prompt(s, events[0])
      && (events[0].Begin? ==> SafeWindow(events[0].call.window) in windows)
      && Run(Step(s, events[0]), windows, events[1..], end)
  }

  ghost predicate LagRun(s: State, windows: set<int>, lag: int, events: seq<Event>, end: State)
    decreases |events|
  {
    if events == [] then s == end
    else
      && Enabled(s, events[0]) && WithinLag(s, events[0], lag)
      && (events[0].Begin? ==> SafeWindow(events[0].call.window) in windows)
      && LagRun(Step(s, events[0]), windows, lag, events[1..], end)
  }

  /** Calls for the key allow at most `limit` requests. */
  predicate KeyLimited(events: seq<Event>, key: string, limit: nat) {
    forall e <- events :: e.Begin? && e.call.key == key ==> e.call.maxRequests <= limit
  }

  const EMPTY := State(map[], [], 0, [], 0)

  // --------------------------------------------------------------- invariant

  ghost predicate CallerValid(c: Caller, s: State, windows: set<int>) {
    && SafeWindow(c.call.window) in windows && c.call.now <= s.clock
    && (Active(c) ==> BucketOf(c.call).start >= s.horizon)
    && (c.phase.BucketFull? ==> CountOf(s.log, BucketOf(c.call)) >= c.call.maxRequests)
    && (forall b <- Removed(c.phase) :: b.start < s.horizon && Removed(c.phase)[b] >= 1)
  }

  ghost predicate Valid(s: State, windows: set<int>) {
    && Compatible(windows)
    && CountsLog(s.table, s.log, s.horizon)
    && PrunedBy(s.horizon, windows, s.clock)
    && forall i :: 0 <= i < |s.callers| ==> CallerValid(s.callers[i], s, windows)
  }

  /** Nothing is admitted beyond the limit that comes with the key. */
  ghost predicate WithinLimit(s: State, b: Bucket, limit: nat) {
    && CountOf(s.log, b) <= limit
    && forall c <- s.callers :: c.call.key == b.key ==> c.call.maxRequests <= limit
  }

  lemma RestoringOldRows(t: Table, log: seq<Bucket>, horizon: int, removed: Table)
    requires CountsLog(t, log, horizon) && forall b <- removed :: b.start < horizon && removed[b] >= 1
    ensures CountsLog(removed + t, log, horizon)
  {
    forall b: Bucket | b.start >= horizon ensures Row(removed + t, b) == CountOf(log, b) {
      assert Row(t, b) == CountOf(log, b);
    }
  }

  lemma PromptIsAhead(s: State, e: Event, i: nat)
    requires e.Delete? && Enabled(s, e) && Prompt(s, e) && i < |s.callers| && Active(s.callers[i])
    ensures BucketOf(s.callers[i].call).start >= StaleOf(s.callers[e.i].call)
  {
    assert s.callers[i] in s.callers;
    var mine, pruning := s.callers[i].call, s.callers[e.i].call;
    WithinSlackIsKept(SafeWindow(pruning.window), SafeWindow(mine.window), pruning.now, mine.now);
  }

  lemma {:induction false} CountsGrow(log: seq<Bucket>, b: Bucket, other: Bucket)
    ensures CountOf(log, other) <= CountOf(log + [b], other)
  {
    CountOfAppend(log, b, other);
  }

  lemma StepTable(s: State, windows: set<int>, e: Event)
    requires Valid(s, windows) && Enabled(s, e) && Prompt(s, e)
    requires e.Begin? ==> SafeWindow(e.call.window) in windows
    ensures CountsLog(Step(s, e).table, Step(s, e).log, Step(s, e).horizon)
    ensures PrunedBy(Step(s, e).horizon, windows, Step(s, e).clock)
  {
    hide CountsLog, PrunedBy, Compatible, CountOf, Pruned, Prompt;
    match e {
      case Begin(call) => PrunedByLater(s.horizon, windows, s.clock, call.now);
      case Delete(i) =>
        var c := s.callers[i].call;
        assert CallerValid(s.callers[i], s, windows);
        PrunedCountsLog(s.table, s.log, s.horizon, StaleOf(c));
        StaysPrunedBy(s.horizon, windows, s.clock, c.now, SafeWindow(c.window), s.clock);
        assert windows + {SafeWindow(c.window)} == windows;
      case Fails(i) =>
        assert CallerValid(s.callers[i], s, windows);
        RestoringOldRows(s.table, s.log, s.horizon, Removed(s.callers[i].phase));
      case Insert(i) =>
        assert CallerValid(s.callers[i], s, windows);
        RestoringOldRows(s.table, s.log, s.horizon, Removed(s.callers[i].phase));
        AdmittedCountsLog(s.table, s.log, s.horizon, BucketOf(s.callers[i].call));
      case Update(i) =>
        assert CallerValid(s.callers[i], s, windows);
        AdmittedCountsLog(s.table, s.log, s.horizon, BucketOf(s.callers[i].call));
      case Select(_) =>
    }
  }

  lemma PrunedByLater(horizon: int, windows: set<int>, clock: nat, now: nat)
    requires PrunedBy(horizon, windows, clock) && clock <= now
    ensures PrunedBy(horizon, windows, now)
  {
  }

  lemma RowsArePositive(t: Table, log: seq<Bucket>, horizon: int)
    requires CountsLog(t, log, horizon)
    ensures forall b <- t :: t[b] >= 1
  {
  }

  /** A caller that does not move itself. */
  lemma OtherCaller(s: State, windows: set<int>, e: Event, i: nat)
    requires Valid(s, windows) && Enabled(s, e) && Prompt(s, e)
    requires i < |s.callers| && (e.Begin? || e.i != i)
    ensures i < |Step(s, e).callers| && CallerValid(Step(s, e).callers[i], Step(s, e), windows)
  {
    hide CountsLog, PrunedBy, Compatible, CountOf, Prompt, StaleBefore, Pruned, BucketOf;
    assert CallerValid(s.callers[i], s, windows);
    if e.Delete? && Active(s.callers[i]) { PromptIsAhead(s, e, i); }
    if e.Update? || e.Insert? {
      CountsGrow(s.log, BucketOf(s.callers[e.i].call), BucketOf(s.callers[i].call));
    }
  }

  lemma OwnDelete(s: State, windows: set<int>, i: nat)
    requires Valid(s, windows) && Enabled(s, Delete(i)) && Prompt(s, Delete(i))
    ensures CallerValid(Step(s, Delete(i)).callers[i], Step(s, Delete(i)), windows)
  {
    hide CountsLog, PrunedBy, Compatible, CountOf, Prompt, StaleBefore, Pruned, BucketOf;
    assert CallerValid(s.callers[i], s, windows);
    RowsArePositive(s.table, s.log, s.horizon);
    PromptIsAhead(s, Delete(i), i);
  }

  lemma OwnStep(s: State, windows: set<int>, e: Event)
    requires Valid(s, windows) && Enabled(s, e) && !e.Begin? && !e.Delete?
    ensures CallerValid(Step(s, e).callers[e.i], Step(s, e), windows)
  {
    hide CountsLog, PrunedBy, Compatible, CountOf, StaleBefore, Pruned, BucketOf;
    assert CallerValid(s.callers[e.i], s, windows);
    if e.Select? { RowIsCount(s.table, s.log, s.horizon, BucketOf(s.callers[e.i].call)); }
  }

  lemma NewCaller(s: State, windows: set<int>, call: Call)
    requires Valid(s, windows) && Enabled(s, Begin(call)) && SafeWindow(call.window) in windows
    ensures CallerValid(Caller(call, Deleting(0)), Step(s, Begin(call)), windows)
  {
    hide CountsLog, PrunedBy, CountOf, StaleBefore;
    assert windows + {SafeWindow(call.window)} == windows;
    CallIsAhead(s.horizon, windows, s.clock, call.now, SafeWindow(call.window));
  }

  lemma StepCaller(s: State, windows: set<int>, e: Event, i: nat)
    requires Valid(s, windows) && Enabled(s, e) && Prompt(s, e)
    requires e.Begin? ==> SafeWindow(e.call.window) in windows
    requires i < |Step(s, e).callers|
    ensures CallerValid(Step(s, e).callers[i], Step(s, e), windows)
  {
    hide Valid, CallerValid, Prompt, StaleBefore, Pruned, BucketOf;
    if e.Begin? && i == |s.callers| {
      NewCaller(s, windows, e.call);
    } else if e.Begin? || e.i != i {
      OtherCaller(s, windows, e, i);
    } else if e.Delete? {
      OwnDelete(s, windows, i);
    } else {
      OwnStep(s, windows, e);
    }
  }

  lemma StepKeepsValid(s: State, windows: set<int>, e: Event)
    requires Valid(s, windows) && Enabled(s, e) && Prompt(s, e)
    requires e.Begin? ==> SafeWindow(e.call.window) in windows
    ensures Valid(Step(s, e), windows)
  {
    hide Step, Enabled, CallerValid, CountsLog, PrunedBy, Prompt;
    StepTable(s, windows, e);
    forall i | 0 <= i < |Step(s, e).callers|
      ensures CallerValid(Step(s, e).callers[i], Step(s, e), windows)
    {
      StepCaller(s, windows, e, i);
    }
  }

  lemma StepWithinLimit(s: State, windows: set<int>, e: Event, b: Bucket, limit: nat)
    requires Valid(s, windows) && Enabled(s, e) && WithinLimit(s, b, limit) && limit >= 1
    requires e.Begin? && e.call.key == b.key ==> e.call.maxRequests <= limit
    ensures WithinLimit(Step(s, e), b, limit)
  {
    hide CountsLog, PrunedBy, Compatible, CountOf, Pruned;
    var s' := Step(s, e);
    if e.Update? || e.Insert? {
      assert CallerValid(s.callers[e.i], s, windows);
      var mine := BucketOf(s.callers[e.i].call);
      RowIsCount(s.table, s.log, s.horizon, mine);
      CountOfAppend(s.log, mine, b);
    }
    forall c <- s'.callers | c.call.key == b.key ensures c.call.maxRequests <= limit {
      var i :| 0 <= i < |s'.callers| && s'.callers[i] == c;
      assert i < |s.callers| ==> s.callers[i] in s.callers && s.callers[i].call == c.call;
    }
  }

  lemma {:induction false} RunWithinLimit(s: State, windows: set<int>, events: seq<Event>, end: State, b: Bucket, limit: nat)
    requires Valid(s, windows) && WithinLimit(s, b, limit) && limit >= 1 && Run(s, windows, events, end)
    requires KeyLimited(events, b.key, limit)
    ensures Valid(end, windows) && WithinLimit(end, b, limit)
    decreases |events|
  {
    hide Valid, WithinLimit, Step, Enabled, Prompt;
    if events != [] {
      StepKeepsValid(s, windows, events[0]);
      StepWithinLimit(s, windows, events[0], b, limit);
      RunWithinLimit(Step(s, events[0]), windows, events[1..], end, b, limit);
    }
  }

  /** In every interleaving of the statements of prompt calls, at most `limit` requests are admitted
      per key and bucket, and a call that is told its bucket is full was told the truth. */
  lemma EveryInterleaving(windows: set<int>, events: seq<Event>, end: State, b: Bucket, limit: nat)
    requires Compatible(windows) && Run(EMPTY, windows, events, end) && limit >= 1
    requires KeyLimited(events, b.key, limit)
    ensures |PlacesOf(end.log, b)| <= limit
    ensures forall c <- end.callers :: c.phase.BucketFull? ==> |PlacesOf(end.log, BucketOf(c.call))| >= c.call.maxRequests
  {
    CountOfIsExact(end.log, b);
    forall c <- end.callers ensures CountOf(end.log, BucketOf(c.call)) == |PlacesOf(end.log, BucketOf(c.call))| {
      CountOfIsExact(end.log, BucketOf(c.call));
    }
    hide Run, Step, Enabled, Prompt;
    EmptyIsValid(windows);
    RunWithinLimit(EMPTY, windows, events, end, b, limit);
    forall c <- end.callers ensures CallerValid(c, end, windows) {
      var i :| 0 <= i < |end.callers| && end.callers[i] == c;
    }
  }

  lemma EmptyIsValid(windows: set<int>)
    requires Compatible(windows)
    ensures Valid(EMPTY, windows)
  {
  }

  // ------------------------------------------------------------- three races

  function DeletesOf(events: seq<Event>, i: nat): nat {
    if events == [] then 0 else (if events[0] == Delete(i) then 1 else 0) + DeletesOf(events[1..], i)
  }

  /** How many attempts a call has begun. */
  function Begun(p: Phase): nat {
    match p
    case Deleting(attempt) => attempt
    case Updating(attempt, _) => attempt + 1
    case Selecting(attempt, _) => attempt + 1
    case Inserting(attempt, _) => attempt + 1
    case _ => 3
  }

  predicate Counts(p: Phase) {
    !p.Allowed? && !p.BucketFull? && !p.Raised? && Begun(p) <= 3 && (p.Deleting? ==> Begun(p) < 3)
  }

  lemma StepBegun(s: State, e: Event, i: nat)
    requires Enabled(s, e) && i < |s.callers|
    ensures i < |Step(s, e).callers|
    ensures var p, p' := s.callers[i].phase, Step(s, e).callers[i].phase;
      && (Counts(p) && Counts(p') ==> Begun(p') == Begun(p) + if e == Delete(i) then 1 else 0)
      && (Counts(p) ==> Counts(p') || !(Active(Step(s, e).callers[i]) || p'.LostThreeRaces?))
      && (!Counts(p) && !Active(s.callers[i]) ==> p' == p)
      && (p.LostThreeRaces? ==> p' == p && e != Delete(i))
  {
    hide Pruned, BucketOf, StaleOf;
  }

  /** A call that gives up has lost three attempts, each begun by a delete statement. */
  lemma {:induction false} LostThreeAttempts(s: State, windows: set<int>, events: seq<Event>, end: State, i: nat)
    requires Run(s, windows, events, end)
    requires i < |s.callers| ==> Counts(s.callers[i].phase)
    requires i < |end.callers| && end.callers[i].phase.LostThreeRaces?
    ensures DeletesOf(events, i) + (if i < |s.callers| then Begun(s.callers[i].phase) else 0) == 3
    decreases |events|
  {
    hide Step, Enabled, Prompt;
    if events != [] {
      var next := Step(s, events[0]);
      if i < |s.callers| {
        StepBegun(s, events[0], i);
        if Counts(next.callers[i].phase) {
          LostThreeAttempts(next, windows, events[1..], end, i);
        } else {
          OverStays(next, windows, events[1..], end, i);
        }
      } else {
        StepCallers(s, events[0], i);
        LostThreeAttempts(next, windows, events[1..], end, i);
      }
    }
  }

  lemma StepCallers(s: State, e: Event, i: nat)
    requires Enabled(s, e) && i >= |s.callers|
    ensures e != Delete(i) && (i < |Step(s, e).callers| ==> Step(s, e).callers[i].phase == Deleting(0))
  {
    hide Pruned, BucketOf, StaleOf;
  }

  lemma {:induction false} OverStays(s: State, windows: set<int>, events: seq<Event>, end: State, i: nat)
    requires Run(s, windows, events, end) && i < |s.callers| && !Active(s.callers[i])
    ensures i < |end.callers| && end.callers[i].phase == s.callers[i].phase
    decreases |events|
  {
    hide Pruned, BucketOf, StaleOf, Prompt;
    if events != [] { OverStays(Step(s, events[0]), windows, events[1..], end, i); }
  }

  // ---------------------------------------------------------- how slow, exactly

  /** With no call more than `lag` seconds older than one that prunes while it is under way, no run
      admits more than the limit anywhere. */
  ghost predicate BoundHolds(windows: set<int>, lag: nat) {
    forall events, end, b: Bucket, limit: nat ::
      limit >= 1 && LagRun(EMPTY, windows, lag, events, end) && KeyLimited(events, b.key, limit) ==>
        CountOf(end.log, b) <= limit
  }

  ghost predicate LagAllowed(windows: set<int>, lag: int)
    requires forall w <- windows :: w >= 1
  {
    forall w <- windows, w' <- windows :: lag <= Slack(w, w')
  }

  ghost predicate WindowsIn(s: State, windows: set<int>) {
    forall c <- s.callers :: SafeWindow(c.call.window) in windows
  }

  lemma StepWindowsIn(s: State, windows: set<int>, e: Event)
    requires WindowsIn(s, windows) && Enabled(s, e)
    requires e.Begin? ==> SafeWindow(e.call.window) in windows
    ensures WindowsIn(Step(s, e), windows)
  {
    hide Pruned, BucketOf, StaleOf;
    forall c <- Step(s, e).callers ensures SafeWindow(c.call.window) in windows {
      var i :| 0 <= i < |Step(s, e).callers| && Step(s, e).callers[i] == c;
      assert i < |s.callers| ==> s.callers[i] in s.callers && s.callers[i].call == c.call;
    }
  }

  lemma LagIsPrompt(s: State, windows: set<int>, lag: int, e: Event)
    requires (forall w <- windows :: w >= 1) && LagAllowed(windows, lag) && WindowsIn(s, windows)
    requires Enabled(s, e) && WithinLag(s, e, lag)
    ensures Prompt(s, e)
  {
    hide Slack;
    if e.Delete? { assert s.callers[e.i] in s.callers; }
  }

  lemma {:induction false} LagRunIsPrompt(s: State, windows: set<int>, lag: int, events: seq<Event>, end: State)
    requires (forall w <- windows :: w >= 1) && LagAllowed(windows, lag) && WindowsIn(s, windows)
    requires LagRun(s, windows, lag, events, end)
    ensures Run(s, windows, events, end)
    decreases |events|
  {
    hide Step, Enabled, WithinLag, Prompt, WindowsIn;
    if events != [] {
      LagIsPrompt(s, windows, lag, events[0]);
      StepWindowsIn(s, windows, events[0]);
      LagRunIsPrompt(Step(s, events[0]), windows, lag, events[1..], end);
    }
  }

  /** Reachable by calls within the lag that allow at most `limit` requests for the key. */
  ghost predicate Reachable(s: State, windows: set<int>, lag: int, key: string, limit: nat) {
    exists events :: LagRun(EMPTY, windows, lag, events, s) && KeyLimited(events, key, limit)
  }

  lemma {:induction false} LagRunSnoc(s: State, windows: set<int>, lag: int, events: seq<Event>, middle: State, e: Event)
    requires LagRun(s, windows, lag, events, middle) && Enabled(middle, e) && WithinLag(middle, e, lag)
    requires e.Begin? ==> SafeWindow(e.call.window) in windows
    ensures LagRun(s, windows, lag, events + [e], Step(middle, e))
    decreases |events|
  {
    hide Step, Enabled, WithinLag;
    if events == [] {
      assert LagRun(Step(s, e), windows, lag, [], Step(s, e));
      assert ([e])[1..] == [];
    } else {
      LagRunSnoc(Step(s, events[0]), windows, lag, events[1..], middle, e);
      assert (events + [e])[1..] == events[1..] + [e];
    }
  }

  lemma ReachNext(s: State, windows: set<int>, lag: int, key: string, limit: nat, e: Event, s': State)
    requires Reachable(s, windows, lag, key, limit) && Enabled(s, e) && WithinLag(s, e, lag) && s' == Step(s, e)
    requires e.Begin? ==> SafeWindow(e.call.window) in windows && e.call.maxRequests <= limit
    ensures Reachable(s', windows, lag, key, limit)
  {
    hide Step, Enabled, LagRun, WithinLag;
    var events :| LagRun(EMPTY, windows, lag, events, s) && KeyLimited(events, key, limit);
    LagRunSnoc(EMPTY, windows, lag, events, s, e);
    assert KeyLimited(events + [e], key, limit);
  }

  /** A call that runs on its own while its bucket has room is admitted. */
  lemma AdmittedAlone(s: State, windows: set<int>, lag: int, key: string, limit: nat, i: nat, s': State)
    requires Reachable(s, windows, lag, key, limit)
    requires i < |s.callers| && s.callers[i].phase == Deleting(0) && WithinLag(s, Delete(i), lag)
    requires Pruned(s.table, StaleOf(s.callers[i].call)) == s.table
    requires Row(s.table, BucketOf(s.callers[i].call)) < s.callers[i].call.maxRequests
    requires s' == Admit(s.(horizon := Later(s.horizon, StaleOf(s.callers[i].call))), i, BucketOf(s.callers[i].call))
    ensures Reachable(s', windows, lag, key, limit)
  {
    hide StaleOf, BucketOf, Reachable, Pruned;
    var b := BucketOf(s.callers[i].call);
    var removed := map b' | b' in s.table && b'.start < StaleOf(s.callers[i].call) :: s.table[b'];
    var s0 := s.(horizon := Later(s.horizon, StaleOf(s.callers[i].call)));
    var s1 := To(s0, i, Updating(0, removed));
    ReachNext(s, windows, lag, key, limit, Delete(i), s1);
    if b in s.table {
      ReachNext(s1, windows, lag, key, limit, Update(i), s');
    } else {
      var s2, s3 := To(s0, i, Selecting(0, removed)), To(s0, i, Inserting(0, removed));
      ReachNext(s1, windows, lag, key, limit, Update(i), s2);
      ReachNext(s2, windows, lag, key, limit, Select(i), s3);
      ReachNext(s3, windows, lag, key, limit, Insert(i), s');
    }
  }

  /** Of `n` equal calls that began together, the first `k` have been admitted. */
  predicate SomeAdmitted(s: State, call: Call, n: nat, k: nat) {
    && |s.callers| == n && s.clock == call.now
    && (forall i :: 0 <= i < n ==> s.callers[i] == Caller(call, if i < k then Allowed else Deleting(0)))
    && s.table == (if k == 0 then map[] else map[BucketOf(call) := k])
    && CountOf(s.log, BucketOf(call)) == k
  }

  lemma {:induction false} AllBegin(windows: set<int>, lag: nat, limit: nat, call: Call, n: nat) returns (s: State)
    requires n >= 1 && SafeWindow(call.window) in windows && call.maxRequests == limit
    ensures Reachable(s, windows, lag, call.key, limit) && SomeAdmitted(s, call, n, 0)
  {
    var before: State;
    if n == 1 {
      before := EMPTY;
      assert LagRun(EMPTY, windows, lag, [], EMPTY) && KeyLimited([], call.key, limit);
    } else {
      before := AllBegin(windows, lag, limit, call, n - 1);
    }
    s := Step(before, Begin(call));
    hide Reachable;
    ReachNext(before, windows, lag, call.key, limit, Begin(call), s);
  }

  lemma OwnBucketIsFresh(call: Call)
    ensures BucketOf(call).start >= StaleOf(call)
  {
  }

  lemma {:induction false} SomeAreAdmitted(windows: set<int>, lag: nat, limit: nat, call: Call, n: nat, k: nat) returns (s: State)
    requires n >= 1 && SafeWindow(call.window) in windows && call.maxRequests == limit && k <= n && k <= limit
    ensures Reachable(s, windows, lag, call.key, limit) && SomeAdmitted(s, call, n, k)
  {
    hide Reachable, BucketOf, StaleOf;
    if k == 0 {
      s := AllBegin(windows, lag, limit, call, n);
    } else {
      var before := SomeAreAdmitted(windows, lag, limit, call, n, k - 1);
      OwnBucketIsFresh(call);
      s := Admit(before.(horizon := Later(before.horizon, StaleOf(call))), k - 1, BucketOf(call));
      AdmittedAlone(before, windows, lag, call.key, limit, k - 1, s);
      CountOfAppend(before.log, BucketOf(call), BucketOf(call));
    }
  }

  /** One second too late for two of the windows, and one request too many is admitted: of one more
      calls than the limit, all but the last are admitted, a later call prunes their bucket, and the
      last one finds it empty. */
  lemma OneTooMany(windows: set<int>, w: nat, w': nat, lag: nat, key: string, limit: nat) returns (end: State, b: Bucket)
    requires w in windows && w' in windows && w >= 1 && w' >= 1 && lag > Slack(w, w') && limit >= 1
    ensures Reachable(end, windows, lag, key, limit) && b.key == key && CountOf(end.log, b) == limit + 1
  {
    hide Reachable, BucketOf, StaleOf, Slack;
    var start, late := BeyondSlack(w, w', lag);
    var call, pruning := Call(key, limit, w', start), Call(key, limit, w, start + late);
    b := BucketOf(call);
    OneBucketPruned(call, pruning, w, w');
    var s := SomeAreAdmitted(windows, lag, limit, call, limit + 1, limit);
    var s1 := s.(callers := s.callers + [Caller(pruning, Deleting(0))], clock := pruning.now);
    ReachNext(s, windows, lag, key, limit, Begin(pruning), s1);
    var s2 := Step(s1, Delete(limit + 1));
    LateIsWithin(w, w', lag, late);
    ReachNext(s1, windows, lag, key, limit, Delete(limit + 1), s2);
    assert s2.table == map[];
    end := Admit(s2.(horizon := Later(s2.horizon, StaleOf(call))), limit, b);
    AdmittedAlone(s2, windows, lag, key, limit, limit, end);
    CountOfAppend(s.log, b, b);
  }

  lemma OneBucketPruned(call: Call, pruning: Call, w: nat, w': nat)
    requires w >= 1 && w' >= 1 && call.window == w' && pruning.window == w
    requires StaleBefore(pruning.now, w) > BucketStart(call.now, w')
    ensures BucketOf(call).start < StaleOf(pruning) && BucketOf(call).key == call.key
  {
  }

  lemma LateIsWithin(w: nat, w': nat, lag: nat, late: nat)
    requires w >= 1 && lag > Slack(w, w') && late == (if Slack(w, w') < 0 then 0 else Slack(w, w') + 1)
    ensures late <= lag
  {
  }

  /** The bound holds in every run within a lag exactly if the lag is within the slack of any two of
      the windows. */
  lemma BoundHoldsExactly(windows: set<int>, lag: nat)
    requires forall w <- windows :: w >= 1
    ensures BoundHolds(windows, lag) <==> LagAllowed(windows, lag)
  {
    hide Slack, LagRun, KeyLimited;
    if LagAllowed(windows, lag) {
      SlackMakesCompatible(windows, lag);
      forall events, end, b: Bucket, limit: nat |
        limit >= 1 && LagRun(EMPTY, windows, lag, events, end) && KeyLimited(events, b.key, limit)
        ensures CountOf(end.log, b) <= limit
      {
        LagRunIsPrompt(EMPTY, windows, lag, events, end);
        EveryInterleaving(windows, events, end, b, limit);
        CountOfIsExact(end.log, b);
      }
    } else {
      var w, w' :| w in windows && w' in windows && lag > Slack(w, w');
      var end, b := OneTooMany(windows, w, w', lag, "", 1);
      var events :| LagRun(EMPTY, windows, lag, events, end) && KeyLimited(events, "", 1);
    }
  }

  lemma SlackMakesCompatible(windows: set<int>, lag: nat)
    requires (forall w <- windows :: w >= 1) && LagAllowed(windows, lag)
    ensures Compatible(windows)
  {
    hide Slack;
    forall w, w' | w in windows && w' in windows ensures NeverPrunes(w, w') {
      PrunesWithinExactly(w, w', 0);
    }
  }

  /** For the windows of the Training Hub's rules the limit is three minutes. */
  lemma ThreeMinutesExactly(lag: nat)
    ensures BoundHolds({60, 300, 600}, lag) <==> lag <= 180
  {
    var windows := {60, 300, 600};
    BoundHoldsExactly(windows, lag);
    hide BoundHolds;
    RuleSlacks();
    hide Slack;
    if lag <= 180 {
      forall w, w' | w in windows && w' in windows ensures lag <= Slack(w, w') {
      }
    } else {
      assert 60 in windows && 600 in windows && lag > Slack(60, 600);
    }
  }

  lemma RuleSlacks()
    ensures Slack(60, 60) == 720 && Slack(60, 300) == 480 && Slack(60, 600) == 180
    ensures Slack(300, 60) == 3600 && Slack(300, 300) == 3600 && Slack(300, 600) == 3300
    ensures Slack(600, 60) == 7200 && Slack(600, 300) == 7200 && Slack(600, 600) == 7200
  {
    assert Gcd(300, 60) == Gcd(60, 0) == 60 && Gcd(60, 300) == Gcd(300, 60);
    assert Gcd(600, 60) == Gcd(60, 0) == 60 && Gcd(60, 600) == Gcd(600, 60);
    assert Gcd(600, 300) == Gcd(300, 0) == 300 && Gcd(300, 600) == Gcd(600, 300);
    assert Gcd(60, 60) == 60 && Gcd(300, 300) == 300 && Gcd(600, 600) == 600;
  }
}
