/** Serving market snapshots: lock-free readers, inline refreshes under a lock, and the background
    refresher that switches inline refreshes off. Each step runs from one await to the next. */
module SnapshotService {
  import opened Options

  /** A snapshot and the time it was generated at, in seconds. */
  datatype Snapshot = Snapshot(id: int, generatedAt: real)

  datatype Settings = Settings(cacheTtl: real, staleIfError: real)

  /** Times are stored in whole milliseconds. */
  function Millis(t: real): real {
    (t * 1000.0).Floor as real / 1000.0
  }

  function Stored(s: Snapshot): Snapshot {
    s.(generatedAt := Millis(s.generatedAt))
  }

  /** What a write leaves in the database: the same snapshot, its time cut down by less than a millisecond. */
  ghost predicate IsStoredForm(stored: Option<Snapshot>, s: Snapshot) {
    && stored.Some? && stored.value.id == s.id
    && s.generatedAt - 0.001 < stored.value.generatedAt <= s.generatedAt
    && (stored.value.generatedAt * 1000.0).Floor as real == stored.value.generatedAt * 1000.0
  }

  lemma StoredIsStoredForm(s: Snapshot)
    ensures IsStoredForm(Some(Stored(s)), s)
  {
    var n := (s.generatedAt * 1000.0).Floor;
    assert Stored(s).generatedAt * 1000.0 == n as real;
  }

  lemma MillisMonotone(a: real, b: real)
    requires a <= b
    ensures Millis(a) <= Millis(b) <= b
  {
    var u, v := a * 1000.0, b * 1000.0;
    assert u <= v && u.Floor <= v.Floor;
    assert v.Floor as real <= v;
  }

  predicate IsFresh(s: Snapshot, now: real, settings: Settings) {
    now - s.generatedAt < settings.cacheTtl
  }

  predicate CanServeStale(s: Snapshot, now: real, settings: Settings) {
    now - s.generatedAt < settings.staleIfError
  }

  predicate YoungerThan(s: Option<Snapshot>, now: real, limit: real) {
    s.Some? && now - s.value.generatedAt < limit
  }

  // ------------------------------------------------------------------- state

  /** Why a call ends without a snapshot; `NothingServable` has what it could have fallen back on, and
      its clock. */
  datatype Cause = Cancelled | WriteFailed | OtherError | NothingServable(fallback: Option<Snapshot>, at: real)

  datatype Answer =
    | Served(snapshot: Snapshot, isStale: bool, asOf: real)
    | Fetched(snapshot: Snapshot)
    | Raised(cause: Cause)

  /** What a reader saw before it asked for the lock: its clock, the stored snapshot, and the inline switch. */
  datatype Seen = Seen(now: real, stored: Option<Snapshot>, inlineEnabled: bool)

  datatype Reader =
    | Reading(now: real)
    | HasRead(now: real, stored: Option<Snapshot>)
    | AwaitingLock(seen: Seen)
    | Rechecking(seen: Seen, recheckNow: real)
    | Fetching(seen: Seen, recheckNow: real, fallback: Option<Snapshot>)
    | Persisting(seen: Seen, loaded: Snapshot)
    | Finished(startedAt: real, answer: Answer)

  datatype Refresher = Off | Sleeping | RefresherFetching | RefresherPersisting(loaded: Snapshot)

  datatype Holder = Nobody | HeldByReader(reader: nat) | HeldByRefresher

  datatype State = State(
    stored: Option<Snapshot>,
    holder: Holder,
    inlineEnabled: bool,
    clock: real,
    readers: seq<Reader>,
    refresher: Refresher)

  datatype Event =
    | NewRead(now: real)
    | ReadStore(i: nat)
    | Decide(i: nat)
    | TakeLock(i: nat, now: real)
    | Recheck(i: nat)
    | FetchOk(i: nat, id: int, now: real)
    | FetchFails(i: nat)
    | FetchRaises(i: nat)
    | PersistOk(i: nat)
    | PersistFails(i: nat)
    | CancelReader(i: nat)
    | StartRefresher
    | RefresherTakesLock
    | RefresherFetchOk(id: int, now: real)
    | RefresherFetchFails
    | RefresherPersistOk
    | RefresherPersistFails
    | StopRefresher

  predicate Enabled(s: State, e: Event) {
    match e
    case NewRead(now) => now >= s.clock
    case ReadStore(i) => i < |s.readers| && s.readers[i].Reading?
    case Decide(i) => i < |s.readers| && s.readers[i].HasRead?
    case TakeLock(i, now) => i < |s.readers| && s.readers[i].AwaitingLock? && s.holder.Nobody? && now >= s.clock
    case Recheck(i) => i < |s.readers| && s.readers[i].Rechecking?
    case FetchOk(i, _, now) => i < |s.readers| && s.readers[i].Fetching? && now >= s.clock
    case FetchFails(i) => i < |s.readers| && s.readers[i].Fetching?
    case FetchRaises(i) => i < |s.readers| && s.readers[i].Fetching?
    case PersistOk(i) => i < |s.readers| && s.readers[i].Persisting?
    case PersistFails(i) => i < |s.readers| && s.readers[i].Persisting?
    case CancelReader(i) => i < |s.readers| && !s.readers[i].Persisting? && !s.readers[i].Finished?
    case StartRefresher => s.refresher.Off?
    case RefresherTakesLock => s.refresher.Sleeping? && s.holder.Nobody?
    case RefresherFetchOk(_, now) => s.refresher.RefresherFetching? && now >= s.clock
    case RefresherFetchFails => s.refresher.RefresherFetching?
    case RefresherPersistOk => s.refresher.RefresherPersisting?
    case RefresherPersistFails => s.refresher.RefresherPersisting?
    case StopRefresher => !s.refresher.RefresherPersisting?
  }

  function At(s: State, i: nat, r: Reader): State
    requires i < |s.readers|
  {
    s.(readers := s.readers[i := r])
  }

  function Unlocked(s: State): State {
    s.(holder := Nobody)
  }

  function StartedAt(r: Reader): real {
    match r
    case Reading(now) => now
    case HasRead(now, _) => now
    case Finished(startedAt, _) => startedAt
    case _ => r.seen.now
  }

  /** The lock-free part of `_load_snapshot`, once its database read is back. */
  function AfterRead(now: real, stored: Option<Snapshot>, inlineEnabled: bool, settings: Settings): Reader {
    if stored.Some? && IsFresh(stored.value, now, settings) then Finished(now, Served(stored.value, false, now))
    else if stored.Some? && !inlineEnabled && CanServeStale(stored.value, now, settings)
    then Finished(now, Served(stored.value, true, now))
    else AwaitingLock(Seen(now, stored, inlineEnabled))
  }

  /** The part under the lock, after the second database read. */
  function AfterRecheck(stored: Option<Snapshot>, settings: Settings, r: Reader): Reader
    requires r.Rechecking?
  {
    if stored.Some? && IsFresh(stored.value, r.recheckNow, settings)
    then Finished(r.seen.now, Served(stored.value, false, r.recheckNow))
    else Fetching(r.seen, r.recheckNow, if stored.Some? then stored else r.seen.stored)
  }

  /** What `_load_snapshot` falls back on when the fetch fails. */
  function AfterFailure(settings: Settings, r: Reader): Reader
    requires r.Fetching?
  {
    if r.fallback.Some? && CanServeStale(r.fallback.value, r.recheckNow, settings)
    then Finished(r.seen.now, Served(r.fallback.value, true, r.recheckNow))
    else Finished(r.seen.now, Raised(NothingServable(r.fallback, r.recheckNow)))
  }

  function Step(s: State, settings: Settings, e: Event): State
    requires Enabled(s, e)
  {
    match e
    case NewRead(now) => s.(readers := s.readers + [Reading(now)], clock := now)
    case ReadStore(i) => At(s, i, HasRead(s.readers[i].now, s.stored))
    case Decide(i) => At(s, i, AfterRead(s.readers[i].now, s.readers[i].stored, s.inlineEnabled, settings))
    case TakeLock(i, now) => At(s, i, Rechecking(s.readers[i].seen, now)).(holder := HeldByReader(i), clock := now)
    case Recheck(i) =>
      var r := AfterRecheck(s.stored, settings, s.readers[i]);
      if r.Finished? then Unlocked(At(s, i, r)) else At(s, i, r)
    case FetchOk(i, id, now) => At(s, i, Persisting(s.readers[i].seen, Snapshot(id, now))).(clock := now)
    case FetchFails(i) => Unlocked(At(s, i, AfterFailure(settings, s.readers[i])))
    case FetchRaises(i) => Unlocked(At(s, i, Finished(s.readers[i].seen.now, Raised(OtherError))))
    case PersistOk(i) =>
      var r := s.readers[i];
      Unlocked(At(s, i, Finished(r.seen.now, Fetched(r.loaded)))).(stored := Some(Stored(r.loaded)))
    case PersistFails(i) => Unlocked(At(s, i, Finished(s.readers[i].seen.now, Raised(WriteFailed))))
    case CancelReader(i) =>
      var s' := At(s, i, Finished(StartedAt(s.readers[i]), Raised(Cancelled)));
      if s.holder == HeldByReader(i) then Unlocked(s') else s'
    case StartRefresher => s.(refresher := Sleeping)
    case RefresherTakesLock => s.(refresher := RefresherFetching, holder := HeldByRefresher)
    case RefresherFetchOk(id, now) => s.(refresher := RefresherPersisting(Snapshot(id, now)), clock := now)
    case RefresherFetchFails => Unlocked(s.(refresher := Sleeping))
    case RefresherPersistOk =>
      Unlocked(s.(refresher := Sleeping, inlineEnabled := false, stored := Some(Stored(s.refresher.loaded))))
    case RefresherPersistFails => Unlocked(s.(refresher := Sleeping))
    case StopRefresher =>
      var s' := s.(refresher := Off, inlineEnabled := true);
      if s.holder.HeldByRefresher? then Unlocked(s') else s'
  }

  // -------------------------------------------------------------- invariants

  predicate InLock(r: Reader) {
    r.Rechecking? || r.Fetching? || r.Persisting?
  }

  predicate RefresherInLock(r: Refresher) {
    r.RefresherFetching? || r.RefresherPersisting?
  }

  /** The lock is held by exactly the party that is in its critical section. */
  predicate LockValid(s: State) {
    && (forall i: nat :: i < |s.readers| ==> (InLock(s.readers[i]) <==> s.holder == HeldByReader(i)))
    && (s.holder.HeldByReader? ==> s.holder.reader < |s.readers|)
    && (RefresherInLock(s.refresher) <==> s.holder.HeldByRefresher?)
  }

  /** A loaded snapshot about to be stored is no older than the stored one, nor ahead of the clock. */
  predicate LoadedValid(loaded: Snapshot, stored: Option<Snapshot>, clock: real) {
    && loaded.generatedAt <= clock
    && (stored.Some? ==> stored.value.generatedAt <= Millis(loaded.generatedAt))
  }

  predicate TimesValid(s: State) {
    && (s.stored.Some? ==> s.stored.value.generatedAt <= Millis(s.clock))
    && (forall i: nat :: i < |s.readers| && s.readers[i].Persisting? ==>
          LoadedValid(s.readers[i].loaded, s.stored, s.clock))
    && (s.refresher.RefresherPersisting? ==> LoadedValid(s.refresher.loaded, s.stored, s.clock))
  }

  /** A call goes beyond its lock-free read only if it saw nothing fresh, and nothing it could serve
      while inline refreshes were off. */
  predicate MustGoOn(seen: Seen, settings: Settings) {
    seen.stored.Some? ==>
      var age := seen.now - seen.stored.value.generatedAt;
      settings.cacheTtl <= age && (seen.inlineEnabled || settings.staleIfError <= age)
  }

  /** What an answer promises to the call that started at `startedAt`. */
  predicate AnswerValid(a: Answer, startedAt: real, settings: Settings, clock: real) {
    match a
    case Served(snapshot, isStale, asOf) =>
      && startedAt <= asOf <= clock
      && asOf - snapshot.generatedAt < if isStale then settings.staleIfError else settings.cacheTtl
    case Fetched(snapshot) => startedAt <= snapshot.generatedAt <= clock
    case Raised(NothingServable(fallback, at)) =>
      && startedAt <= at <= clock
      && (fallback.Some? ==> settings.staleIfError <= at - fallback.value.generatedAt)
    case Raised(_) => true
  }

  predicate ReaderValid(r: Reader, settings: Settings, clock: real) {
    && StartedAt(r) <= clock
    && match r
       case Reading(_) => true
       case HasRead(_, _) => true
       case AwaitingLock(seen) => MustGoOn(seen, settings)
       case Rechecking(seen, recheckNow) => MustGoOn(seen, settings) && seen.now <= recheckNow <= clock
       case Fetching(seen, recheckNow, _) => MustGoOn(seen, settings) && seen.now <= recheckNow <= clock
       case Persisting(seen, loaded) => MustGoOn(seen, settings) && seen.now <= loaded.generatedAt <= clock
       case Finished(startedAt, answer) => AnswerValid(answer, startedAt, settings, clock)
  }

  predicate ReadersValid(s: State, settings: Settings) {
    forall i: nat :: i < |s.readers| ==> ReaderValid(s.readers[i], settings, s.clock)
  }

  predicate Valid(s: State, settings: Settings) {
    LockValid(s) && TimesValid(s) && ReadersValid(s, settings) && (s.refresher.Off? ==> s.inlineEnabled)
  }

  predicate StoredNotBefore(s: State, s': State) {
    s.stored.Some? ==> s'.stored.Some? && s.stored.value.generatedAt <= s'.stored.value.generatedAt
  }

  /** A reader may change together with the lock if the lock was free or its own, and stays so. */
  lemma LockOfOneReader(s: State, i: nat, s': State)
    requires LockValid(s) && i < |s.readers| == |s'.readers| && s'.readers == s.readers[i := s'.readers[i]]
    requires s'.refresher == s.refresher
    requires InLock(s'.readers[i]) <==> s'.holder == HeldByReader(i)
    requires s'.holder == s.holder
          || (s.holder in {Nobody, HeldByReader(i)} && s'.holder in {Nobody, HeldByReader(i)})
    ensures LockValid(s')
  {
    forall j: nat | j < |s'.readers| ensures InLock(s'.readers[j]) <==> s'.holder == HeldByReader(j) {
      assert j != i ==> s'.readers[j] == s.readers[j];
    }
  }

  predicate OfReader(e: Event) {
    || e.ReadStore? || e.Decide? || e.TakeLock? || e.Recheck? || e.FetchOk? || e.FetchFails? || e.FetchRaises?
    || e.PersistOk? || e.PersistFails? || e.CancelReader?
  }

  lemma StepLock(s: State, settings: Settings, e: Event)
    requires LockValid(s) && Enabled(s, e)
    ensures LockValid(Step(s, settings, e))
  {
    hide IsFresh, CanServeStale, Stored;
    if OfReader(e) {
      hide LockValid;
      assert InLock(s.readers[e.i]) <==> s.holder == HeldByReader(e.i) by { LockAt(s, e.i); }
      LockOfOneReader(s, e.i, Step(s, settings, e));
    } else {
      LockOfOthers(s, settings, e);
    }
  }

  lemma LockAt(s: State, i: nat)
    requires LockValid(s) && i < |s.readers|
    ensures InLock(s.readers[i]) <==> s.holder == HeldByReader(i)
  {
  }

  lemma LockOfOthers(s: State, settings: Settings, e: Event)
    requires LockValid(s) && Enabled(s, e) && !OfReader(e)
    ensures LockValid(Step(s, settings, e))
  {
    hide IsFresh, CanServeStale, Stored;
  }

  /** Only the holder of the lock stores a snapshot, so nobody else is about to store one. */
  lemma StoringIsExclusive(s: State, settings: Settings, e: Event, j: nat)
    requires LockValid(s) && Enabled(s, e) && (e.PersistOk? || e.RefresherPersistOk?)
    ensures var s' := Step(s, settings, e);
      j < |s'.readers| ==> !s'.readers[j].Persisting?
    ensures !Step(s, settings, e).refresher.RefresherPersisting?
  {
    if j < |s.readers| { assert InLock(s.readers[j]) <==> s.holder == HeldByReader(j); }
    if e.PersistOk? { assert InLock(s.readers[e.i]) <==> s.holder == HeldByReader(e.i); }
  }

  lemma StepTimes(s: State, settings: Settings, e: Event)
    requires LockValid(s) && TimesValid(s) && Enabled(s, e)
    ensures TimesValid(Step(s, settings, e)) && s.clock <= Step(s, settings, e).clock
    ensures StoredNotBefore(s, Step(s, settings, e))
  {
    hide Millis, IsFresh, CanServeStale, LockValid;
    var s' := Step(s, settings, e);
    MillisMonotone(s.clock, s'.clock);
    if e.PersistOk? {
      MillisMonotone(s.readers[e.i].loaded.generatedAt, s.clock);
    } else if e.RefresherPersistOk? {
      MillisMonotone(s.refresher.loaded.generatedAt, s.clock);
    }
    forall j: nat | j < |s'.readers| && s'.readers[j].Persisting?
      ensures LoadedValid(s'.readers[j].loaded, s'.stored, s'.clock)
    {
      if e.PersistOk? || e.RefresherPersistOk? { StoringIsExclusive(s, settings, e, j); }
    }
    if e.PersistOk? || e.RefresherPersistOk? { StoringIsExclusive(s, settings, e, 0); }
  }

  lemma StillValid(r: Reader, settings: Settings, clock: real, later: real)
    requires ReaderValid(r, settings, clock) && clock <= later
    ensures ReaderValid(r, settings, later)
  {
  }

  lemma SteppedReader(s: State, settings: Settings, e: Event)
    requires Enabled(s, e) && OfReader(e) && ReaderValid(s.readers[e.i], settings, s.clock)
    ensures ReaderValid(Step(s, settings, e).readers[e.i], settings, Step(s, settings, e).clock)
  {
    hide Stored;
  }

  lemma OthersUntouched(s: State, settings: Settings, e: Event, i: nat)
    requires Enabled(s, e) && i < |s.readers| && (OfReader(e) ==> e.i != i)
    ensures i < |Step(s, settings, e).readers| && Step(s, settings, e).readers[i] == s.readers[i]
  {
    hide IsFresh, CanServeStale, Stored;
  }

  lemma StepReaders(s: State, settings: Settings, e: Event)
    requires ReadersValid(s, settings) && Enabled(s, e) && s.clock <= Step(s, settings, e).clock
    ensures ReadersValid(Step(s, settings, e), settings)
  {
    hide ReaderValid, AfterRead, AfterRecheck, AfterFailure, Stored;
    var s' := Step(s, settings, e);
    NewReader(settings, s'.clock);
    forall i: nat | i < |s'.readers| ensures ReaderValid(s'.readers[i], settings, s'.clock) {
      if i < |s.readers| {
        assert ReaderValid(s.readers[i], settings, s.clock);
        if OfReader(e) && e.i == i {
          SteppedReader(s, settings, e);
        } else {
          OthersUntouched(s, settings, e, i);
          StillValid(s.readers[i], settings, s.clock, s'.clock);
        }
      }
    }
  }

  lemma NewReader(settings: Settings, now: real)
    ensures ReaderValid(Reading(now), settings, now)
  {
  }

  lemma StepKeepsValid(s: State, settings: Settings, e: Event)
    requires Valid(s, settings) && Enabled(s, e)
    ensures Valid(Step(s, settings, e), settings)
    ensures StoredNotBefore(s, Step(s, settings, e))
  {
    hide LockValid, TimesValid, ReadersValid, StoredNotBefore, AfterRead, AfterRecheck, AfterFailure, Stored;
    StepLock(s, settings, e);
    StepTimes(s, settings, e);
    StepReaders(s, settings, e);
  }

  ghost predicate Run(s: State, settings: Settings, events: seq<Event>, end: State)
    decreases |events|
  {
    if events == [] then s == end
    else Enabled(s, events[0]) && Run(Step(s, settings, events[0]), settings, events[1..], end)
  }

  lemma {:induction false} RunKeepsValid(s: State, settings: Settings, events: seq<Event>, end: State)
    requires Valid(s, settings) && Run(s, settings, events, end)
    ensures Valid(end, settings) && StoredNotBefore(s, end)
    decreases |events|
  {
    hide Valid, Step, Enabled;
    if events != [] {
      StepKeepsValid(s, settings, events[0]);
      RunKeepsValid(Step(s, settings, events[0]), settings, events[1..], end);
    }
  }

  /** A process that has just started over whatever the database holds. */
  predicate Initial(s: State) {
    && s.holder.Nobody? && s.inlineEnabled && s.readers == [] && s.refresher.Off?
    && (s.stored.Some? ==> s.stored.value.generatedAt <= Millis(s.clock))
  }

  /** In every interleaving of readers, inline refreshes, cancellations and the background refresher:
      at most one upstream fetch is in progress; the stored time only moves forward; an answer that
      is not stale was fetched during its own call or younger than the TTL at a moment of that call,
      and a stale one was younger than the stale limit; a call is upstream only if it saw nothing it
      could serve; and without a refresher inline refreshes are on. */
  lemma EveryInterleaving(start: State, settings: Settings, events: seq<Event>, middle: State, later: seq<Event>, end: State)
    requires Initial(start) && Run(start, settings, events, middle) && Run(middle, settings, later, end)
    ensures forall i, j | 0 <= i < |end.readers| && 0 <= j < |end.readers| ::
              end.readers[i].Fetching? && end.readers[j].Fetching? ==> i == j
    ensures end.refresher.RefresherFetching? ==> forall r <- end.readers :: !r.Fetching?
    ensures StoredNotBefore(middle, end)
    ensures forall r <- end.readers :: r.Finished? ==> AnswerValid(r.answer, r.startedAt, settings, end.clock)
    ensures forall r <- end.readers :: r.Fetching? ==> MustGoOn(r.seen, settings)
    ensures end.refresher.Off? ==> end.inlineEnabled
  {
    hide Run, Millis, AnswerValid, MustGoOn;
    RunKeepsValid(start, settings, events, middle);
    RunKeepsValid(middle, settings, later, end);
  }

  // ------------------------------------------------- what a call is answered

  /** Stored at some moment of a run. */
  ghost predicate WasStored(s: State, settings: Settings, events: seq<Event>, x: Snapshot)
    decreases |events|
  {
    || s.stored == Some(x)
    || (events != [] && Enabled(s, events[0]) && WasStored(Step(s, settings, events[0]), settings, events[1..], x))
  }

  predicate Known(x: Option<Snapshot>, known: iset<Snapshot>) {
    x.Some? ==> x.value in known
  }

  /** All that a reader remembers or was served is known, and what it fetched is known in its stored form. */
  predicate KnowsOnly(r: Reader, known: iset<Snapshot>) {
    match r
    case Reading(_) => true
    case HasRead(_, stored) => Known(stored, known)
    case Fetching(seen, _, fallback) => Known(seen.stored, known) && Known(fallback, known)
    case Finished(_, Served(x, _, _)) => x in known
    case Finished(_, Fetched(x)) => Stored(x) in known
    case Finished(_, Raised(_)) => true
    case _ => Known(r.seen.stored, known)
  }

  lemma StepKnowsOnly(s: State, settings: Settings, e: Event, known: iset<Snapshot>, i: nat)
    requires Enabled(s, e) && Known(s.stored, known) && Known(Step(s, settings, e).stored, known)
    requires forall r <- s.readers :: KnowsOnly(r, known)
    requires i < |Step(s, settings, e).readers|
    ensures KnowsOnly(Step(s, settings, e).readers[i], known)
  {
    hide IsFresh, CanServeStale, Stored;
    if i < |s.readers| {
      assert s.readers[i] in s.readers;
      if !(OfReader(e) && e.i == i) { OthersUntouched(s, settings, e, i); }
    }
  }

  lemma {:induction false} RunKnowsOnly(s: State, settings: Settings, events: seq<Event>, end: State, known: iset<Snapshot>)
    requires Run(s, settings, events, end)
    requires forall x: Snapshot :: WasStored(s, settings, events, x) ==> x in known
    requires forall r <- s.readers :: KnowsOnly(r, known)
    ensures forall r <- end.readers :: KnowsOnly(r, known)
    decreases |events|
  {
    hide Step, Enabled, KnowsOnly;
    if events != [] {
      var next := Step(s, settings, events[0]);
      assert forall x: Snapshot :: WasStored(next, settings, events[1..], x) ==> WasStored(s, settings, events, x);
      forall r <- next.readers ensures KnowsOnly(r, known) {
        var i :| 0 <= i < |next.readers| && next.readers[i] == r;
        StepKnowsOnly(s, settings, events[0], known, i);
      }
      RunKnowsOnly(next, settings, events[1..], end, known);
    }
  }

  /** Every snapshot that was ever served had been stored before, and a fetched one was stored. */
  lemma ServedWasStored(start: State, settings: Settings, events: seq<Event>, end: State, r: Reader)
    requires start.readers == [] && Run(start, settings, events, end)
    requires r in end.readers && r.Finished?
    ensures r.answer.Served? ==> WasStored(start, settings, events, r.answer.snapshot)
    ensures r.answer.Fetched? ==> exists x ::
      WasStored(start, settings, events, x) && IsStoredForm(Some(x), r.answer.snapshot)
  {
    hide Run, WasStored;
    var known := iset x: Snapshot | WasStored(start, settings, events, x);
    RunKnowsOnly(start, settings, events, end, known);
    assert KnowsOnly(r, known);
    if r.answer.Fetched? { StoredIsStoredForm(r.answer.snapshot); }
  }

  lemma {:induction false} FinishedStays(s: State, settings: Settings, events: seq<Event>, end: State, i: nat)
    requires Run(s, settings, events, end) && i < |s.readers| && s.readers[i].Finished?
    ensures i < |end.readers| && end.readers[i] == s.readers[i]
    decreases |events|
  {
    hide Step;
    if events != [] {
      OthersUntouched(s, settings, events[0], i);
      FinishedStays(Step(s, settings, events[0]), settings, events[1..], end, i);
    }
  }

  /** A call that has read a fresh snapshot is only ever answered with exactly that, not stale, unless it
      is cancelled first. */
  lemma {:induction false} FreshReadIsServed(s: State, settings: Settings, events: seq<Event>, end: State, i: nat)
    requires Run(s, settings, events, end) && i < |s.readers| && s.readers[i].HasRead?
    requires YoungerThan(s.readers[i].stored, s.readers[i].now, settings.cacheTtl)
    ensures i < |end.readers|
    ensures var r := s.readers[i];
      end.readers[i] in {r, Finished(r.now, Served(r.stored.value, false, r.now)), Finished(r.now, Raised(Cancelled))}
    decreases |events|
  {
    if events != [] {
      var e := events[0];
      var next := Step(s, settings, e);
      if OfReader(e) && e.i == i {
        assert e.Decide? || e.CancelReader?;
        FinishedStays(next, settings, events[1..], end, i);
      } else {
        OthersUntouched(s, settings, e, i);
        FreshReadIsServed(next, settings, events[1..], end, i);
      }
    }
  }

  /** The event that ends a call without a snapshot for the given cause. */
  function RaisedBy(i: nat, cause: Cause): Event {
    match cause
    case Cancelled => CancelReader(i)
    case WriteFailed => PersistFails(i)
    case OtherError => FetchRaises(i)
    case NothingServable(_, _) => FetchFails(i)
  }

  /** A call is left without a snapshot only by its cancellation, a failed write, another error, or a
      failed fetch, whichever its cause names. */
  lemma {:induction false} RaisedHasCause(s: State, settings: Settings, events: seq<Event>, end: State, i: nat)
    requires Run(s, settings, events, end) && (i < |s.readers| ==> !s.readers[i].Finished?)
    requires i < |end.readers| && end.readers[i].Finished? && end.readers[i].answer.Raised?
    ensures RaisedBy(i, end.readers[i].answer.cause) in events
    decreases |events|
  {
    hide IsFresh, CanServeStale, Stored;
    if events != [] {
      var next := Step(s, settings, events[0]);
      if i < |next.readers| && next.readers[i].Finished? {
        FinishedStays(next, settings, events[1..], end, i);
        EndsWithCause(s, settings, events[0], i);
      } else {
        RaisedHasCause(next, settings, events[1..], end, i);
      }
    }
  }

  lemma EndsWithCause(s: State, settings: Settings, e: Event, i: nat)
    requires Enabled(s, e) && (i < |s.readers| ==> !s.readers[i].Finished?)
    requires i < |Step(s, settings, e).readers| && Step(s, settings, e).readers[i].Finished?
    ensures Step(s, settings, e).readers[i].answer.Raised? ==>
      e == RaisedBy(i, Step(s, settings, e).readers[i].answer.cause)
  {
    hide IsFresh, CanServeStale, Stored;
    if i < |s.readers| && !(OfReader(e) && e.i == i) { OthersUntouched(s, settings, e, i); }
  }

  // ----------------------------------------------------------------- service

  lemma {:induction false} RunSnoc(s: State, settings: Settings, events: seq<Event>, middle: State, e: Event)
    requires Run(s, settings, events, middle) && Enabled(middle, e)
    ensures Run(s, settings, events + [e], Step(middle, settings, e))
    decreases |events|
  {
    hide Step, Enabled;
    if events == [] {
      assert Run(Step(s, settings, e), settings, [], Step(s, settings, e));
      assert ([e])[1..] == [];
    } else {
      RunSnoc(Step(s, settings, events[0]), settings, events[1..], middle, e);
      assert (events + [e])[1..] == events[1..] + [e];
    }
  }

  ghost predicate Follows(s: State, settings: Settings, s': State) {
    exists events :: Run(s, settings, events, s')
  }

  lemma FollowsItself(s: State, settings: Settings)
    ensures Follows(s, settings, s)
  {
    assert Run(s, settings, [], s);
  }

  lemma FollowsNext(start: State, settings: Settings, s: State, e: Event, s': State)
    requires Follows(start, settings, s) && Enabled(s, e) && s' == Step(s, settings, e)
    ensures Follows(start, settings, s')
  {
    hide Run, Step, Enabled;
    var events :| Run(start, settings, events, s);
    RunSnoc(start, settings, events, s, e);
  }

  lemma {:induction false} RunsInTurn(s: State, settings: Settings, first: seq<Event>, middle: State, second: seq<Event>, end: State)
    requires Run(s, settings, first, middle) && Run(middle, settings, second, end)
    ensures Run(s, settings, first + second, end)
    decreases |first|
  {
    hide Step, Enabled;
    if first == [] {
      assert [] + second == second;
    } else {
      RunsInTurn(Step(s, settings, first[0]), settings, first[1..], middle, second, end);
      assert (first + second)[1..] == first[1..] + second;
    }
  }

  lemma FollowsInTurn(start: State, settings: Settings, middle: State, end: State)
    requires Follows(start, settings, middle) && Follows(middle, settings, end)
    ensures Follows(start, settings, end)
  {
    hide Run;
    var first, second :| Run(start, settings, first, middle) && Run(middle, settings, second, end);
    RunsInTurn(start, settings, first, middle, second, end);
  }

  /** What the upstream client and the database do for one call. */
  datatype Upstream = Loads(id: int, persists: bool) | Fails | RaisesOther

  /** What everybody else does in the gaps of one call, and how much time passes there. */
  datatype Gap = Gap(others: seq<Event>, elapsed: real)

  /** A refresh that fails is answered with the fallback, as stale, if that is servable. */
  predicate AnsweredByRefresh(settings: Settings, upstream: Upstream, fallback: Option<Snapshot>, at: real, answer: Answer) {
    match upstream
    case Fails =>
      answer == if YoungerThan(fallback, at, settings.staleIfError) then Served(fallback.value, true, at)
                else Raised(NothingServable(fallback, at))
    case RaisesOther => answer == Raised(OtherError)
    case Loads(id, persists) => if persists then answer.Fetched? && answer.snapshot.id == id else answer == Raised(WriteFailed)
  }

  /** Under the lock a fresh snapshot is served as it is read; the fallback of a refresh is what is read
      there, or else what was read before. */
  predicate AnsweredUnderLock(settings: Settings, upstream: Upstream, read: Option<Snapshot>, at: real,
                              recheck: Option<Snapshot>, answer: Answer)
  {
    if YoungerThan(recheck, at, settings.cacheTtl) then answer == Served(recheck.value, false, at)
    else AnsweredByRefresh(settings, upstream, if recheck.Some? then recheck else read, at, answer)
  }

  /** The service with its lock, and the readers that are suspended at an await. */
  class LowestBinService {
    const settings: Settings
    var stored: Option<Snapshot>
    var holder: Holder
    var inlineEnabled: bool
    var clock: real
    var readers: seq<Reader>
    var refresher: Refresher

    constructor (settings: Settings, stored: Option<Snapshot>, clock: real)
      ensures this.settings == settings && Now() == State(stored, Nobody, true, clock, [], Off)
    {
      this.settings, this.stored, holder, inlineEnabled := settings, stored, Nobody, true;
      this.clock, readers, refresher := clock, [], Off;
    }

    function Now(): State
      reads this
    {
      State(stored, holder, inlineEnabled, clock, readers, refresher)
    }

    /** Anything that the others may do, in any order; what is not possible is skipped. */
    method Others(i: nat, gap: Gap)
      requires i < |readers| && gap.elapsed >= 0.0
      modifies this
      ensures i < |readers| && readers[i] == old(readers[i]) && clock >= old(clock)
      ensures Follows(old(Now()), settings, Now())
      ensures gap.others == [] ==> Now() == old(Now())
    {
      FollowsItself(Now(), settings);
      hide Follows, Step, Enabled;
      for k := 0 to |gap.others|
        invariant i < |readers| && readers[i] == old(readers[i]) && clock >= old(clock)
        invariant Follows(old(Now()), settings, Now())
        invariant k == 0 ==> Now() == old(Now())
      {
        var e := gap.others[k];
        if Enabled(Now(), e) && !(OfReader(e) && e.i == i) {
          var s := Step(Now(), settings, e);
          FollowsNext(old(Now()), settings, Now(), e, s);
          OthersUntouched(Now(), settings, e, i);
          ClockMovesOn(Now(), settings, e);
          stored, holder, inlineEnabled, clock := s.stored, s.holder, s.inlineEnabled, s.clock;
          readers, refresher := s.readers, s.refresher;
        }
      }
    }

    // From one await to the next, these are the steps of a call.

    method BeginLoad(now: real) returns (i: nat)
      requires now >= clock
      modifies this`readers, this`clock
      ensures i == |old(readers)| && i < |readers| && readers[i] == Reading(now)
      ensures Now() == Step(old(Now()), settings, NewRead(now))
    {
      i := |readers|;
      readers, clock := readers + [Reading(now)], now;
    }

    method StoreRead(i: nat)
      requires i < |readers| && readers[i].Reading?
      modifies this`readers
      ensures Now() == Step(old(Now()), settings, ReadStore(i))
      ensures readers == old(readers)[i := HasRead(old(readers[i].now), stored)]
    {
      readers := readers[i := HasRead(readers[i].now, stored)];
    }

    method DecideWithoutLock(i: nat)
      requires i < |readers| && readers[i].HasRead?
      modifies this`readers
      ensures Now() == Step(old(Now()), settings, Decide(i))
      ensures var now, read := old(readers[i].now), old(readers[i].stored);
        readers == old(readers)[i :=
          if YoungerThan(read, now, settings.cacheTtl) then Finished(now, Served(read.value, false, now))
          else if !inlineEnabled && YoungerThan(read, now, settings.staleIfError)
          then Finished(now, Served(read.value, true, now))
          else AwaitingLock(Seen(now, read, inlineEnabled))]
    {
      var now, read := readers[i].now, readers[i].stored;
      if read.Some? {
        if IsFresh(read.value, now, settings) {
          readers := readers[i := Finished(now, Served(read.value, false, now))];
          return;
        }
        if !inlineEnabled && CanServeStale(read.value, now, settings) {
          readers := readers[i := Finished(now, Served(read.value, true, now))];
          return;
        }
      }
      readers := readers[i := AwaitingLock(Seen(now, read, inlineEnabled))];
    }

    method EnterLock(i: nat, now: real)
      requires i < |readers| && readers[i].AwaitingLock? && holder.Nobody? && now >= clock
      modifies this`readers, this`holder, this`clock
      ensures Now() == Step(old(Now()), settings, TakeLock(i, now))
      ensures readers == old(readers)[i := Rechecking(old(readers[i].seen), now)] && clock == now
    {
      holder, clock := HeldByReader(i), now;
      readers := readers[i := Rechecking(readers[i].seen, now)];
    }

    method RecheckStore(i: nat)
      requires i < |readers| && readers[i].Rechecking?
      modifies this`readers, this`holder
      ensures Now() == Step(old(Now()), settings, Recheck(i))
      ensures var seen, recheckNow := old(readers[i].seen), old(readers[i].recheckNow);
        readers == old(readers)[i :=
          if YoungerThan(stored, recheckNow, settings.cacheTtl) then Finished(seen.now, Served(stored.value, false, recheckNow))
          else Fetching(seen, recheckNow, if stored.Some? then stored else seen.stored)]
      ensures holder == if readers[i].Finished? then Nobody else old(holder)
    {
      var seen, recheckNow := readers[i].seen, readers[i].recheckNow;
      if stored.Some? && IsFresh(stored.value, recheckNow, settings) {
        holder := Nobody;
        readers := readers[i := Finished(seen.now, Served(stored.value, false, recheckNow))];
        return;
      }
      readers := readers[i := Fetching(seen, recheckNow, if stored.Some? then stored else seen.stored)];
    }

    method UpstreamFailed(i: nat)
      requires i < |readers| && readers[i].Fetching?
      modifies this`readers, this`holder
      ensures Now() == Step(old(Now()), settings, FetchFails(i))
      ensures var at, fallback := old(readers[i].recheckNow), old(readers[i].fallback);
        readers == old(readers)[i := Finished(old(readers[i].seen.now),
          if YoungerThan(fallback, at, settings.staleIfError) then Served(fallback.value, true, at)
          else Raised(NothingServable(fallback, at)))]
      ensures holder == Nobody
    {
      var seen, recheckNow, fallback := readers[i].seen, readers[i].recheckNow, readers[i].fallback;
      holder := Nobody;
      if fallback.Some? && CanServeStale(fallback.value, recheckNow, settings) {
        readers := readers[i := Finished(seen.now, Served(fallback.value, true, recheckNow))];
        return;
      }
      readers := readers[i := Finished(seen.now, Raised(NothingServable(fallback, recheckNow)))];
    }

    method UpstreamRaised(i: nat)
      requires i < |readers| && readers[i].Fetching?
      modifies this`readers, this`holder
      ensures Now() == Step(old(Now()), settings, FetchRaises(i))
      ensures readers == old(readers)[i := Finished(old(readers[i].seen.now), Raised(OtherError))] && holder == Nobody
    {
      holder := Nobody;
      readers := readers[i := Finished(readers[i].seen.now, Raised(OtherError))];
    }

    method UpstreamLoaded(i: nat, id: int, now: real)
      requires i < |readers| && readers[i].Fetching? && now >= clock
      modifies this`readers, this`clock
      ensures Now() == Step(old(Now()), settings, FetchOk(i, id, now))
      ensures readers == old(readers)[i := Persisting(old(readers[i].seen), Snapshot(id, now))] && clock == now
    {
      readers, clock := readers[i := Persisting(readers[i].seen, Snapshot(id, now))], now;
    }

    method WriteFinished(i: nat, persists: bool)
      requires i < |readers| && readers[i].Persisting?
      modifies this`readers, this`holder, this`stored
      ensures Now() == Step(old(Now()), settings, if persists then PersistOk(i) else PersistFails(i))
      ensures var loaded := old(readers[i].loaded);
        && readers == old(readers)[i :=
             Finished(old(readers[i].seen.now), if persists then Fetched(loaded) else Raised(WriteFailed))]
        && (if persists then IsStoredForm(stored, loaded) else stored == old(stored))
      ensures holder == Nobody
    {
      var seen, loaded := readers[i].seen, readers[i].loaded;
      holder := Nobody;
      if persists {
        stored := Some(Stored(loaded));
        StoredIsStoredForm(loaded);
        readers := readers[i := Finished(seen.now, Fetched(loaded))];
      } else {
        readers := readers[i := Finished(seen.now, Raised(WriteFailed))];
      }
    }

    /** A call amid any others, whatever they do at its awaits: everything that happens is a run of the
        protocol, in which the call ends with the returned answer, or still waits for the lock. What it
        reads before, decides on, and reads again under the lock are what is there at some moments of
        that run; `startedAt` and `at` are its clocks. A fresh snapshot is served as it was read; while
        inline refreshes are off, so is a servable one, as stale; all else is decided under the lock. */
    method LoadSnapshot(gaps: seq<Gap>, upstream: Upstream)
      returns (i: nat, answer: Option<Answer>,
               ghost startedAt: real, ghost read: State, ghost decision: State, ghost at: real, ghost recheck: State)
      requires |gaps| == 7 && forall k :: 0 <= k < 7 ==> gaps[k].elapsed >= 0.0
      modifies this
      ensures Follows(old(Now()), settings, read) && Follows(read, settings, decision)
      ensures Follows(decision, settings, recheck) && Follows(recheck, settings, Now())
      ensures i < |readers|
      ensures answer.Some? ==> readers[i].Finished? && readers[i].answer == answer.value
      ensures answer.None? ==> readers[i].AwaitingLock? && !holder.Nobody?
      ensures startedAt == old(clock) + gaps[0].elapsed && startedAt <= at <= clock
      ensures
        if YoungerThan(read.stored, startedAt, settings.cacheTtl)
        then answer == Some(Served(read.stored.value, false, startedAt))
        else if !decision.inlineEnabled && YoungerThan(read.stored, startedAt, settings.staleIfError)
        then answer == Some(Served(read.stored.value, true, startedAt))
        else answer.Some? ==> AnsweredUnderLock(settings, upstream, read.stored, at, recheck.stored, answer.value)
      ensures (forall gap <- gaps :: gap.others == []) ==>
        && read.stored == recheck.stored == old(stored) && decision.inlineEnabled == old(inlineEnabled)
        && (answer.None? ==> !old(holder).Nobody?)
    {
      hide Follows, AnsweredUnderLock, YoungerThan;
      ghost var s := Now();
      FollowsItself(s, settings);
      startedAt := clock + gaps[0].elapsed;
      i := BeginLoad(clock + gaps[0].elapsed);
      FollowsNext(s, settings, s, NewRead(clock), Now());
      ghost var begun := Now();
      Others(i, gaps[1]);
      FollowsInTurn(s, settings, begun, Now());
      read := Now();
      StoreRead(i);
      FollowsItself(read, settings);
      FollowsNext(read, settings, read, ReadStore(i), Now());
      s := Now();
      answer, decision, at, recheck := AfterStoreRead(i, gaps, upstream);
      FollowsInTurn(read, settings, s, decision);
    }

    method AfterStoreRead(i: nat, gaps: seq<Gap>, upstream: Upstream)
      returns (answer: Option<Answer>, ghost decision: State, ghost at: real, ghost recheck: State)
      requires |gaps| == 7 && forall k :: 0 <= k < 7 ==> gaps[k].elapsed >= 0.0
      requires i < |readers| && readers[i].HasRead? && readers[i].now <= clock
      modifies this
      ensures Follows(old(Now()), settings, decision)
      ensures Follows(decision, settings, recheck) && Follows(recheck, settings, Now())
      ensures i < |readers|
      ensures answer.Some? ==> readers[i].Finished? && readers[i].answer == answer.value
      ensures answer.None? ==> readers[i].AwaitingLock? && !holder.Nobody?
      ensures old(readers[i].now) <= at <= clock
      ensures var now, read := old(readers[i].now), old(readers[i].stored);
        if YoungerThan(read, now, settings.cacheTtl) then answer == Some(Served(read.value, false, now))
        else if !decision.inlineEnabled && YoungerThan(read, now, settings.staleIfError)
        then answer == Some(Served(read.value, true, now))
        else answer.Some? ==> AnsweredUnderLock(settings, upstream, read, at, recheck.stored, answer.value)
      ensures (forall gap <- gaps :: gap.others == []) ==>
        && recheck.stored == old(stored) && decision.inlineEnabled == old(inlineEnabled)
        && (answer.None? ==> !old(holder).Nobody?)
    {
      hide Follows, AnsweredUnderLock, Step;
      FollowsItself(Now(), settings);
      Others(i, gaps[2]);
      decision, at := Now(), clock;
      FollowsItself(decision, settings);
      DecideWithoutLock(i);
      recheck := Now();
      FollowsNext(decision, settings, decision, Decide(i), recheck);
      FollowsItself(recheck, settings);
      if readers[i].Finished? {
        return Some(readers[i].answer), decision, at, recheck;
      }
      ghost var s := Now();
      Others(i, gaps[3]);
      FollowsInTurn(decision, settings, s, Now());
      recheck := Now();
      FollowsItself(recheck, settings);
      if !holder.Nobody? {
        return None, decision, at, recheck;
      }
      EnterLock(i, clock + gaps[3].elapsed);
      at := clock;
      FollowsNext(decision, settings, recheck, TakeLock(i, clock), Now());
      s := Now();
      answer, recheck := UnderLock(i, gaps, upstream);
      FollowsInTurn(decision, settings, s, recheck);
    }

    method UnderLock(i: nat, gaps: seq<Gap>, upstream: Upstream) returns (answer: Option<Answer>, ghost recheck: State)
      requires |gaps| == 7 && forall k :: 0 <= k < 7 ==> gaps[k].elapsed >= 0.0
      requires i < |readers| && readers[i].Rechecking?
      modifies this
      ensures Follows(old(Now()), settings, recheck) && Follows(recheck, settings, Now())
      ensures i < |readers| && clock >= old(clock)
      ensures answer.Some? && readers[i].Finished? && readers[i].answer == answer.value
      ensures AnsweredUnderLock(settings, upstream, old(readers[i].seen.stored), old(readers[i].recheckNow), recheck.stored, answer.value)
      ensures gaps[4].others == [] ==> recheck.stored == old(stored)
    {
      hide Follows, Step;
      Others(i, gaps[4]);
      recheck := Now();
      FollowsItself(recheck, settings);
      RecheckStore(i);
      FollowsNext(recheck, settings, recheck, Recheck(i), Now());
      if readers[i].Finished? {
        return Some(readers[i].answer), recheck;
      }
      ghost var s := Now();
      answer := RefreshSnapshot(i, gaps, upstream);
      FollowsInTurn(recheck, settings, s, Now());
    }

    method RefreshSnapshot(i: nat, gaps: seq<Gap>, upstream: Upstream) returns (answer: Option<Answer>)
      requires |gaps| == 7 && forall k :: 0 <= k < 7 ==> gaps[k].elapsed >= 0.0
      requires i < |readers| && readers[i].Fetching?
      modifies this
      ensures Follows(old(Now()), settings, Now()) && i < |readers| && clock >= old(clock)
      ensures answer.Some? && readers[i].Finished? && readers[i].answer == answer.value
      ensures AnsweredByRefresh(settings, upstream, old(readers[i].fallback), old(readers[i].recheckNow), answer.value)
    {
      hide Follows, Step;
      ghost var start := Now();
      FollowsItself(start, settings);
      Others(i, gaps[5]);
      ghost var s := Now();
      match upstream {
        case Fails =>
          UpstreamFailed(i);
          FollowsNext(start, settings, s, FetchFails(i), Now());
        case RaisesOther =>
          UpstreamRaised(i);
          FollowsNext(start, settings, s, FetchRaises(i), Now());
        case Loads(id, persists) =>
          UpstreamLoaded(i, id, clock + gaps[5].elapsed);
          FollowsNext(start, settings, s, FetchOk(i, id, clock), Now());
          s := Now();
          Others(i, gaps[6]);
          FollowsInTurn(start, settings, s, Now());
          s := Now();
          WriteFinished(i, persists);
          FollowsNext(start, settings, s, if persists then PersistOk(i) else PersistFails(i), Now());
      }
      answer := Some(readers[i].answer);
    }

    /** `refresh` once the upstream fetch is back, and what the refresher does when it is stored. */
    method RefresherWriteFinished(persists: bool)
      requires refresher.RefresherPersisting?
      modifies this`refresher, this`holder, this`stored, this`inlineEnabled
      ensures Now() == Step(old(Now()), settings, if persists then RefresherPersistOk else RefresherPersistFails)
      ensures if persists then IsStoredForm(stored, old(refresher.loaded)) && !inlineEnabled
              else stored == old(stored) && inlineEnabled == old(inlineEnabled)
      ensures holder == Nobody && refresher == Sleeping
    {
      holder := Nobody;
      if persists {
        stored := Some(Stored(refresher.loaded));
        StoredIsStoredForm(refresher.loaded);
        inlineEnabled := false;
      }
      refresher := Sleeping;
    }

    method StopRefreshing()
      requires !refresher.RefresherPersisting?
      modifies this`refresher, this`holder, this`inlineEnabled
      ensures Now() == Step(old(Now()), settings, StopRefresher)
      ensures inlineEnabled && refresher == Off && !holder.HeldByRefresher?
    {
      refresher, inlineEnabled := Off, true;
      if holder.HeldByRefresher? {
        holder := Nobody;
      }
    }
  }

  lemma ClockMovesOn(s: State, settings: Settings, e: Event)
    requires Enabled(s, e)
    ensures s.clock <= Step(s, settings, e).clock
  {
    hide IsFresh, CanServeStale, Stored, AfterRead, AfterRecheck, AfterFailure;
  }
}
