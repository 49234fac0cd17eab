/** The two-level response cache: a local level in front of Redis, which may lose writes, fail reads
    and drop keys. `set` holds the chain's lock, `get` takes none. Each step runs from one await to
    the next; a Redis reply that is later than `lag` is a timeout, that is a failure. */
module ResponseCache {
  import opened Options
  import opened LocalCache

  datatype Config = Config(localTtl: real, redisTtl: real, limit: nat, lag: real)

  predicate Sensible(c: Config) {
    c.localTtl >= 1.0 && c.redisTtl >= 1.0 && c.limit >= 1 && c.lag >= 0.0
  }

  datatype Row = Row(response: Response, expiresAt: real)

  /** The `n`-th `set` ever begun stores response `n`; this is what it stored and when. */
  datatype SetRecord = SetRecord(key: string, setAt: real)

  datatype Outcome =
    | Missed
    | Served(response: Response, servedAt: real, latestThen: Response, raced: bool)
    | Stored

  datatype Call =
    | Storing(key: string, response: Response)
    | ReadingRedis(key: string)
    | Warming(key: string, response: Response, readAt: real, racing: bool)
    | Done(key: string, outcome: Outcome)

  datatype State = State(
    slots: Slots,
    redis: map<string, Row>,
    holder: Option<nat>,
    calls: seq<Call>,
    history: seq<SetRecord>,
    latest: map<string, Response>,
    clock: real)

  datatype Event =
    | BeginSet(key: string, now: real)
    | RedisSet(i: nat, now: real, stores: bool)
    | BeginGet(key: string, now: real)
    | RedisGet(i: nat, now: real, replies: bool)
    | Warm(i: nat, now: real)
    | CancelGet(i: nat)
    | RedisDrops(key: string)

  predicate Enabled(s: State, c: Config, e: Event) {
    match e
    case BeginSet(_, now) => s.holder.None? && now >= s.clock
    case RedisSet(i, now, stores) =>
      && i < |s.calls| && s.calls[i].Storing? && now >= s.clock
      && (stores ==> s.calls[i].response < |s.history| && now <= s.history[s.calls[i].response].setAt + c.lag)
    case BeginGet(_, now) => now >= s.clock
    case RedisGet(i, now, _) => i < |s.calls| && s.calls[i].ReadingRedis? && now >= s.clock
    case Warm(i, now) => i < |s.calls| && s.calls[i].Warming? && s.clock <= now <= s.calls[i].readAt + c.lag
    case CancelGet(i) => i < |s.calls| && (s.calls[i].ReadingRedis? || s.calls[i].Warming?)
    case RedisDrops(_) => true
  }

  predicate StoringKey(s: State, key: string) {
    && s.holder.Some? && s.holder.value < |s.calls|
    && s.calls[s.holder.value].Storing? && s.calls[s.holder.value].key == key
  }

  /** A `set` of `key` begins while this call may be carrying an older response of that key. */
  function Overtaken(call: Call, key: string): Call {
    if call.Warming? && call.key == key then call.(racing := true) else call
  }

  function AllOvertaken(calls: seq<Call>, key: string): (r: seq<Call>)
    ensures |r| == |calls| && forall i :: 0 <= i < |r| ==> r[i] == Overtaken(calls[i], key)
  {
    if calls == [] then [] else AllOvertaken(calls[..|calls| - 1], key) + [Overtaken(calls[|calls| - 1], key)]
  }

  function At(s: State, i: nat, call: Call): State
    requires i < |s.calls|
  {
    s.(calls := s.calls[i := call])
  }

  function LatestOf(s: State, key: string): Response {
    if key in s.latest then s.latest[key] else 0
  }

  function Step(s: State, c: Config, e: Event): State
    requires Enabled(s, c, e)
  {
    match e
    case BeginSet(key, now) =>
      var r := |s.history|;
      State(AfterSet(s.slots, key, r, now, c.localTtl, c.limit), s.redis, Some(|s.calls|),
            AllOvertaken(s.calls, key) + [Storing(key, r)],
            s.history + [SetRecord(key, now)], s.latest[key := r], now)
    case RedisSet(i, now, stores) =>
      var call := s.calls[i];
      At(s, i, Done(call.key, Stored)).(
        redis := if stores then s.redis[call.key := Row(call.response, now + c.redisTtl)] else s.redis,
        holder := None, clock := now)
    case BeginGet(key, now) =>
      var hit := Hit(s.slots, key, now);
      var call := if hit.Some? then Done(key, Served(hit.value, now, LatestOf(s, key), false)) else ReadingRedis(key);
      s.(slots := AfterGet(s.slots, key, now), calls := s.calls + [call], clock := now)
    case RedisGet(i, now, replies) =>
      var key := s.calls[i].key;
      if replies && key in s.redis && now < s.redis[key].expiresAt
      then At(s, i, Warming(key, s.redis[key].response, now, StoringKey(s, key))).(clock := now)
      else At(s, i, Done(key, Missed)).(clock := now)
    case Warm(i, now) =>
      var call := s.calls[i];
      At(s, i, Done(call.key, Served(call.response, now, LatestOf(s, call.key), call.racing))).(
        slots := AfterSet(s.slots, call.key, call.response, now, c.localTtl, c.limit), clock := now)
    case CancelGet(i) => At(s, i, Done(s.calls[i].key, Missed))
    case RedisDrops(key) => s.(redis := s.redis - {key})
  }

  ghost predicate Run(s: State, c: Config, events: seq<Event>, end: State)
    decreases |events|
  {
    if events == [] then s == end
    else Enabled(s, c, events[0]) && Run(Step(s, c, events[0]), c, events[1..], end)
  }

  const EMPTY := State([], map[], None, [], [], map[], 0.0)

  // --------------------------------------------------------------------- age

  /** The longest time for which a response can be served after its `set` began. */
  function MaxAge(c: Config): real {
    c.localTtl + c.redisTtl + 2.0 * c.lag
  }

  predicate Known(s: State, key: string, r: Response) {
    r < |s.history| && s.history[r].key == key
  }

  predicate SlotInTime(s: State, c: Config, slot: Slot) {
    Known(s, slot.key, slot.value) && slot.expiresAt <= s.history[slot.value].setAt + MaxAge(c)
  }

  predicate RowInTime(s: State, c: Config, key: string, row: Row) {
    Known(s, key, row.response) && row.expiresAt <= s.history[row.response].setAt + c.lag + c.redisTtl
  }

  predicate CallInTime(s: State, c: Config, call: Call) {
    match call
    case Storing(key, r) => Known(s, key, r)
    case ReadingRedis(_) => true
    case Warming(key, r, readAt, _) => Known(s, key, r) && readAt < s.history[r].setAt + c.lag + c.redisTtl
    case Done(key, outcome) =>
      outcome.Served? ==>
        && Known(s, key, outcome.response)
        && outcome.servedAt < s.history[outcome.response].setAt + MaxAge(c)
  }

  ghost predicate InTime(s: State, c: Config) {
    && Valid(s.slots, c.limit)
    && (forall slot <- s.slots :: SlotInTime(s, c, slot))
    && (forall key <- s.redis :: RowInTime(s, c, key, s.redis[key]))
    && (forall i :: 0 <= i < |s.calls| ==> CallInTime(s, c, s.calls[i]))
  }

  predicate Grows(s: State, s': State) {
    |s.history| <= |s'.history| && s'.history[..|s.history|] == s.history
  }

  lemma KnownLater(s: State, s': State, key: string, r: Response)
    requires Known(s, key, r) && Grows(s, s')
    ensures Known(s', key, r) && s'.history[r] == s.history[r]
  {
    assert s'.history[..|s.history|][r] == s.history[r];
  }

  lemma CallLater(s: State, s': State, c: Config, call: Call)
    requires CallInTime(s, c, call) && Grows(s, s')
    ensures CallInTime(s', c, call)
  {
    match call {
      case Storing(key, r) => KnownLater(s, s', key, r);
      case ReadingRedis(_) =>
      case Warming(key, r, _, _) => KnownLater(s, s', key, r);
      case Done(key, outcome) => if outcome.Served? { KnownLater(s, s', key, outcome.response); }
    }
  }

  lemma HitInTime(s: State, c: Config, key: string, now: real)
    requires InTime(s, c) && Hit(s.slots, key, now).Some?
    ensures var r := Hit(s.slots, key, now).value; Known(s, key, r) && now < s.history[r].setAt + MaxAge(c)
  {
    var slot := Find(Live(s.slots, now), key).value;
    LiveIsUnexpired(s.slots, now);
    assert SlotInTime(s, c, slot);
  }

  /** The slots after a step: in time, bounded, and without duplicates. */
  lemma SlotsInTime(s: State, c: Config, e: Event)
    requires Sensible(c) && InTime(s, c) && Enabled(s, c, e)
    ensures var s' := Step(s, c, e); Grows(s, s') && Valid(s'.slots, c.limit) && forall slot <- s'.slots :: SlotInTime(s', c, slot)
  {
    hide AfterGet, AfterSet, Hit;
    var s' := Step(s, c, e);
    assert s'.history[..|s.history|] == s.history;
    match e {
      case BeginSet(key, now) =>
        SetKeepsValid(s.slots, key, |s.history|, now, c.localTtl, c.limit);
        SetAddsOne(s.slots, key, |s.history|, now, c.localTtl, c.limit);
      case BeginGet(key, now) =>
        GetKeepsValid(s.slots, key, now, c.limit);
        GetAddsNothing(s.slots, key, now);
      case Warm(i, now) =>
        assert CallInTime(s, c, s.calls[i]);
        SetKeepsValid(s.slots, s.calls[i].key, s.calls[i].response, now, c.localTtl, c.limit);
        SetAddsOne(s.slots, s.calls[i].key, s.calls[i].response, now, c.localTtl, c.limit);
      case _ =>
    }
    forall slot <- s'.slots ensures SlotInTime(s', c, slot) {
      if slot in s.slots {
        assert SlotInTime(s, c, slot);
        KnownLater(s, s', slot.key, slot.value);
      }
    }
  }

  lemma RowsInTime(s: State, c: Config, e: Event)
    requires Sensible(c) && InTime(s, c) && Enabled(s, c, e) && Grows(s, Step(s, c, e))
    ensures var s' := Step(s, c, e); forall key <- s'.redis :: RowInTime(s', c, key, s'.redis[key])
  {
    hide AfterGet, AfterSet, Hit;
    var s' := Step(s, c, e);
    forall key <- s'.redis ensures RowInTime(s', c, key, s'.redis[key]) {
      if key in s.redis && s.redis[key] == s'.redis[key] {
        assert RowInTime(s, c, key, s.redis[key]);
        KnownLater(s, s', key, s.redis[key].response);
      } else {
        assert CallInTime(s, c, s.calls[e.i]);
      }
    }
  }

  lemma NewCallInTime(s: State, c: Config, e: Event, i: nat)
    requires Sensible(c) && InTime(s, c) && Enabled(s, c, e) && Grows(s, Step(s, c, e))
    requires i < |Step(s, c, e).calls|
    ensures CallInTime(Step(s, c, e), c, Step(s, c, e).calls[i])
  {
    hide AfterGet, AfterSet, Hit, Live, Find;
    var s' := Step(s, c, e);
    if i < |s.calls| {
      assert CallInTime(s, c, s.calls[i]);
      CallLater(s, s', c, s.calls[i]);
      if e.RedisGet? && s'.calls[i].Warming? {
        if e.i == i { assert RowInTime(s, c, s.calls[i].key, s.redis[s.calls[i].key]); }
      }
    } else if e.BeginGet? && Hit(s.slots, e.key, e.now).Some? {
      HitInTime(s, c, e.key, e.now);
    }
  }

  lemma StepInTime(s: State, c: Config, e: Event)
    requires Sensible(c) && InTime(s, c) && Enabled(s, c, e)
    ensures InTime(Step(s, c, e), c)
  {
    hide Step, Enabled, CallInTime, RowInTime, SlotInTime, Valid;
    SlotsInTime(s, c, e);
    RowsInTime(s, c, e);
    var s' := Step(s, c, e);
    forall i | 0 <= i < |s'.calls| ensures CallInTime(s', c, s'.calls[i]) {
      NewCallInTime(s, c, e, i);
    }
  }

  lemma {:induction false} RunInTime(s: State, c: Config, events: seq<Event>, end: State)
    requires Sensible(c) && InTime(s, c) && Run(s, c, events, end)
    ensures InTime(end, c)
    decreases |events|
  {
    hide InTime, Step, Enabled;
    if events != [] {
      StepInTime(s, c, events[0]);
      RunInTime(Step(s, c, events[0]), c, events[1..], end);
    }
  }

  /** Whatever Redis loses or fails, in every interleaving: a response is served only under the key it
      was set for, and less than the sum of both times to live (plus two reply times) after its `set`
      began; the local level never holds more than its limit, nor a key twice. */
  lemma NothingOldIsServed(c: Config, events: seq<Event>, end: State)
    requires Sensible(c) && Run(EMPTY, c, events, end)
    ensures Valid(end.slots, c.limit)
    ensures forall call <- end.calls :: call.Done? && call.outcome.Served? ==>
              Known(end, call.key, call.outcome.response)
              && call.outcome.servedAt < end.history[call.outcome.response].setAt + MaxAge(c)
  {
    hide Step, Enabled, Run;
    RunInTime(EMPTY, c, events, end);
    forall call <- end.calls ensures CallInTime(end, c, call) {
      var i :| 0 <= i < |end.calls| && end.calls[i] == call;
    }
  }

  // ------------------------------------------------------------------ latest

  /** Redis loses no write. Failed reads and dropped keys are allowed. */
  predicate NoLostWrite(e: Event) {
    e.RedisSet? ==> e.stores
  }

  predicate LockValid(s: State) {
    && (forall i: nat :: i < |s.calls| ==> (s.calls[i].Storing? <==> s.holder == Some(i)))
    && (s.holder.Some? ==>
          && s.holder.value < |s.calls|
          && s.calls[s.holder.value].key in s.latest
          && s.calls[s.holder.value].Storing?
          && s.latest[s.calls[s.holder.value].key] == s.calls[s.holder.value].response)
    && (forall key <- s.latest :: s.latest[key] < |s.history|)
  }

  /** Redis is behind the latest `set` of a key exactly while that `set` is still storing. */
  predicate RowValid(s: State, key: string, row: Row) {
    && key in s.latest && row.response <= s.latest[key]
    && (row.response == s.latest[key] <==> !StoringKey(s, key))
  }

  /** A `get` carries an outdated response exactly if a `set` of its key overtook it. */
  predicate WarmingValid(s: State, call: Call) {
    call.Warming? ==>
      && call.key in s.latest && call.response <= s.latest[call.key]
      && (call.racing <==> call.response != s.latest[call.key])
  }

  predicate RedisValid(s: State) {
    && (forall key <- s.redis :: RowValid(s, key, s.redis[key]))
    && (forall i :: 0 <= i < |s.calls| ==> WarmingValid(s, s.calls[i]))
  }

  predicate IsServed(call: Call) {
    call.Done? && call.outcome.Served?
  }

  predicate NoneRaced(calls: seq<Call>) {
    forall i :: 0 <= i < |calls| && IsServed(calls[i]) ==> !calls[i].outcome.raced
  }

  predicate AllLatest(calls: seq<Call>) {
    forall i :: 0 <= i < |calls| && IsServed(calls[i]) ==> calls[i].outcome.response == calls[i].outcome.latestThen
  }

  predicate RacedAreOutdated(calls: seq<Call>) {
    forall i :: 0 <= i < |calls| && IsServed(calls[i]) && calls[i].outcome.raced ==>
      calls[i].outcome.response != calls[i].outcome.latestThen
  }

  predicate SlotsLatest(s: State) {
    forall slot <- s.slots :: slot.key in s.latest && slot.value == s.latest[slot.key]
  }

  predicate Current(s: State) {
    && LockValid(s) && RedisValid(s)
    && RacedAreOutdated(s.calls)
    && (NoneRaced(s.calls) ==> SlotsLatest(s) && AllLatest(s.calls))
  }

  lemma StepLock(s: State, c: Config, e: Event)
    requires LockValid(s) && Enabled(s, c, e)
    ensures LockValid(Step(s, c, e))
  {
    hide AfterGet, AfterSet, Hit;
  }

  lemma StepRows(s: State, c: Config, e: Event)
    requires LockValid(s) && RedisValid(s) && Enabled(s, c, e) && NoLostWrite(e)
    ensures var s' := Step(s, c, e); forall key <- s'.redis :: RowValid(s', key, s'.redis[key])
  {
    hide AfterGet, AfterSet, Hit;
    var s' := Step(s, c, e);
    forall key <- s'.redis ensures RowValid(s', key, s'.redis[key]) {
      if key in s.redis { assert RowValid(s, key, s.redis[key]); }
    }
  }

  lemma StepWarming(s: State, c: Config, e: Event, i: nat)
    requires LockValid(s) && RedisValid(s) && Enabled(s, c, e)
    requires i < |Step(s, c, e).calls|
    ensures WarmingValid(Step(s, c, e), Step(s, c, e).calls[i])
  {
    hide AfterGet, AfterSet, Hit;
    if i < |s.calls| {
      assert WarmingValid(s, s.calls[i]);
      if e.RedisGet? && e.i == i && s.calls[i].key in s.redis {
        assert RowValid(s, s.calls[i].key, s.redis[s.calls[i].key]);
      }
    }
  }

  lemma ServedStays(s: State, c: Config, e: Event, i: nat)
    requires Enabled(s, c, e) && i < |s.calls| && s.calls[i].Done?
    ensures i < |Step(s, c, e).calls| && Step(s, c, e).calls[i] == s.calls[i]
  {
    hide AfterGet, AfterSet, Hit;
  }

  /** The one call that a step may answer. */
  lemma NewlyServed(s: State, c: Config, e: Event, i: nat)
    requires LockValid(s) && RedisValid(s) && Enabled(s, c, e)
    requires i < |Step(s, c, e).calls| && IsServed(Step(s, c, e).calls[i])
    requires i < |s.calls| ==> !s.calls[i].Done?
    ensures var outcome := Step(s, c, e).calls[i].outcome;
      && (outcome.raced ==> outcome.response != outcome.latestThen)
      && (!outcome.raced && SlotsLatest(s) ==> outcome.response == outcome.latestThen)
  {
    hide AfterGet, AfterSet, Hit;
    if e.Warm? {
      assert WarmingValid(s, s.calls[e.i]);
    } else if e.BeginGet? && Hit(s.slots, e.key, e.now).Some? {
      HitIsASlot(s.slots, e.key, e.now);
    }
  }

  lemma HitIsASlot(slots: Slots, key: string, now: real)
    requires Hit(slots, key, now).Some?
    ensures exists slot <- slots :: slot.key == key && slot.value == Hit(slots, key, now).value
  {
    LiveIsUnexpired(slots, now);
    assert Find(Live(slots, now), key).value in slots;
  }

  lemma StepSlots(s: State, c: Config, e: Event)
    requires LockValid(s) && RedisValid(s) && Enabled(s, c, e) && SlotsLatest(s)
    requires e.Warm? ==> !s.calls[e.i].racing
    ensures SlotsLatest(Step(s, c, e))
  {
    hide AfterGet, AfterSet, Hit;
    match e {
      case BeginSet(key, now) => SetAddsOne(s.slots, key, |s.history|, now, c.localTtl, c.limit);
      case BeginGet(key, now) => GetAddsNothing(s.slots, key, now);
      case Warm(i, now) =>
        assert WarmingValid(s, s.calls[i]);
        SetAddsOne(s.slots, s.calls[i].key, s.calls[i].response, now, c.localTtl, c.limit);
      case _ =>
    }
  }

  lemma StepCurrent(s: State, c: Config, e: Event)
    requires Current(s) && Enabled(s, c, e) && NoLostWrite(e)
    ensures Current(Step(s, c, e))
  {
    hide LockValid, RowValid, WarmingValid, SlotsLatest, StoringKey, AfterGet, AfterSet, Hit;
    var s' := Step(s, c, e);
    StepLock(s, c, e);
    StepRows(s, c, e);
    forall i | 0 <= i < |s'.calls| ensures WarmingValid(s', s'.calls[i]) {
      StepWarming(s, c, e, i);
    }
    StepAnswers(s, c, e);
    if NoneRaced(s'.calls) {
      assert e.Warm? ==> IsServed(s'.calls[e.i]) && s'.calls[e.i].outcome.raced == s.calls[e.i].racing;
      StepSlots(s, c, e);
    }
  }

  lemma StepAnswers(s: State, c: Config, e: Event)
    requires Current(s) && Enabled(s, c, e)
    ensures var s' := Step(s, c, e);
      && RacedAreOutdated(s'.calls)
      && (NoneRaced(s'.calls) ==> NoneRaced(s.calls) && AllLatest(s'.calls))
  {
    hide LockValid, RedisValid, SlotsLatest, Step, Enabled;
    var s' := Step(s, c, e);
    forall i: nat | i < |s.calls| && s.calls[i].Done?
      ensures i < |s'.calls| && s'.calls[i] == s.calls[i]
    {
      ServedStays(s, c, e, i);
    }
    forall i: nat | i < |s'.calls| && IsServed(s'.calls[i])
      ensures s'.calls[i].outcome.raced ==> s'.calls[i].outcome.response != s'.calls[i].outcome.latestThen
      ensures NoneRaced(s'.calls) ==> s'.calls[i].outcome.response == s'.calls[i].outcome.latestThen
    {
      if i >= |s.calls| || !s.calls[i].Done? { NewlyServed(s, c, e, i); }
    }
  }

  lemma {:induction false} RunCurrent(s: State, c: Config, events: seq<Event>, end: State)
    requires Current(s) && Run(s, c, events, end) && forall e <- events :: NoLostWrite(e)
    ensures Current(end)
    decreases |events|
  {
    hide Current, Step, Enabled;
    if events != [] {
      StepCurrent(s, c, events[0]);
      RunCurrent(Step(s, c, events[0]), c, events[1..], end);
    }
  }

  /** While Redis loses no write, every `get` answers with the latest response set, if and only if no
      `get` warmed the local level with a response that a `set` of its key had overtaken: one that was
      storing when Redis was read, or that began before the answer was copied to the local level. */
  lemma ServesTheLatestExactly(c: Config, events: seq<Event>, end: State)
    requires Run(EMPTY, c, events, end) && forall e <- events :: NoLostWrite(e)
    ensures AllLatest(end.calls) <==> NoneRaced(end.calls)
  {
    hide Step, Enabled, Run;
    RunCurrent(EMPTY, c, events, end);
  }

  // ------------------------------------------------------------------ serial

  /** Calls one after the other: none begins before the last one is done. */
  predicate Serial(s: State, e: Event) {
    e.BeginSet? || e.BeginGet? ==> forall i :: 0 <= i < |s.calls| ==> s.calls[i].Done?
  }

  ghost predicate SerialRun(s: State, c: Config, events: seq<Event>)
    decreases |events|
  {
    events != [] ==>
      Enabled(s, c, events[0]) && Serial(s, events[0]) && SerialRun(Step(s, c, events[0]), c, events[1..])
  }

  predicate OneUnderWay(calls: seq<Call>) {
    forall i, j :: 0 <= i < |calls| && 0 <= j < |calls| && !calls[i].Done? && !calls[j].Done? ==> i == j
  }

  predicate NoneRacing(calls: seq<Call>) {
    forall i :: 0 <= i < |calls| && calls[i].Warming? ==> !calls[i].racing
  }

  predicate OneAtATime(s: State) {
    OneUnderWay(s.calls) && NoneRacing(s.calls) && NoneRaced(s.calls)
  }

  /** No `set` is storing while the one call under way is a `get`. */
  lemma LockIsFree(s: State, i: nat)
    requires OneAtATime(s) && LockValid(s) && i < |s.calls| && s.calls[i].ReadingRedis?
    ensures s.holder.None?
  {
  }

  lemma StepOneUnderWay(s: State, c: Config, e: Event)
    requires OneUnderWay(s.calls) && Enabled(s, c, e) && Serial(s, e)
    ensures OneUnderWay(Step(s, c, e).calls)
  {
    hide AfterGet, AfterSet, Hit, AllOvertaken, StoringKey, LatestOf;
  }

  lemma StepNoneRacing(s: State, c: Config, e: Event)
    requires OneAtATime(s) && LockValid(s) && Enabled(s, c, e) && Serial(s, e)
    ensures NoneRacing(Step(s, c, e).calls) && NoneRaced(Step(s, c, e).calls)
  {
    hide AfterGet, AfterSet, Hit, AllOvertaken, LockValid, OneUnderWay, LatestOf;
    if e.RedisGet? { LockIsFree(s, e.i); }
  }

  lemma StepSerial(s: State, c: Config, e: Event)
    requires OneAtATime(s) && LockValid(s) && Enabled(s, c, e) && Serial(s, e)
    ensures OneAtATime(Step(s, c, e))
  {
    hide Step, Enabled, LockValid, Serial, NoneRacing, NoneRaced;
    StepOneUnderWay(s, c, e);
    StepNoneRacing(s, c, e);
  }

  lemma {:induction false} RunSerial(s: State, c: Config, events: seq<Event>, end: State)
    requires OneAtATime(s) && LockValid(s) && SerialRun(s, c, events) && Run(s, c, events, end)
    ensures NoneRaced(end.calls)
    decreases |events|
  {
    hide OneAtATime, LockValid, Step, Enabled, Serial;
    if events == [] {
      assert NoneRaced(s.calls) by { SerialMeansNoneRaced(s); }
    } else {
      StepSerial(s, c, events[0]);
      StepLock(s, c, events[0]);
      RunSerial(Step(s, c, events[0]), c, events[1..], end);
    }
  }

  lemma SerialMeansNoneRaced(s: State)
    requires OneAtATime(s)
    ensures NoneRaced(s.calls)
  {
  }

  /** Calls one after the other, no write lost: every answer is the latest response set. */
  lemma SerialCallsServeTheLatest(c: Config, events: seq<Event>, end: State)
    requires SerialRun(EMPTY, c, events) && Run(EMPTY, c, events, end) && forall e <- events :: NoLostWrite(e)
    ensures AllLatest(end.calls)
  {
    hide Run, SerialRun;
    RunSerial(EMPTY, c, events, end);
    ServesTheLatestExactly(c, events, end);
  }

  // -------------------------------------------------------------- witnesses

  lemma {:induction false} RunSnoc(s: State, c: Config, events: seq<Event>, middle: State, e: Event)
    requires Run(s, c, events, middle) && Enabled(middle, c, e)
    ensures Run(s, c, events + [e], Step(middle, c, e))
    decreases |events|
  {
    hide Step, Enabled;
    if events == [] {
      assert Run(Step(s, c, e), c, [], Step(s, c, e));
      assert ([e])[1..] == [];
    } else {
      RunSnoc(Step(s, c, events[0]), c, events[1..], middle, e);
      assert (events + [e])[1..] == events[1..] + [e];
    }
  }

  /** Reachable without a lost write. */
  ghost predicate Reachable(s: State, c: Config) {
    exists events :: Run(EMPTY, c, events, s) && forall e <- events :: NoLostWrite(e)
  }

  lemma ReachNext(s: State, c: Config, e: Event, s': State)
    requires Reachable(s, c) && Enabled(s, c, e) && s' == Step(s, c, e) && NoLostWrite(e)
    ensures Reachable(s', c)
  {
    hide Step, Enabled, Run;
    var events :| Run(EMPTY, c, events, s) && forall e <- events :: NoLostWrite(e);
    RunSnoc(EMPTY, c, events, s, e);
  }

  lemma StartIsReachable(c: Config)
    ensures Reachable(EMPTY, c)
  {
    assert Run(EMPTY, c, [], EMPTY);
  }

  lemma SetThenHit(slots: Slots, key: string, r: Response, now: real, ttl: real, limit: nat, later: real)
    requires limit >= 1 && later < now + ttl
    ensures Hit(AfterSet(slots, key, r, now, ttl, limit), key, later) == Some(r)
  {
    var after := AfterSet(slots, key, r, now, ttl, limit);
    assert after[|after| - 1] == Slot(key, now + ttl, r);
    assert Live(after, later)[|Live(after, later)| - 1] == Slot(key, now + ttl, r);
  }

  /** Nobody is warming: a `set` overtakes nothing. */
  lemma NothingOvertaken(calls: seq<Call>, key: string)
    requires forall call <- calls :: !call.Warming?
    ensures AllOvertaken(calls, key) == calls
  {
  }

  lemma MissFromNothing(c: Config, key: string) returns (s: State)
    ensures Reachable(s, c) && s == EMPTY.(calls := [ReadingRedis(key)])
  {
    StartIsReachable(c);
    s := EMPTY.(calls := [ReadingRedis(key)]);
    assert Step(EMPTY, c, BeginGet(key, 0.0)) == s;
    hide Reachable;
    ReachNext(EMPTY, c, BeginGet(key, 0.0), s);
  }

  /** A `get` that missed, and one `set` of the key that reached Redis at `stored`. */
  lemma MissedThenSet(c: Config, key: string, stored: real) returns (s: State)
    requires Sensible(c) && 0.0 <= stored <= c.lag
    ensures Reachable(s, c) && s.holder == None && s.clock == stored
    ensures s.calls == [ReadingRedis(key), Done(key, Stored)] && s.history == [SetRecord(key, 0.0)]
    ensures s.redis == map[key := Row(0, stored + c.redisTtl)] && s.latest == map[key := 0]
    ensures s.slots == AfterSet([], key, 0, 0.0, c.localTtl, c.limit)
  {
    hide Reachable, AfterSet, AfterGet, Hit, AllOvertaken;
    var s1 := MissFromNothing(c, key);
    NothingOvertaken(s1.calls, key);
    var s2 := State(AfterSet([], key, 0, 0.0, c.localTtl, c.limit), map[], Some(1),
                    [ReadingRedis(key), Storing(key, 0)], [SetRecord(key, 0.0)], map[key := 0], 0.0);
    assert Step(s1, c, BeginSet(key, 0.0)) == s2;
    ReachNext(s1, c, BeginSet(key, 0.0), s2);
    s := s2.(calls := [ReadingRedis(key), Done(key, Stored)], holder := None, clock := stored,
             redis := map[key := Row(0, stored + c.redisTtl)]);
    assert Step(s2, c, RedisSet(1, stored, true)) == s;
    ReachNext(s2, c, RedisSet(1, stored, true), s);
  }

  /** A response is being served at an age: its time in the answer less the time of its `set`. */
  predicate ServesAt(s: State, call: Call, age: real) {
    && IsServed(call) && Known(s, call.key, call.outcome.response)
    && call.outcome.servedAt - s.history[call.outcome.response].setAt == age
  }

  ghost predicate AgeIsServed(c: Config, age: real) {
    exists s, call :: Reachable(s, c) && call in s.calls && ServesAt(s, call, age)
  }

  /** A `get` that read Redis at `read` and warmed the local level at `warmed`, and a hit at `age`. */
  lemma ServedAfterWarming(c: Config, stored: real, read: real, warmed: real, age: real)
    requires Sensible(c) && 0.0 <= stored <= c.lag && stored <= read < stored + c.redisTtl
    requires read <= warmed <= read + c.lag && warmed <= age < warmed + c.localTtl
    ensures AgeIsServed(c, age)
  {
    hide Reachable, AfterSet, AfterGet, Hit;
    var key := "";
    var s := MissedThenSet(c, key, stored);
    var s1 := At(s, 0, Warming(key, 0, read, false)).(clock := read);
    ReachNext(s, c, RedisGet(0, read, true), s1);
    var s2 := Step(s1, c, Warm(0, warmed));
    ReachNext(s1, c, Warm(0, warmed), s2);
    SetThenHit(s1.slots, key, 0, warmed, c.localTtl, c.limit, age);
    var s3 := Step(s2, c, BeginGet(key, age));
    ReachNext(s2, c, BeginGet(key, age), s3);
    assert ServesAt(s3, s3.calls[2], age);
  }

  lemma ServedLocally(c: Config, age: real)
    requires Sensible(c) && 0.0 <= age < c.localTtl
    ensures AgeIsServed(c, age)
  {
    StartIsReachable(c);
    hide Reachable, AfterSet, AfterGet, Hit;
    var key := "";
    var s1 := Step(EMPTY, c, BeginSet(key, 0.0));
    ReachNext(EMPTY, c, BeginSet(key, 0.0), s1);
    SetThenHit([], key, 0, 0.0, c.localTtl, c.limit, age);
    var s2 := Step(s1, c, BeginGet(key, age));
    ReachNext(s1, c, BeginGet(key, age), s2);
    assert ServesAt(s2, s2.calls[1], age);
  }

  /** Every age below the bound is served by some run, although no write is lost. */
  lemma EveryAgeIsServed(c: Config, age: real)
    requires Sensible(c) && 0.0 <= age < MaxAge(c)
    ensures AgeIsServed(c, age)
  {
    if age < c.localTtl {
      ServedLocally(c, age);
    } else {
      var room := (MaxAge(c) - age) / 2.0;
      var warmed := age - c.localTtl + (if room < c.localTtl then room else c.localTtl);
      var stored := if warmed < c.lag then warmed else c.lag;
      var read := if warmed - c.lag > stored then warmed - c.lag else stored;
      ServedAfterWarming(c, stored, read, warmed, age);
    }
  }

  /** No run, whatever Redis loses, serves at or beyond an age. */
  ghost predicate NeverServedFrom(c: Config, age: real) {
    forall events, end, call :: Run(EMPTY, c, events, end) && call in end.calls && IsServed(call) ==>
      Known(end, call.key, call.outcome.response)
      && call.outcome.servedAt - end.history[call.outcome.response].setAt < age
  }

  /** The bound on the age of an answer is exact. */
  lemma OldestAnswerExactly(c: Config, age: real)
    requires Sensible(c)
    ensures NeverServedFrom(c, age) <==> age >= MaxAge(c)
  {
    hide Run;
    if age >= MaxAge(c) {
      forall events, end, call | Run(EMPTY, c, events, end) && call in end.calls && IsServed(call)
        ensures Known(end, call.key, call.outcome.response)
        ensures call.outcome.servedAt - end.history[call.outcome.response].setAt < age
      {
        NothingOldIsServed(c, events, end);
      }
    } else {
      var served := if age < 0.0 then 0.0 else age;
      EveryAgeIsServed(c, served);
      var s, call :| Reachable(s, c) && call in s.calls && ServesAt(s, call, served);
      var events :| Run(EMPTY, c, events, s);
    }
  }

  /** The sum of both times to live bounds every answer's age exactly if replies take no time. */
  lemma SumOfTtlsExactly(c: Config)
    requires Sensible(c)
    ensures NeverServedFrom(c, c.localTtl + c.redisTtl) <==> c.lag == 0.0
  {
    OldestAnswerExactly(c, c.localTtl + c.redisTtl);
  }

  /** Without a lost write, a `get` that a `set` overtakes can answer with an outdated response, and
      leaves it in the local level, in every configuration. */
  lemma OvertakenGetServesOutdated(c: Config, key: string) returns (end: State)
    requires Sensible(c)
    ensures Reachable(end, c) && !AllLatest(end.calls) && !NoneRaced(end.calls)
    ensures end.latest == map[key := 1] && Hit(end.slots, key, end.clock) == Some(0)
  {
    hide Reachable, AfterSet, AfterGet, Hit;
    var s := MissedThenSet(c, key, 0.0);
    var s1 := At(s, 0, Warming(key, 0, 0.0, false));
    ReachNext(s, c, RedisGet(0, 0.0, true), s1);
    var s2 := Step(s1, c, BeginSet(key, 0.0));
    ReachNext(s1, c, BeginSet(key, 0.0), s2);
    end := Step(s2, c, Warm(0, 0.0));
    ReachNext(s2, c, Warm(0, 0.0), end);
    SetThenHit(s2.slots, key, 0, 0.0, c.localTtl, c.limit, 0.0);
    assert IsServed(end.calls[0]) && end.calls[0].outcome == Served(0, 0.0, 1, true);
  }

  // ------------------------------------------------------------------- class

  /** Redis as a map whose keys expire. */
  class Redis {
    const ttlSeconds: real
    var rows: map<string, Row>

    constructor (ttlSeconds: int)
      ensures this.ttlSeconds == (if ttlSeconds < 1 then 1 else ttlSeconds) as real && rows == map[]
    {
      this.ttlSeconds := (if ttlSeconds < 1 then 1 else ttlSeconds) as real;
      rows := map[];
    }

    method Lookup(key: string, now: real, replies: bool) returns (cached: Option<Response>)
      ensures cached == if replies && key in rows && now < rows[key].expiresAt then Some(rows[key].response) else None
    {
      if !replies || key !in rows || now >= rows[key].expiresAt {
        return None;
      }
      return Some(rows[key].response);
    }

    method Store(key: string, response: Response, now: real, stores: bool)
      modifies this`rows
      ensures rows == if stores then old(rows)[key := Row(response, now + ttlSeconds)] else old(rows)
    {
      if stores {
        rows := rows[key := Row(response, now + ttlSeconds)];
      }
    }
  }

  ghost predicate Follows(s: State, c: Config, s': State) {
    exists events :: Run(s, c, events, s')
  }

  lemma FollowsItself(s: State, c: Config)
    ensures Follows(s, c, s)
  {
    assert Run(s, c, [], s);
  }

  lemma FollowsNext(start: State, c: Config, s: State, e: Event, s': State)
    requires Follows(start, c, s) && Enabled(s, c, e) && s' == Step(s, c, e)
    ensures Follows(start, c, s')
  {
    hide Run, Step, Enabled;
    var events :| Run(start, c, events, s);
    RunSnoc(start, c, events, s, e);
  }

  lemma {:induction false} RunsInTurn(s: State, c: Config, first: seq<Event>, middle: State, second: seq<Event>, end: State)
    requires Run(s, c, first, middle) && Run(middle, c, second, end)
    ensures Run(s, c, first + second, end)
    decreases |first|
  {
    hide Step, Enabled;
    if first == [] {
      assert [] + second == second;
    } else {
      RunsInTurn(Step(s, c, first[0]), c, first[1..], middle, second, end);
      assert (first + second)[1..] == first[1..] + second;
    }
  }

  lemma FollowsInTurn(start: State, c: Config, middle: State, end: State)
    requires Follows(start, c, middle) && Follows(middle, c, end)
    ensures Follows(start, c, end)
  {
    hide Run;
    var first, second :| Run(start, c, first, middle) && Run(middle, c, second, end);
    RunsInTurn(start, c, first, middle, second, end);
  }

  predicate OfCall(e: Event, i: nat) {
    || (e.RedisSet? && e.i == i) || (e.RedisGet? && e.i == i) || (e.Warm? && e.i == i) || (e.CancelGet? && e.i == i)
  }

  /** The others may mark a call as overtaken, and nothing else. */
  lemma OthersTouchLittle(s: State, c: Config, e: Event, i: nat)
    requires Enabled(s, c, e) && i < |s.calls| && !OfCall(e, i)
    ensures var s' := Step(s, c, e);
      i < |s'.calls| && SameCall(s.calls[i], s'.calls[i]) && s.clock <= s'.clock
  {
    hide AfterGet, AfterSet, Hit, LatestOf, StoringKey;
  }

  predicate SameCall(a: Call, b: Call) {
    a == b || (a.Warming? && b == a.(racing := true))
  }

  lemma StepKeepsSlots(s: State, c: Config, e: Event)
    requires Enabled(s, c, e) && Valid(s.slots, c.limit)
    ensures Valid(Step(s, c, e).slots, c.limit)
  {
    hide AfterGet, AfterSet, Hit, Valid, LatestOf, StoringKey;
    assert DistinctKeys(s.slots) by { ValidIsDistinct(s.slots, c.limit); }
    match e {
      case BeginSet(key, now) => SetKeepsValid(s.slots, key, |s.history|, now, c.localTtl, c.limit);
      case BeginGet(key, now) => GetKeepsValid(s.slots, key, now, c.limit);
      case Warm(i, now) => SetKeepsValid(s.slots, s.calls[i].key, s.calls[i].response, now, c.localTtl, c.limit);
      case _ =>
    }
  }

  predicate HasRow(rows: map<string, Row>, key: string, now: real) {
    key in rows && now < rows[key].expiresAt
  }

  /** A `get` past the local level answers with an unexpired row of Redis as it is read, if Redis
      replies, and nothing is late. */
  predicate ReadsThrough(read: State, key: string, now: real, replies: bool, cached: Option<Response>, late: bool) {
    if replies && HasRow(read.redis, key, now) && !late then cached == Some(read.redis[key].response) else cached == None
  }

  /** The chain over both levels, and the calls that are suspended at an await. The last three fields
      only keep the history that the protocol speaks about. */
  class ResponseCacheChain {
    const local: LocalResponseCache
    const remote: Redis
    const lag: real
    var holder: Option<nat>
    var calls: seq<Call>
    var history: seq<SetRecord>
    var latest: map<string, Response>
    var clock: real

    constructor (local: LocalResponseCache, remote: Redis, lag: real)
      requires LocalCache.Valid(local.entries, local.maxEntries)
      ensures Valid() && this.local == local && this.remote == remote && this.lag == lag
      ensures Now() == State(local.entries, remote.rows, None, [], [], map[], 0.0)
    {
      this.local, this.remote, this.lag := local, remote, lag;
      holder, calls, history, latest, clock := None, [], [], map[], 0.0;
    }

    function Settings(): Config
    {
      Config(local.ttlSeconds, remote.ttlSeconds, local.maxEntries, lag)
    }

    function Now(): State
      reads this, local, remote
    {
      State(local.entries, remote.rows, holder, calls, history, latest, clock)
    }

    predicate Valid()
      reads local
    {
      LocalCache.Valid(local.entries, local.maxEntries)
    }

    /** Anything that the other calls and Redis may do, in any order; what is not possible is skipped. */
    method Others(i: nat, events: seq<Event>)
      requires Valid() && i < |calls|
      modifies this, local`entries, remote`rows
      ensures Valid() && i < |calls| && SameCall(old(calls[i]), calls[i]) && old(clock) <= clock
      ensures Follows(old(Now()), Settings(), Now())
    {
      ghost var c := Settings();
      FollowsItself(Now(), c);
      hide Follows, Step, Enabled, LocalCache.Valid;
      for k := 0 to |events|
        invariant Valid() && i < |calls| && SameCall(old(calls[i]), calls[i]) && old(clock) <= clock
        invariant Follows(old(Now()), c, Now())
      {
        if Enabled(Now(), Settings(), events[k]) && !OfCall(events[k], i) {
          var s := Step(Now(), Settings(), events[k]);
          FollowsNext(old(Now()), c, Now(), events[k], s);
          OthersTouchLittle(Now(), c, events[k], i);
          StepKeepsSlots(Now(), c, events[k]);
          local.entries, remote.rows := s.slots, s.redis;
          holder, calls, history, latest, clock := s.holder, s.calls, s.history, s.latest, s.clock;
        }
      }
    }

    // From one await to the next, these are the steps of `get` and `set`.

    method BeginLookup(key: string, now: real) returns (i: nat)
      requires Valid() && clock <= now
      modifies this`calls, this`clock, local`entries
      ensures Valid() && i == |old(calls)| && |calls| == i + 1
      ensures Now() == Step(old(Now()), Settings(), BeginGet(key, now))
      ensures calls[..i] == old(calls) && calls[i].key == key && clock == now
      ensures calls[i] == ReadingRedis(key) || (calls[i].Done? && calls[i].outcome.Served?)
      ensures forall r: Response ::
        calls[i].Done? && calls[i].outcome.response == r <==> HasUnexpired(old(local.entries), key, now, r)
    {
      hide AfterGet, Hit, LocalCache.Valid, HasUnexpired;
      i := |calls|;
      var entry := local.Lookup(key, now);
      if entry.Some? {
        calls := calls + [Done(key, Served(entry.value, now, LatestOf(Now(), key), false))];
      } else {
        calls := calls + [ReadingRedis(key)];
      }
      clock := now;
    }

    method ReadRedis(i: nat, now: real, replies: bool)
      requires i < |calls| && calls[i].ReadingRedis? && clock <= now
      modifies this`calls, this`clock
      ensures Now() == Step(old(Now()), Settings(), RedisGet(i, now, replies))
      ensures var key := old(calls[i].key);
        if replies && HasRow(remote.rows, key, now)
        then calls[i].Warming? && calls[i].key == key && calls[i].response == remote.rows[key].response && calls[i].readAt == now
        else calls[i] == Done(key, Missed)
      ensures clock == now
    {
      var key := calls[i].key;
      var entry := remote.Lookup(key, now, replies);
      if entry.Some? {
        calls := calls[i := Warming(key, entry.value, now, StoringKey(Now(), key))];
      } else {
        calls := calls[i := Done(key, Missed)];
      }
      clock := now;
    }

    method WarmLocal(i: nat, now: real)
      requires Valid() && i < |calls| && calls[i].Warming? && clock <= now <= calls[i].readAt + lag
      modifies this`calls, this`clock, local`entries
      ensures Valid() && Now() == Step(old(Now()), Settings(), Warm(i, now))
      ensures calls[i].Done? && calls[i].outcome.Served? && calls[i].outcome.response == old(calls[i].response)
      ensures local.maxEntries > 0 ==>
        local.entries != []
        && local.entries[|local.entries| - 1] == Slot(old(calls[i].key), now + local.ttlSeconds, old(calls[i].response))
    {
      hide AfterSet, LocalCache.Valid;
      var call := calls[i];
      local.Store(call.key, call.response, now);
      calls := calls[i := Done(call.key, Served(call.response, now, LatestOf(Now(), call.key), call.racing))];
      clock := now;
    }

    method GiveUp(i: nat)
      requires i < |calls| && (calls[i].ReadingRedis? || calls[i].Warming?)
      modifies this`calls
      ensures Now() == Step(old(Now()), Settings(), CancelGet(i))
    {
      calls := calls[i := Done(calls[i].key, Missed)];
    }

    method BeginStore(key: string, now: real) returns (i: nat)
      requires Valid() && holder.None? && clock <= now
      modifies this, local`entries
      ensures Valid() && i == |old(calls)| && |calls| == i + 1
      ensures Now() == Step(old(Now()), Settings(), BeginSet(key, now))
      ensures calls[i] == Storing(key, |old(history)|) && holder == Some(i)
      ensures local.maxEntries > 0 ==>
        local.entries != [] && local.entries[|local.entries| - 1] == Slot(key, now + local.ttlSeconds, |old(history)|)
    {
      hide AfterSet, LocalCache.Valid;
      i := |calls|;
      var response := |history|;
      local.Store(key, response, now);
      holder := Some(i);
      calls := AllOvertaken(calls, key) + [Storing(key, response)];
      history, latest, clock := history + [SetRecord(key, now)], latest[key := response], now;
    }

    method RedisStored(i: nat, now: real, stores: bool)
      requires Enabled(Now(), Settings(), RedisSet(i, now, stores))
      modifies this`calls, this`holder, this`clock, remote`rows
      ensures Now() == Step(old(Now()), Settings(), RedisSet(i, now, stores))
      ensures remote.rows == if stores
        then old(remote.rows)[old(calls[i].key) := Row(old(calls[i].response), now + remote.ttlSeconds)] else old(remote.rows)
      ensures holder == None && local.entries == old(local.entries)
    {
      var key, response := calls[i].key, calls[i].response;
      remote.Store(key, response, now, stores);
      calls, holder, clock := calls[i := Done(key, Stored)], None, now;
    }

    /** A `get` amid any others: everything that happens is a run of the protocol, in which the call
        ends with the returned answer. It is the unexpired local entry if there is one, and otherwise
        the row that Redis has at the moment `read` of that run, unless Redis does not reply or warming
        the local level takes too long. */
    method Lookup(key: string, before: seq<Event>, between: seq<Event>, elapsed: real, replies: bool)
        returns (i: nat, cached: Option<Response>, ghost read: State)
      requires Valid() && elapsed >= 0.0
      modifies this, local`entries, remote`rows
      ensures Valid() && Follows(old(Now()), Settings(), read) && Follows(read, Settings(), Now())
      ensures i < |calls| && calls[i].Done?
      ensures cached == if calls[i].outcome.Served? then Some(calls[i].outcome.response) else None
      ensures (exists r: Response :: HasUnexpired(old(local.entries), key, old(clock), r)) ==>
        cached.Some? && HasUnexpired(old(local.entries), key, old(clock), cached.value)
      ensures !(exists r: Response :: HasUnexpired(old(local.entries), key, old(clock), r)) ==>
        ReadsThrough(read, key, read.clock + elapsed, replies, cached, clock > read.clock + elapsed + lag)
    {
      ghost var start, c := Now(), Settings();
      FollowsItself(start, c);
      hide Follows, AfterGet, AfterSet, Hit, LocalCache.Valid, HasUnexpired, ReadsThrough, Step;
      i := BeginLookup(key, clock);
      FollowsNext(start, c, start, BeginGet(key, clock), Now());
      read := Now();
      if calls[i].Done? {
        FollowsItself(read, c);
        assert HasUnexpired(start.slots, key, start.clock, calls[i].outcome.response);
        return i, Some(calls[i].outcome.response), read;
      }
      Others(i, before);
      FollowsInTurn(start, c, read, Now());
      read := Now();
      assert calls[i] == ReadingRedis(key);
      cached := ReadThrough(i, between, elapsed, replies);
    }

    method ReadThrough(i: nat, between: seq<Event>, elapsed: real, replies: bool) returns (cached: Option<Response>)
      requires Valid() && elapsed >= 0.0 && i < |calls| && calls[i].ReadingRedis?
      modifies this, local`entries, remote`rows
      ensures Valid() && Follows(old(Now()), Settings(), Now())
      ensures i < |calls| && calls[i].Done?
      ensures cached == if calls[i].outcome.Served? then Some(calls[i].outcome.response) else None
      ensures ReadsThrough(old(Now()), old(calls[i].key), old(clock) + elapsed, replies, cached, clock > old(clock) + elapsed + lag)
    {
      ghost var start := Now();
      FollowsItself(start, Settings());
      hide Follows, AfterGet, AfterSet, Hit, LocalCache.Valid;
      ghost var c, s := Settings(), Now();
      ReadRedis(i, clock + elapsed, replies);
      FollowsNext(start, c, s, RedisGet(i, clock, replies), Now());
      if calls[i].Done? {
        return None;
      }
      s := Now();
      Others(i, between);
      FollowsInTurn(start, c, s, Now());
      s := Now();
      if clock > calls[i].readAt + lag {
        GiveUp(i);
        FollowsNext(start, c, s, CancelGet(i), Now());
        return None;
      }
      WarmLocal(i, clock);
      FollowsNext(start, c, s, Warm(i, clock), Now());
      cached := Some(calls[i].outcome.response);
    }

    /** A `set` amid any others that has the lock. */
    method Store(key: string, between: seq<Event>, elapsed: real, stores: bool) returns (i: nat)
      requires Valid() && holder.None? && elapsed >= 0.0
      modifies this, local`entries, remote`rows
      ensures Valid() && Follows(old(Now()), Settings(), Now())
      ensures i < |calls| && calls[i] == Done(key, Stored)
    {
      ghost var start, c := Now(), Settings();
      FollowsItself(start, c);
      hide Follows, AfterGet, AfterSet, Hit, LocalCache.Valid;
      i := BeginStore(key, clock);
      FollowsNext(start, c, start, BeginSet(key, clock), Now());
      ghost var s := Now();
      Others(i, between);
      FollowsInTurn(start, c, s, Now());
      s := Now();
      var r, now := calls[i].response, clock + elapsed;
      var inTime := stores && r < |history| && now <= history[r].setAt + lag;
      RedisStored(i, now, inTime);
      FollowsNext(start, c, s, RedisSet(i, now, inTime), Now());
    }
  }
}
