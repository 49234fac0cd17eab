/** Single-flight loading of player payloads: concurrent requests for a cache key share one upstream
    load. Every critical section is one step; completions, cleanups and waiters interleave freely. */
module SingleFlight {
  import opened Options

  type Key = string

  /** The outcome of a load, a value or an error. */
  type Payload = int

  datatype Phase = Running | Done(payload: Payload)

  /** `cleanupDue`: completed, and the delayed cleanup has not run yet. */
  datatype Load = Load(key: Key, phase: Phase, cleanupDue: bool)

  datatype Answer = Pending | Got(payload: Payload) | Cancelled

  /** A call that went through the lock, and the load it awaits. */
  datatype Waiter = Waiter(key: Key, load: nat, answer: Answer)

  datatype Metrics = Metrics(cacheMisses: nat, coalescedWaiters: nat, activeLoads: nat, peakActiveLoads: nat)

  datatype State = State(inflight: map<Key, nat>, loads: seq<Load>, waiters: seq<Waiter>, metrics: Metrics)

  const START := State(map[], [], [], Metrics(0, 0, 0, 0))

  function Max(a: nat, b: nat): nat {
    if a > b then a else b
  }

  function StartedLoad(m: Metrics): Metrics {
    m.(cacheMisses := m.cacheMisses + 1,
       activeLoads := m.activeLoads + 1,
       peakActiveLoads := Max(m.peakActiveLoads, m.activeLoads + 1))
  }

  function FinishedLoad(m: Metrics): Metrics {
    m.(activeLoads := if m.activeLoads == 0 then 0 else m.activeLoads - 1)
  }

  // ------------------------------------------------------------------- steps

  datatype Event =
    | Call(key: Key)
    | Complete(load: nat, payload: Payload)
    | Cleanup(load: nat)
    | Deliver(waiter: nat)
    | CancelWaiter(waiter: nat)

  predicate Enabled(s: State, e: Event) {
    match e
    case Call(_) => true
    case Complete(load, _) => load < |s.loads| && s.loads[load].phase.Running?
    case Cleanup(load) => load < |s.loads| && s.loads[load].cleanupDue
    case Deliver(waiter) =>
      waiter < |s.waiters| && s.waiters[waiter].answer.Pending?
      && s.waiters[waiter].load < |s.loads| && s.loads[s.waiters[waiter].load].phase.Done?
    case CancelWaiter(waiter) => waiter < |s.waiters| && s.waiters[waiter].answer.Pending?
  }

  function Called(s: State, key: Key): State {
    if key in s.inflight then
      s.(waiters := s.waiters + [Waiter(key, s.inflight[key], Pending)],
         metrics := s.metrics.(coalescedWaiters := s.metrics.coalescedWaiters + 1))
    else
      s.(inflight := s.inflight[key := |s.loads|],
         loads := s.loads + [Load(key, Running, false)],
         waiters := s.waiters + [Waiter(key, |s.loads|, Pending)],
         metrics := StartedLoad(s.metrics))
  }

  function CleanedUp(s: State, load: nat): State
    requires load < |s.loads|
  {
    var l := s.loads[load];
    var s' := s.(loads := s.loads[load := l.(cleanupDue := false)]);
    if l.key in s.inflight && s.inflight[l.key] == load then
      s'.(inflight := s.inflight - {l.key}, metrics := FinishedLoad(s.metrics))
    else s'
  }

  function Step(s: State, e: Event): State
    requires Enabled(s, e)
  {
    match e
    case Call(key) => Called(s, key)
    case Complete(load, payload) => s.(loads := s.loads[load := Load(s.loads[load].key, Done(payload), true)])
    case Cleanup(load) => CleanedUp(s, load)
    case Deliver(waiter) =>
      var w := s.waiters[waiter];
      s.(waiters := s.waiters[waiter := w.(answer := Got(s.loads[w.load].phase.payload))])
    case CancelWaiter(waiter) => s.(waiters := s.waiters[waiter := s.waiters[waiter].(answer := Cancelled)])
  }

  // -------------------------------------------------------------- invariants

  /** A load that runs, or whose cleanup is due, is the flight of its key, and nothing else is. */
  ghost predicate FlightsValid(s: State) {
    && (forall i: nat :: i < |s.loads| ==>
          (s.loads[i].cleanupDue ==> s.loads[i].phase.Done?)
          && ((s.loads[i].phase.Running? || s.loads[i].cleanupDue) <==>
              s.loads[i].key in s.inflight && s.inflight[s.loads[i].key] == i))
    && (forall k <- s.inflight :: s.inflight[k] < |s.loads| && s.loads[s.inflight[k]].key == k)
  }

  /** A waiter awaits a load for its own key and only ever gets that load's payload. */
  ghost predicate WaitersValid(s: State) {
    forall i :: 0 <= i < |s.waiters| ==>
      var w := s.waiters[i];
      && w.load < |s.loads| && s.loads[w.load].key == w.key
      && (w.answer.Got? ==> s.loads[w.load].phase == Done(w.answer.payload))
  }

  ghost predicate MetricsValid(s: State) {
    && s.metrics.activeLoads == |s.inflight|
    && s.metrics.cacheMisses == |s.loads|
    && s.metrics.cacheMisses + s.metrics.coalescedWaiters == |s.waiters|
    && s.metrics.peakActiveLoads >= s.metrics.activeLoads
  }

  ghost predicate Valid(s: State) {
    FlightsValid(s) && WaitersValid(s) && MetricsValid(s)
  }

  lemma StepFlights(s: State, e: Event)
    requires Valid(s) && Enabled(s, e)
    ensures FlightsValid(Step(s, e))
  {
  }

  lemma StepWaiters(s: State, e: Event)
    requires Valid(s) && Enabled(s, e)
    ensures WaitersValid(Step(s, e))
  {
  }

  lemma StepMetrics(s: State, e: Event)
    requires Valid(s) && Enabled(s, e)
    ensures MetricsValid(Step(s, e))
  {
    if e.Cleanup? {
      CleanupFindsItsFlight(s, e.load);
      RemoveOne(s.inflight, s.loads[e.load].key);
    }
  }

  lemma RemoveOne(m: map<Key, nat>, k: Key)
    requires k in m
    ensures |m - {k}| == |m| - 1
  {
    assert (m - {k}).Keys == m.Keys - {k};
    assert |m.Keys - {k}| == |m.Keys| - 1;
  }

  /** However late a cleanup runs, the flight of its key is still its own load: it never removes a
      newer flight, it always removes its own, and the active count is at least one. */
  lemma CleanupFindsItsFlight(s: State, load: nat)
    requires Valid(s) && Enabled(s, Cleanup(load))
    ensures var key := s.loads[load].key;
            && key in s.inflight && s.inflight[key] == load
            && Step(s, Cleanup(load)).inflight == s.inflight - {key}
            && s.metrics.activeLoads > 0
            && Step(s, Cleanup(load)).metrics.activeLoads == s.metrics.activeLoads - 1
  {
    assert s.loads[load].key in s.inflight.Keys;
  }

  ghost predicate Run(s: State, events: seq<Event>, end: State)
    decreases |events|
  {
    if events == [] then s == end
    else Enabled(s, events[0]) && Run(Step(s, events[0]), events[1..], end)
  }

  function Calls(events: seq<Event>): nat {
    if events == [] then 0 else (if events[0].Call? then 1 else 0) + Calls(events[1..])
  }

  lemma {:induction false} RunKeepsValid(s: State, events: seq<Event>, end: State)
    requires Valid(s) && Run(s, events, end)
    ensures Valid(end) && |end.waiters| == |s.waiters| + Calls(events)
    decreases |events|
  {
    hide FlightsValid, WaitersValid, MetricsValid;
    if events != [] {
      StepFlights(s, events[0]);
      StepWaiters(s, events[0]);
      StepMetrics(s, events[0]);
      RunKeepsValid(Step(s, events[0]), events[1..], end);
    }
  }

  /** The most flights at any moment of a run. */
  function MostFlights(s: State, events: seq<Event>): (n: nat)
    ensures n >= |s.inflight|
    decreases |events|
  {
    if events == [] || !Enabled(s, events[0]) then |s.inflight|
    else Max(|s.inflight|, MostFlights(Step(s, events[0]), events[1..]))
  }

  lemma StepPeak(s: State, e: Event)
    requires MetricsValid(s) && Enabled(s, e) && MetricsValid(Step(s, e))
    ensures Step(s, e).metrics.peakActiveLoads == Max(s.metrics.peakActiveLoads, |Step(s, e).inflight|)
  {
  }

  lemma {:induction false} PeakIsReached(s: State, events: seq<Event>, end: State)
    requires Valid(s) && Run(s, events, end)
    ensures end.metrics.peakActiveLoads == Max(s.metrics.peakActiveLoads, MostFlights(s, events))
    decreases |events|
  {
    hide FlightsValid, WaitersValid, Step, Enabled;
    if events != [] {
      StepFlights(s, events[0]);
      StepWaiters(s, events[0]);
      StepMetrics(s, events[0]);
      StepPeak(s, events[0]);
      PeakIsReached(Step(s, events[0]), events[1..], end);
    }
  }

  lemma {:induction false} DoneWasCompleted(s: State, events: seq<Event>, end: State, i: nat)
    requires Run(s, events, end) && (i < |s.loads| ==> s.loads[i].phase.Running?)
    requires i < |end.loads| && end.loads[i].phase.Done?
    ensures Complete(i, end.loads[i].phase.payload) in events
    decreases |events|
  {
    if events != [] {
      var next := Step(s, events[0]);
      if i < |next.loads| && next.loads[i].phase.Done? {
        DoneStays(next, events[1..], end, i);
        assert events[0] == Complete(i, next.loads[i].phase.payload);
      } else {
        DoneWasCompleted(next, events[1..], end, i);
      }
    }
  }

  lemma {:induction false} DoneStays(s: State, events: seq<Event>, end: State, i: nat)
    requires Run(s, events, end) && i < |s.loads| && s.loads[i].phase.Done?
    ensures i < |end.loads| && end.loads[i].phase == s.loads[i].phase
    decreases |events|
  {
    if events != [] { DoneStays(Step(s, events[0]), events[1..], end, i); }
  }

  /** In every interleaving: at most one load runs per key, every answered call got the payload of a
      load for its own key as that load was completed with, the active count is the number of flights,
      the peak is the most flights at any moment, and each call was counted once, as a miss if it
      started a load and otherwise as a coalesced waiter. */
  lemma EveryInterleaving(events: seq<Event>, end: State)
    requires Run(START, events, end)
    ensures forall i, j :: 0 <= i < |end.loads| && 0 <= j < |end.loads|
              && end.loads[i].phase.Running? && end.loads[j].phase.Running? && end.loads[i].key == end.loads[j].key
              ==> i == j
    ensures forall w <- end.waiters :: w.answer.Got? ==>
              w.load < |end.loads| && end.loads[w.load] == Load(w.key, Done(w.answer.payload), end.loads[w.load].cleanupDue)
    ensures forall w <- end.waiters :: w.answer.Got? ==> Complete(w.load, w.answer.payload) in events
    ensures end.metrics.cacheMisses == |end.loads|
    ensures end.metrics.activeLoads == |end.inflight| && end.metrics.peakActiveLoads == MostFlights(START, events)
    ensures end.metrics.cacheMisses + end.metrics.coalescedWaiters == Calls(events)
  {
    RunKeepsValid(START, events, end);
    PeakIsReached(START, events, end);
    hide Run, MostFlights;
    forall w <- end.waiters | w.answer.Got?
      ensures w.load < |end.loads|
      ensures end.loads[w.load] == Load(w.key, Done(w.answer.payload), end.loads[w.load].cleanupDue)
      ensures Complete(w.load, w.answer.payload) in events
    {
      var i :| 0 <= i < |end.waiters| && end.waiters[i] == w;
      DoneWasCompleted(START, events, end, w.load);
    }
  }

  // ---------------------------------------------------- the route's methods

  class PlayerQueryMetrics {
    var cacheMisses: nat
    var coalescedWaiters: nat
    var activeUpstreamLoads: nat
    var peakActiveUpstreamLoads: nat

    function Counters(): Metrics
      reads this
    {
      Metrics(cacheMisses, coalescedWaiters, activeUpstreamLoads, peakActiveUpstreamLoads)
    }

    constructor ()
      ensures Counters() == START.metrics
    {
      cacheMisses, coalescedWaiters, activeUpstreamLoads, peakActiveUpstreamLoads := 0, 0, 0, 0;
    }

    method RecordCacheMiss()
      modifies this
      ensures Counters() == old(Counters()).(cacheMisses := old(cacheMisses) + 1)
    {
      cacheMisses := cacheMisses + 1;
    }

    method RecordCoalescedWaiter()
      modifies this
      ensures Counters() == old(Counters()).(coalescedWaiters := old(coalescedWaiters) + 1)
    {
      coalescedWaiters := coalescedWaiters + 1;
    }

    method StartUpstreamLoad()
      modifies this
      ensures activeUpstreamLoads == old(activeUpstreamLoads) + 1
      ensures peakActiveUpstreamLoads >= old(peakActiveUpstreamLoads) && peakActiveUpstreamLoads >= activeUpstreamLoads
      ensures peakActiveUpstreamLoads in {old(peakActiveUpstreamLoads), activeUpstreamLoads}
      ensures cacheMisses == old(cacheMisses) && coalescedWaiters == old(coalescedWaiters)
    {
      activeUpstreamLoads := activeUpstreamLoads + 1;
      peakActiveUpstreamLoads := Max(peakActiveUpstreamLoads, activeUpstreamLoads);
    }

    method FinishUpstreamLoad()
      modifies this
      ensures Counters() == FinishedLoad(old(Counters()))
      ensures activeUpstreamLoads + (if old(activeUpstreamLoads) > 0 then 1 else 0) == old(activeUpstreamLoads)
    {
      activeUpstreamLoads := if activeUpstreamLoads == 0 then 0 else activeUpstreamLoads - 1;
    }
  }

  class PlayersRoute {
    const metrics: PlayerQueryMetrics
    var inflight: map<Key, nat>
    var loads: seq<Load>
    var waiters: seq<Waiter>

    function Now(): State
      reads this, metrics
    {
      State(inflight, loads, waiters, metrics.Counters())
    }

    constructor ()
      ensures Now() == START && fresh(metrics)
    {
      metrics := new PlayerQueryMetrics();
      inflight, loads, waiters := map[], [], [];
    }

    /** The critical section of a request; the returned waiter then awaits its load, shielded. */
    method LoadPlayersQueryPayload(cacheKey: Key) returns (waiter: nat)
      modifies this, metrics
      ensures Now() == Step(old(Now()), Call(cacheKey))
      ensures waiter == |old(waiters)| && |waiters| == waiter + 1
      ensures var task := waiters[waiter].load;
        && waiters == old(waiters) + [Waiter(cacheKey, task, Pending)]
        && if cacheKey in old(inflight)
           then task == old(inflight[cacheKey]) && loads == old(loads) && inflight == old(inflight)
           else task == |old(loads)| && loads == old(loads) + [Load(cacheKey, Running, false)]
                && inflight == old(inflight)[cacheKey := task]
    {
      var task: nat;
      if cacheKey !in inflight {
        metrics.RecordCacheMiss();
        metrics.StartUpstreamLoad();
        task := |loads|;
        loads := loads + [Load(cacheKey, Running, false)];
        inflight := inflight[cacheKey := task];
      } else {
        task := inflight[cacheKey];
        metrics.RecordCoalescedWaiter();
      }
      waiter := |waiters|;
      waiters := waiters + [Waiter(cacheKey, task, Pending)];
    }

    /** The critical section of the cleanup that a completed load schedules. */
    method ClearCompletedFlight(completed: nat)
      requires Enabled(Now(), Cleanup(completed))
      modifies this, metrics
      ensures Now() == Step(old(Now()), Cleanup(completed))
    {
      var cacheKey := loads[completed].key;
      if cacheKey in inflight && inflight[cacheKey] == completed {
        inflight := inflight - {cacheKey};
        metrics.FinishUpstreamLoad();
      }
      loads := loads[completed := loads[completed].(cleanupDue := false)];
    }
  }
}
