/** Request limits per key and fixed window: the in-memory limiter of the market API, and the
    Training Hub's limiter on SQLite. Both prune old counters as they go. */
module RateLimiters {
  import opened FixedWindows
  import opened Sets

  datatype Bucket = Bucket(key: string, start: int)

  type Table = map<Bucket, int>

  datatype Call = Call(key: string, maxRequests: int, window: int, now: nat)

  function SafeWindow(windowSeconds: int): int {
    if windowSeconds < 1 then 1 else windowSeconds
  }

  function BucketOf(c: Call): Bucket {
    Bucket(c.key, BucketStart(c.now, SafeWindow(c.window)))
  }

  // ------------------------------------------------- reference: a full log

  /** How many of the admitted requests fell into the bucket. */
  function CountOf(log: seq<Bucket>, b: Bucket): nat {
    if log == [] then 0
    else CountOf(log[..|log| - 1], b) + if log[|log| - 1] == b then 1 else 0
  }

  function PlacesOf(log: seq<Bucket>, b: Bucket): set<int> {
    set i | 0 <= i < |log| && log[i] == b
  }

  lemma {:induction false} CountOfIsExact(log: seq<Bucket>, b: Bucket)
    ensures CountOf(log, b) == |PlacesOf(log, b)|
  {
    if log == [] {
      assert PlacesOf(log, b) == {};
    } else {
      var n := |log| - 1;
      CountOfIsExact(log[..n], b);
      assert PlacesOf(log, b) == PlacesOf(log[..n], b) + (if log[n] == b then {n} else {});
    }
  }

  lemma CountOfAppend(log: seq<Bucket>, b: Bucket, other: Bucket)
    ensures CountOf(log + [b], other) == CountOf(log, other) + if b == other then 1 else 0
  {
    assert (log + [b])[..|log|] == log;
  }

  predicate MemoryAllows(log: seq<Bucket>, c: Call) {
    CountOf(log, BucketOf(c)) < c.maxRequests
  }

  /** SQLite inserts the first row of a bucket without looking at the limit. */
  predicate SqliteAllows(log: seq<Bucket>, c: Call) {
    CountOf(log, BucketOf(c)) < c.maxRequests || CountOf(log, BucketOf(c)) == 0
  }

  function MemoryLog(calls: seq<Call>): seq<Bucket> {
    if calls == [] then []
    else
      var log, c := MemoryLog(calls[..|calls| - 1]), calls[|calls| - 1];
      if MemoryAllows(log, c) then log + [BucketOf(c)] else log
  }

  function SqliteLog(calls: seq<Call>): seq<Bucket> {
    if calls == [] then []
    else
      var log, c := SqliteLog(calls[..|calls| - 1]), calls[|calls| - 1];
      if SqliteAllows(log, c) then log + [BucketOf(c)] else log
  }

  function MemoryDecisions(calls: seq<Call>): seq<bool> {
    if calls == [] then []
    else
      var before := calls[..|calls| - 1];
      MemoryDecisions(before) + [MemoryAllows(MemoryLog(before), calls[|calls| - 1])]
  }

  function SqliteDecisions(calls: seq<Call>): seq<bool> {
    if calls == [] then []
    else
      var before := calls[..|calls| - 1];
      SqliteDecisions(before) + [SqliteAllows(SqliteLog(before), calls[|calls| - 1])]
  }

  /** A call that asks for no requests at all finds its bucket in use. */
  predicate AsksForSome(log: seq<Bucket>, c: Call) {
    c.maxRequests >= 1 || CountOf(log, BucketOf(c)) >= 1
  }

  predicate AllAskForSome(calls: seq<Call>) {
    calls != [] ==>
      && AllAskForSome(calls[..|calls| - 1])
      && AsksForSome(MemoryLog(calls[..|calls| - 1]), calls[|calls| - 1])
  }

  lemma {:induction false} SameLength(calls: seq<Call>)
    ensures |MemoryDecisions(calls)| == |SqliteDecisions(calls)| == |calls|
  {
    if calls != [] { SameLength(calls[..|calls| - 1]); }
  }

  lemma {:induction false} AgreementMeansSameLog(calls: seq<Call>)
    requires MemoryDecisions(calls) == SqliteDecisions(calls)
    ensures MemoryLog(calls) == SqliteLog(calls)
  {
    if calls != [] {
      var before := calls[..|calls| - 1];
      SameLength(before);
      var m, q := MemoryDecisions(calls), SqliteDecisions(calls);
      assert MemoryDecisions(before) == m[..|before|] && SqliteDecisions(before) == q[..|before|];
      assert m[|before|] == q[|before|];
      AgreementMeansSameLog(before);
    }
  }

  /** Two limiters with the same calls take the same decisions exactly if no call that allows no
      requests at all opens a bucket: SQLite would let that one through. */
  lemma {:induction false} LimitersAgreeExactly(calls: seq<Call>)
    ensures MemoryDecisions(calls) == SqliteDecisions(calls) <==> AllAskForSome(calls)
  {
    if calls != [] {
      var before := calls[..|calls| - 1];
      SameLength(before);
      LimitersAgreeExactly(before);
      var m, q := MemoryDecisions(calls), SqliteDecisions(calls);
      assert MemoryDecisions(before) == m[..|before|] && SqliteDecisions(before) == q[..|before|];
      if MemoryDecisions(before) == SqliteDecisions(before) {
        AgreementMeansSameLog(before);
        assert m == q <==> m[|before|] == q[|before|];
      }
    }
  }

  lemma {:induction false} PositiveLimitsAgree(calls: seq<Call>)
    requires forall i :: 0 <= i < |calls| ==> calls[i].maxRequests >= 1
    ensures MemoryDecisions(calls) == SqliteDecisions(calls) && MemoryLog(calls) == SqliteLog(calls)
  {
    AllPositive(calls);
    LimitersAgreeExactly(calls);
    AgreementMeansSameLog(calls);
  }

  lemma {:induction false} AllPositive(calls: seq<Call>)
    requires forall i :: 0 <= i < |calls| ==> calls[i].maxRequests >= 1
    ensures AllAskForSome(calls)
  {
    if calls != [] { AllPositive(calls[..|calls| - 1]); }
  }

  /** Neither admits more requests into a bucket than the largest limit that came with its key. */
  lemma {:induction false} BucketsAreBounded(calls: seq<Call>, b: Bucket, limit: nat)
    requires forall i :: 0 <= i < |calls| && calls[i].key == b.key ==> calls[i].maxRequests <= limit
    ensures CountOf(MemoryLog(calls), b) <= limit
    ensures CountOf(SqliteLog(calls), b) <= if limit < 1 then 1 else limit
  {
    if calls != [] {
      var before, c := calls[..|calls| - 1], calls[|calls| - 1];
      BucketsAreBounded(before, b, limit);
      CountOfAppend(MemoryLog(before), BucketOf(c), b);
      CountOfAppend(SqliteLog(before), BucketOf(c), b);
    }
  }

  // ----------------------------------------------------------- pruned tables

  function Row(t: Table, b: Bucket): int {
    if b in t then t[b] else 0
  }

  function Pruned(t: Table, stale: int): Table {
    map b | b in t && b.start >= stale :: t[b]
  }

  function Later(a: int, b: int): int {
    if a < b then b else a
  }

  /** From the horizon on, the table counts the log; rows before it no longer matter. */
  ghost predicate CountsLog(t: Table, log: seq<Bucket>, horizon: int) {
    && (forall b: Bucket :: b.start >= horizon ==> Row(t, b) == CountOf(log, b))
    && (forall b <- t :: t[b] >= 1)
  }

  /** Pruning has reached no further than some call so far, with one of the windows, would prune. */
  ghost predicate PrunedBy(horizon: int, windows: set<int>, clock: nat) {
    horizon <= 0 || exists w, t: nat :: w in windows && w >= 1 && t <= clock && horizon <= StaleBefore(t, w)
  }

  lemma PrunedCountsLog(t: Table, log: seq<Bucket>, horizon: int, stale: int)
    requires CountsLog(t, log, horizon)
    ensures CountsLog(Pruned(t, stale), log, Later(horizon, stale))
  {
    forall b: Bucket | b.start >= Later(horizon, stale) ensures Row(Pruned(t, stale), b) == CountOf(log, b) {
      assert Row(t, b) == CountOf(log, b);
    }
  }

  lemma AdmittedCountsLog(t: Table, log: seq<Bucket>, horizon: int, b: Bucket)
    requires CountsLog(t, log, horizon) && b.start >= horizon
    ensures CountsLog(t[b := Row(t, b) + 1], log + [b], horizon)
  {
    var t' := t[b := Row(t, b) + 1];
    forall other: Bucket | other.start >= horizon ensures Row(t', other) == CountOf(log + [b], other) {
      assert Row(t, other) == CountOf(log, other);
      CountOfAppend(log, b, other);
    }
  }

  lemma StaysPrunedBy(horizon: int, windows: set<int>, clock: nat, now: nat, window: int, clock': nat)
    requires PrunedBy(horizon, windows, clock) && clock <= clock' && now <= clock' && window >= 1
    ensures PrunedBy(Later(horizon, StaleBefore(now, window)), windows + {window}, clock')
  {
  }

  /** No call from now on falls into a bucket before the horizon. */
  lemma CallIsAhead(horizon: int, windows: set<int>, clock: nat, now: nat, window: int)
    requires PrunedBy(horizon, windows, clock) && clock <= now && Compatible(windows + {window})
    ensures BucketStart(now, window) >= horizon
  {
    assert window in windows + {window};
    StartIsNatural(now, window);
    if horizon > 0 {
      var w, t: nat :| w in windows && w >= 1 && t <= clock && horizon <= StaleBefore(t, w);
      assert w in windows + {window};
      assert NeverPrunes(w, window);
    }
  }

  lemma StartIsNatural(now: nat, w: int)
    requires w >= 1
    ensures 0 <= BucketStart(now, w)
  {
    assert BucketStart(now, w) == w * (now / w);
    NonNegative(w, now / w);
  }

  lemma RowIsCount(t: Table, log: seq<Bucket>, horizon: int, b: Bucket)
    requires CountsLog(t, log, horizon) && b.start >= horizon
    ensures Row(t, b) == CountOf(log, b) && (b in t <==> CountOf(log, b) >= 1)
  {
    assert Row(t, b) == CountOf(log, b);
  }

  lemma OwnBucketIsKept(t: Table, c: Call)
    ensures Row(Pruned(t, StaleOf(c)), BucketOf(c)) == Row(t, BucketOf(c))
  {
  }

  function StaleOf(c: Call): int {
    StaleBefore(c.now, SafeWindow(c.window))
  }

  ghost predicate Positive(t: Table) {
    forall b <- t :: t[b] >= 1
  }

  /** If the windows of all calls may share a table, it counts the log from the horizon on. */
  ghost predicate CountsWhileCompatible(t: Table, log: seq<Bucket>, horizon: int, windows: set<int>, clock: nat) {
    && Positive(t)
    && (Compatible(windows) ==> CountsLog(t, log, horizon) && PrunedBy(horizon, windows, clock))
  }

  lemma FewerAreCompatible(windows: set<int>, window: int)
    requires Compatible(windows + {window})
    ensures Compatible(windows)
  {
    forall w <- windows ensures w in windows + {window} {
    }
  }

  /** What pruning leaves for a call to find. */
  lemma AfterPruning(t: Table, log: seq<Bucket>, horizon: int, windows: set<int>, clock: nat, c: Call)
    requires CountsWhileCompatible(t, log, horizon, windows, clock) && clock <= c.now
    requires Compatible(windows + {SafeWindow(c.window)})
    ensures var horizon' := Later(horizon, StaleOf(c));
      && CountsLog(Pruned(t, StaleOf(c)), log, horizon')
      && PrunedBy(horizon', windows + {SafeWindow(c.window)}, c.now)
      && BucketOf(c).start >= horizon'
      && Row(t, BucketOf(c)) == CountOf(log, BucketOf(c))
  {
    hide CountsLog, PrunedBy, Compatible, CountOf, Pruned;
    var w := SafeWindow(c.window);
    FewerAreCompatible(windows, w);
    StaysPrunedBy(horizon, windows, clock, c.now, w, c.now);
    PrunedCountsLog(t, log, horizon, StaleOf(c));
    CallIsAhead(horizon, windows, clock, c.now, w);
    BucketFacts(c.now, w);
    RowIsCount(t, log, horizon, BucketOf(c));
  }

  /** A decision taken on the table is the one the log gives, and keeps the two together. */
  lemma DecisionCountsLog(t: Table, log: seq<Bucket>, horizon: int, windows: set<int>, clock: nat, c: Call, allowed: bool)
    requires CountsWhileCompatible(t, log, horizon, windows, clock) && clock <= c.now
    ensures var t' := Pruned(t, StaleOf(c));
      CountsWhileCompatible(
        if allowed then t'[BucketOf(c) := Row(t, BucketOf(c)) + 1] else t',
        if allowed then log + [BucketOf(c)] else log,
        Later(horizon, StaleOf(c)), windows + {SafeWindow(c.window)}, c.now)
    ensures Compatible(windows + {SafeWindow(c.window)}) ==> Row(t, BucketOf(c)) == CountOf(log, BucketOf(c))
  {
    hide CountsLog, PrunedBy, Compatible, CountOf, StaleOf, BucketOf;
    PrunedIsPositive(t, c);
    if Compatible(windows + {SafeWindow(c.window)}) {
      AfterPruning(t, log, horizon, windows, clock, c);
      OwnBucketIsKept(t, c);
      AdmittedCountsLog(Pruned(t, StaleOf(c)), log, Later(horizon, StaleOf(c)), BucketOf(c));
    }
  }

  lemma PrunedIsPositive(t: Table, c: Call)
    requires Positive(t)
    ensures Positive(Pruned(t, StaleOf(c))) && Positive(Pruned(t, StaleOf(c))[BucketOf(c) := Row(t, BucketOf(c)) + 1])
  {
  }

  lemma MemoryLogNext(calls: seq<Call>, c: Call)
    ensures var log := MemoryLog(calls); MemoryLog(calls + [c]) == if MemoryAllows(log, c) then log + [BucketOf(c)] else log
  {
    assert (calls + [c])[..|calls|] == calls;
  }

  lemma SqliteLogNext(calls: seq<Call>, c: Call)
    ensures var log := SqliteLog(calls); SqliteLog(calls + [c]) == if SqliteAllows(log, c) then log + [BucketOf(c)] else log
  {
    assert (calls + [c])[..|calls|] == calls;
  }

  // -------------------------------------------------- tables against the log

  /** How a limiter decides by the row it finds; a lenient one lets the first request of a bucket
      through without looking at the limit. */
  predicate TableAllows(t: Table, c: Call, lenient: bool) {
    Row(t, BucketOf(c)) < c.maxRequests || (lenient && BucketOf(c) !in t)
  }

  function TableStep(t: Table, c: Call, lenient: bool): Table {
    var t' := Pruned(t, StaleOf(c));
    if TableAllows(t, c, lenient) then t'[BucketOf(c) := Row(t, BucketOf(c)) + 1] else t'
  }

  function TableAfter(calls: seq<Call>, lenient: bool): Table {
    if calls == [] then map[]
    else TableStep(TableAfter(calls[..|calls| - 1], lenient), calls[|calls| - 1], lenient)
  }

  function TableDecisions(calls: seq<Call>, lenient: bool): seq<bool> {
    if calls == [] then []
    else
      var before := calls[..|calls| - 1];
      TableDecisions(before, lenient) + [TableAllows(TableAfter(before, lenient), calls[|calls| - 1], lenient)]
  }

  function LogDecisions(calls: seq<Call>, lenient: bool): seq<bool> {
    if lenient then SqliteDecisions(calls) else MemoryDecisions(calls)
  }

  function LogOf(calls: seq<Call>, lenient: bool): seq<Bucket> {
    if lenient then SqliteLog(calls) else MemoryLog(calls)
  }

  predicate LogAllows(log: seq<Bucket>, c: Call, lenient: bool) {
    if lenient then SqliteAllows(log, c) else MemoryAllows(log, c)
  }

  /** Calls in the order of their clocks, with the given windows. */
  predicate Timely(calls: seq<Call>, windows: set<int>) {
    && (forall i :: 0 <= i < |calls| ==> SafeWindow(calls[i].window) in windows)
    && (forall i, j :: 0 <= i < j < |calls| ==> calls[i].now <= calls[j].now)
  }

  lemma SameDecision(t: Table, log: seq<Bucket>, c: Call, lenient: bool)
    requires Positive(t) && Row(t, BucketOf(c)) == CountOf(log, BucketOf(c))
    ensures TableAllows(t, c, lenient) <==> LogAllows(log, c, lenient)
  {
  }

  lemma LogNext(calls: seq<Call>, lenient: bool)
    requires calls != []
    ensures var before, c := calls[..|calls| - 1], calls[|calls| - 1];
      var log := LogOf(before, lenient);
      && LogOf(calls, lenient) == (if LogAllows(log, c, lenient) then log + [BucketOf(c)] else log)
      && LogDecisions(calls, lenient) == LogDecisions(before, lenient) + [LogAllows(log, c, lenient)]
  {
  }

  lemma {:induction false} TableCountsLog(calls: seq<Call>, windows: set<int>, lenient: bool) returns (horizon: int, clock: nat)
    requires Timely(calls, windows) && Compatible(windows)
    ensures CountsWhileCompatible(TableAfter(calls, lenient), LogOf(calls, lenient), horizon, windows, clock)
    ensures TableDecisions(calls, lenient) == LogDecisions(calls, lenient)
    ensures clock == if calls == [] then 0 else calls[|calls| - 1].now
  {
    if calls == [] {
      horizon, clock := 0, 0;
    } else {
      var before, c := calls[..|calls| - 1], calls[|calls| - 1];
      var h, k := TableCountsLog(before, windows, lenient);
      var t, log := TableAfter(before, lenient), LogOf(before, lenient);
      LogNext(calls, lenient);
      hide CountsLog, PrunedBy, Compatible, LogOf, LogDecisions, LogAllows, TableAllows, Pruned, StaleOf, BucketOf, CountOf;
      assert windows + {SafeWindow(c.window)} == windows;
      DecisionCountsLog(t, log, h, windows, k, c, TableAllows(t, c, lenient));
      SameDecision(t, log, c, lenient);
      horizon, clock := Later(h, StaleOf(c)), c.now;
    }
  }

  /** Three calls at one moment: a request, a call with another window, and the request again. */
  lemma ForgottenRequest(w: nat, w': nat, start: nat, lenient: bool) returns (calls: seq<Call>)
    requires w >= 1 && w' >= 1 && StaleBefore(start, w) > BucketStart(start, w')
    ensures calls == [Call("a", 1, w', start), Call("b", 1, w, start), Call("a", 1, w', start)]
    ensures TableDecisions(calls, lenient) != LogDecisions(calls, lenient)
  {
    var a, p := Call("a", 1, w', start), Call("b", 1, w, start);
    calls := [a, p, a];
    hide BucketStart, StaleBefore;
    assert calls[..2] == [a, p] && [a, p][..1] == [a] && [a][..0] == [];
    TheThreeTables(a, p, lenient);
    TheThreeLogs(a, p, lenient);
    DecidedLast(calls, lenient);
  }

  lemma DecidedLast(calls: seq<Call>, lenient: bool)
    requires calls != []
    ensures |TableDecisions(calls, lenient)| == |LogDecisions(calls, lenient)| == |calls|
    ensures var before, c := calls[..|calls| - 1], calls[|calls| - 1];
      && TableDecisions(calls, lenient)[|before|] == TableAllows(TableAfter(before, lenient), c, lenient)
      && LogDecisions(calls, lenient)[|before|] == LogAllows(LogOf(before, lenient), c, lenient)
  {
    hide TableAllows, LogAllows;
    LogNext(calls, lenient);
    DecisionsPerCall(calls[..|calls| - 1], lenient);
  }

  lemma {:induction false} DecisionsPerCall(calls: seq<Call>, lenient: bool)
    ensures |TableDecisions(calls, lenient)| == |LogDecisions(calls, lenient)| == |calls|
  {
    hide TableAllows;
    SameLength(calls);
    if calls != [] { DecisionsPerCall(calls[..|calls| - 1], lenient); }
  }

  lemma TheThreeTables(a: Call, p: Call, lenient: bool)
    requires BucketOf(a) != BucketOf(p) && BucketOf(a).start < StaleOf(p) && a.maxRequests == 1
    ensures BucketOf(a) !in TableAfter([a, p], lenient) && TableAllows(TableAfter([a, p], lenient), a, lenient)
  {
    hide BucketOf, StaleOf;
    assert [a, p][..1] == [a];
  }

  lemma TheThreeLogs(a: Call, p: Call, lenient: bool)
    requires BucketOf(a) != BucketOf(p) && a.maxRequests == 1
    ensures CountOf(LogOf([a, p], lenient), BucketOf(a)) == 1 && !LogAllows(LogOf([a, p], lenient), a, lenient)
  {
    hide BucketOf;
    assert [a, p][..1] == [a] && [a][..0] == [];
    LogNext([a], lenient);
    LogNext([a, p], lenient);
    CountOfAppend([], BucketOf(a), BucketOf(a));
    CountOfAppend([BucketOf(a)], BucketOf(p), BucketOf(a));
    assert [] + [BucketOf(a)] == [BucketOf(a)];
  }

  ghost predicate DecidesAsLog(windows: set<int>, lenient: bool) {
    forall calls :: Timely(calls, windows) ==> TableDecisions(calls, lenient) == LogDecisions(calls, lenient)
  }

  /** A limiter that prunes decides as the complete log would, in every run, exactly if the windows of
      its calls may share a table. */
  lemma PruningIsUnseenExactly(windows: set<int>, lenient: bool)
    requires forall w <- windows :: w >= 1
    ensures DecidesAsLog(windows, lenient) <==> Compatible(windows)
  {
    hide TableDecisions, LogDecisions;
    if Compatible(windows) {
      forall calls | Timely(calls, windows) ensures TableDecisions(calls, lenient) == LogDecisions(calls, lenient) {
        var horizon, clock := TableCountsLog(calls, windows, lenient);
      }
    } else {
      var w, w' :| w in windows && w' in windows && !NeverPrunes(w, w');
      PrunesWithinExactly(w, w', 0);
      var start, late := BeyondSlack(w, w', 0);
      assert start + late == start;
      var calls := ForgottenRequest(w, w', start, lenient);
      assert Timely(calls, windows);
    }
  }

  /** The decision on a call by the row of the bucket that starts at the last multiple of its window, and
      the table after it: buckets older than twelve windows are gone, and an admitted request is counted. */
  predicate DecidedByRow(before: Table, after: Table, key: string, maxRequests: int, windowSeconds: int, now: int,
                         lenient: bool, allowed: bool)
  {
    var w := if windowSeconds < 1 then 1 else windowSeconds;
    var b := Bucket(key, now - now % w);
    && (allowed <==> if b in before then before[b] < maxRequests else lenient || 0 < maxRequests)
    && after == (map other | other in before && other.start >= b.start - 12 * w :: before[other])
                + if allowed then map[b := (if b in before then before[b] else 0) + 1] else map[]
  }

  lemma StepDecidesByRow(t: Table, c: Call, lenient: bool)
    ensures DecidedByRow(t, TableStep(t, c, lenient), c.key, c.maxRequests, c.window, c.now, lenient, TableAllows(t, c, lenient))
    ensures BucketOf(c) == Bucket(c.key, c.now - c.now % SafeWindow(c.window))
  {
    var w := if c.window < 1 then 1 else c.window;
    assert StaleOf(c) == BucketOf(c).start - 12 * w;
  }

  // ------------------------------------------------------------------ memory

  class InMemoryRateLimiter {
    var buckets: Table
    ghost var calls: seq<Call>
    /** The windows of the calls so far. */
    ghost var windows: set<int>
    ghost var horizon: int
    ghost var clock: nat

    constructor ()
      ensures Valid() && calls == [] && windows == {} && clock == 0
    {
      buckets, calls, windows, horizon, clock := map[], [], {}, 0, 0;
    }

    ghost predicate Valid()
      reads this
    {
      CountsWhileCompatible(buckets, MemoryLog(calls), horizon, windows, clock)
    }

    method PopStale(staleBefore: int)
      modifies this`buckets
      ensures buckets == Pruned(old(buckets), staleBefore)
    {
      var todo := set b | b in buckets && b.start < staleBefore;
      while todo != {}
        invariant forall b :: b in todo <==> b in buckets && b.start < staleBefore
        invariant Pruned(buckets, staleBefore) == Pruned(old(buckets), staleBefore)
        decreases |todo|
      {
        ghost var any := AnElement(todo);
        var b :| b in todo;
        todo := todo - {b};
        buckets := buckets - {b};
      }
      assert buckets == Pruned(buckets, staleBefore);
    }

    /** Decides by the row it finds, and, as long as the windows of all calls may share a table,
        exactly as the full log would, although it has forgotten the old buckets. */
    method Allow(key: string, maxRequests: int, windowSeconds: int, now: nat) returns (allowed: bool, retryAfter: int)
      requires Valid() && clock <= now
      modifies this
      ensures Valid() && clock == now && windows == old(windows) + {SafeWindow(windowSeconds)}
      ensures var c := Call(key, maxRequests, windowSeconds, now);
        && calls == old(calls) + [c]
        && (allowed <==> TableAllows(old(buckets), c, false)) && buckets == TableStep(old(buckets), c, false)
        && DecidedByRow(old(buckets), buckets, key, maxRequests, windowSeconds, now, false, allowed)
        && (Compatible(windows) ==>
              var w := SafeWindow(windowSeconds);
              var admitted, b := MemoryLog(old(calls)), Bucket(key, now - now % w);
              && (allowed <==> |PlacesOf(admitted, b)| < maxRequests)
              && MemoryLog(calls) == if allowed then admitted + [b] else admitted)
      ensures retryAfter == if allowed then 0 else RetryAfter(now, SafeWindow(windowSeconds))
    {
      hide Compatible, MemoryLog, PlacesOf, RetryAfter, TableStep, TableAllows, BucketOf, CountsWhileCompatible, DecidedByRow, CountOf;
      ghost var c := Call(key, maxRequests, windowSeconds, now);
      StepDecidesByRow(buckets, c, false);
      CountOfIsExact(MemoryLog(calls), BucketOf(c));
      MemoryLogNext(calls, c);
      allowed, retryAfter := PruneAndDecide(key, maxRequests, windowSeconds, now);
    }

    /** The statements of a call. */
    method PruneAndDecide(key: string, maxRequests: int, windowSeconds: int, now: nat) returns (allowed: bool, retryAfter: int)
      requires Valid() && clock <= now
      modifies this
      ensures Valid() && clock == now && windows == old(windows) + {SafeWindow(windowSeconds)}
      ensures var c := Call(key, maxRequests, windowSeconds, now);
        && calls == old(calls) + [c]
        && (allowed <==> TableAllows(old(buckets), c, false)) && buckets == TableStep(old(buckets), c, false)
        && (Compatible(windows) ==> (allowed <==> MemoryAllows(MemoryLog(old(calls)), c)))
      ensures retryAfter == if allowed then 0 else RetryAfter(now, SafeWindow(windowSeconds))
    {
      hide CountOf, Compatible, Pruned, BucketStart, RetryAfter, MemoryLog;
      ghost var c := Call(key, maxRequests, windowSeconds, now);
      MemoryLogNext(calls, c);
      OwnBucketIsKept(buckets, c);
      var safeWindow := SafeWindow(windowSeconds);
      var bucketStart := BucketStart(now, safeWindow);
      var retry := RetryAfter(now, safeWindow);
      var staleBefore := bucketStart - safeWindow * 12;
      var compositeKey := Bucket(key, bucketStart);
      DecisionCountsLog(buckets, MemoryLog(calls), horizon, windows, clock, c, Row(buckets, compositeKey) < maxRequests);
      hide CountsWhileCompatible;
      PopStale(staleBefore);
      var currentCount := if compositeKey in buckets then buckets[compositeKey] else 0;
      allowed := currentCount < maxRequests;
      if allowed {
        buckets := buckets[compositeKey := currentCount + 1];
      }
      retryAfter := if allowed then 0 else retry;
      horizon, clock, calls := Later(horizon, staleBefore), now, calls + [c];
      windows := windows + {safeWindow};
    }
  }

  // ------------------------------------------------------------------ SQLite

  /** The `rate_limit_hits` table behind a transaction that locks the database from its first statement. */
  class SqliteRateLimiter {
    var hits: Table
    ghost var calls: seq<Call>
    /** The windows of the calls so far. */
    ghost var windows: set<int>
    ghost var horizon: int
    ghost var clock: nat

    constructor ()
      ensures Valid() && calls == [] && windows == {} && clock == 0
    {
      hits, calls, windows, horizon, clock := map[], [], {}, 0, 0;
    }

    ghost predicate Valid()
      reads this
    {
      CountsWhileCompatible(hits, SqliteLog(calls), horizon, windows, clock)
    }

    method Allow(key: string, maxRequests: int, windowSeconds: int, now: nat) returns (allowed: bool, retryAfter: int)
      requires Valid() && clock <= now
      modifies this
      ensures Valid() && clock == now && windows == old(windows) + {SafeWindow(windowSeconds)}
      ensures var c := Call(key, maxRequests, windowSeconds, now);
        && calls == old(calls) + [c]
        && (allowed <==> TableAllows(old(hits), c, true)) && hits == TableStep(old(hits), c, true)
        && DecidedByRow(old(hits), hits, key, maxRequests, windowSeconds, now, true, allowed)
        && (Compatible(windows) ==>
              var w := SafeWindow(windowSeconds);
              var admitted, b := SqliteLog(old(calls)), Bucket(key, now - now % w);
              && (allowed <==> |PlacesOf(admitted, b)| < maxRequests || PlacesOf(admitted, b) == {})
              && SqliteLog(calls) == if allowed then admitted + [b] else admitted)
      ensures retryAfter == if allowed then 0 else RetryAfter(now, SafeWindow(windowSeconds))
    {
      hide Compatible, SqliteLog, PlacesOf, RetryAfter, TableStep, TableAllows, BucketOf, CountsWhileCompatible, DecidedByRow, CountOf;
      ghost var c := Call(key, maxRequests, windowSeconds, now);
      StepDecidesByRow(hits, c, true);
      CountOfIsExact(SqliteLog(calls), BucketOf(c));
      SqliteLogNext(calls, c);
      allowed, retryAfter := PruneAndDecide(key, maxRequests, windowSeconds, now);
    }

    /** The statements of a call. */
    method PruneAndDecide(key: string, maxRequests: int, windowSeconds: int, now: nat) returns (allowed: bool, retryAfter: int)
      requires Valid() && clock <= now
      modifies this
      ensures Valid() && clock == now && windows == old(windows) + {SafeWindow(windowSeconds)}
      ensures var c := Call(key, maxRequests, windowSeconds, now);
        && calls == old(calls) + [c]
        && (allowed <==> TableAllows(old(hits), c, true)) && hits == TableStep(old(hits), c, true)
        && (Compatible(windows) ==> (allowed <==> SqliteAllows(SqliteLog(old(calls)), c)))
      ensures retryAfter == if allowed then 0 else RetryAfter(now, SafeWindow(windowSeconds))
    {
      hide CountOf, Compatible, Pruned, BucketStart, RetryAfter, SqliteLog;
      ghost var c := Call(key, maxRequests, windowSeconds, now);
      SqliteLogNext(calls, c);
      OwnBucketIsKept(hits, c);
      var safeWindow := SafeWindow(windowSeconds);
      var bucketStart := BucketStart(now, safeWindow);
      var retry := RetryAfter(now, safeWindow);
      var staleBefore := bucketStart - safeWindow * 12;
      var rowKey := Bucket(key, bucketStart);
      DecisionCountsLog(hits, SqliteLog(calls), horizon, windows, clock, c,
                        rowKey !in hits || hits[rowKey] < maxRequests);
      hide CountsWhileCompatible;
      DeleteStale(staleBefore, rowKey);
      horizon, clock, calls := Later(horizon, staleBefore), now, calls + [c];
      windows := windows + {safeWindow};
      if rowKey !in hits {
        hits := hits[rowKey := 1];
        return true, 0;
      }
      var currentCount := hits[rowKey];
      if currentCount >= maxRequests {
        return false, retry;
      }
      hits := hits[rowKey := currentCount + 1];
      return true, 0;
    }

    method DeleteStale(staleBefore: int, ghost kept: Bucket)
      modifies this`hits
      ensures hits == Pruned(old(hits), staleBefore)
      ensures kept.start >= staleBefore ==> (kept in hits <==> kept in old(hits))
    {
      hits := map b | b in hits && b.start >= staleBefore :: hits[b];
    }
  }
}
