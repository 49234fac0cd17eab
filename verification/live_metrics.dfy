/** Live request counters: sliding windows kept in deques, proved equal to counting a full log. */
module LiveMetrics {
  import opened Options
  import opened Sets

  datatype Bucket = PublicApi | ClientApi | InternalApi

  /** An endpoint and the class of agent that called it. */
  type Entry = (string, string)

  /** The bucket of a stripped path, if the path is counted at all. */
  function BucketForPath(path: string): Option<Bucket> {
    if !("/api/" <= path) then None
    else if path in {"/api/internal/live-metrics", "/api/v1/ready"} then None
    else if "/api/v1/client/" <= path then Some(ClientApi)
    else if "/api/internal/" <= path || path in {"/api/v1/health", "/api/v1/metrics"} then Some(InternalApi)
    else Some(PublicApi)
  }

  /** Which paths each bucket has, and which are not counted: exactly these. */
  lemma EveryPathHasItsBucket(path: string)
    ensures BucketForPath(path) == Some(ClientApi) <==> "/api/v1/client/" <= path
    ensures BucketForPath(path) == Some(InternalApi) <==>
      || path == "/api/v1/health" || path == "/api/v1/metrics"
      || ("/api/internal/" <= path && path != "/api/internal/live-metrics")
    ensures BucketForPath(path) == None <==>
      || path == "/api/internal/live-metrics" || path == "/api/v1/ready"
      || !("/api/" <= path)
  {
    if "/api/v1/client/" <= path { assert path[..5] == "/api/" && path[5] == 'v' && path[8] == 'c'; }
    if "/api/internal/" <= path { assert path[..5] == "/api/" && path[5] == 'i'; }
    if path == "/api/v1/health" { assert path[8] == 'h' && path[..5] == "/api/"; }
    if path == "/api/v1/metrics" { assert path[8] == 'm' && path[..5] == "/api/"; }
  }

  // ------------------------------------------------------------ the full log

  datatype Start = Start(time: real, day: int, endpoint: string, agent: string)

  datatype Filter = OfBucket(bucket: Bucket) | OfEntry(entry: Entry) | OfAnyBucket

  datatype Period = Always | Since(cutoff: real) | OnDay(day: int)

  predicate Matches(f: Filter, s: Start) {
    match f
    case OfBucket(bucket) => BucketForPath(s.endpoint) == Some(bucket)
    case OfEntry(entry) => entry == (s.endpoint, s.agent)
    case OfAnyBucket => BucketForPath(s.endpoint).Some?
  }

  predicate Within(p: Period, s: Start) {
    match p
    case Always => true
    case Since(cutoff) => s.time >= cutoff
    case OnDay(day) => s.day == day
  }

  /** What a counter should show: the logged starts that match, in the period. */
  function Figure(log: seq<Start>, f: Filter, p: Period): nat {
    if log == [] then 0
    else
      var s := log[|log| - 1];
      Figure(log[..|log| - 1], f, p) + (if Matches(f, s) && Within(p, s) then 1 else 0)
  }

  function Times(log: seq<Start>, f: Filter, cutoff: real): seq<real> {
    if log == [] then []
    else
      var s := log[|log| - 1];
      var rest := Times(log[..|log| - 1], f, cutoff);
      if Matches(f, s) && s.time >= cutoff then rest + [s.time] else rest
  }

  ghost predicate Sorted(times: seq<real>) {
    forall i, j :: 0 <= i < j < |times| ==> times[i] <= times[j]
  }

  ghost predicate Chronological(log: seq<Start>, lastTime: real, lastDay: int) {
    && (forall s <- log :: s.time <= lastTime && s.day <= lastDay)
    && (log != [] ==> Chronological(log[..|log| - 1], log[|log| - 1].time, log[|log| - 1].day))
  }

  function DropBefore(times: seq<real>, cutoff: real): seq<real> {
    if times != [] && times[0] < cutoff then DropBefore(times[1..], cutoff) else times
  }

  function CountFrom(times: seq<real>, threshold: real): nat {
    if times == [] then 0
    else CountFrom(times[..|times| - 1], threshold) + (if times[|times| - 1] >= threshold then 1 else 0)
  }

  lemma LogNext(log: seq<Start>, s: Start, f: Filter, p: Period, cutoff: real)
    ensures Figure(log + [s], f, p) == Figure(log, f, p) + (if Matches(f, s) && Within(p, s) then 1 else 0)
    ensures Times(log + [s], f, cutoff)
         == if Matches(f, s) && s.time >= cutoff then Times(log, f, cutoff) + [s.time] else Times(log, f, cutoff)
  {
    assert (log + [s])[..|log|] == log;
  }

  lemma {:induction false} TimesSorted(log: seq<Start>, f: Filter, cutoff: real, lastTime: real, lastDay: int)
    requires Chronological(log, lastTime, lastDay)
    ensures Sorted(Times(log, f, cutoff))
    ensures forall i :: 0 <= i < |Times(log, f, cutoff)| ==> cutoff <= Times(log, f, cutoff)[i] <= lastTime
  {
    if log != [] {
      var s := log[|log| - 1];
      assert s in log;
      TimesSorted(log[..|log| - 1], f, cutoff, s.time, s.day);
    }
  }

  lemma {:induction false} DropAll(times: seq<real>, cutoff: real)
    requires forall i :: 0 <= i < |times| ==> times[i] < cutoff
    ensures DropBefore(times, cutoff) == []
  {
    if times != [] { DropAll(times[1..], cutoff); }
  }

  lemma {:induction false} DropNext(times: seq<real>, t: real, cutoff: real)
    requires t >= cutoff
    ensures DropBefore(times + [t], cutoff) == DropBefore(times, cutoff) + [t]
  {
    if times != [] && times[0] < cutoff {
      DropNext(times[1..], t, cutoff);
      assert (times + [t])[1..] == times[1..] + [t];
    } else if times == [] {
      assert times + [t] == [t];
    }
  }

  lemma {:induction false} NoTimesAfter(log: seq<Start>, f: Filter, cutoff: real, lastTime: real, lastDay: int)
    requires Chronological(log, lastTime, lastDay) && lastTime < cutoff
    ensures Times(log, f, cutoff) == []
  {
    if log != [] {
      assert log[|log| - 1] in log;
      NoTimesAfter(log[..|log| - 1], f, cutoff, log[|log| - 1].time, log[|log| - 1].day);
    }
  }

  /** Popping stale times off the front is the same as counting from a later cutoff. */
  lemma {:induction false} DropIsLaterCutoff(log: seq<Start>, f: Filter, earlier: real, later: real, lastTime: real, lastDay: int)
    requires Chronological(log, lastTime, lastDay) && earlier <= later
    ensures DropBefore(Times(log, f, earlier), later) == Times(log, f, later)
  {
    if log != [] {
      var s, rest := log[|log| - 1], log[..|log| - 1];
      DropIsLaterCutoff(rest, f, earlier, later, s.time, s.day);
      if Matches(f, s) && s.time >= earlier {
        if s.time >= later {
          DropNext(Times(rest, f, earlier), s.time, later);
        } else {
          TimesSorted(rest, f, earlier, s.time, s.day);
          NoTimesAfter(rest, f, later, s.time, s.day);
          DropAll(Times(log, f, earlier), later);
        }
      }
    }
  }

  lemma {:induction false} TimesCount(log: seq<Start>, f: Filter, cutoff: real, threshold: real)
    requires cutoff <= threshold
    ensures CountFrom(Times(log, f, cutoff), threshold) == Figure(log, f, Since(threshold))
    ensures |Times(log, f, cutoff)| == Figure(log, f, Since(cutoff))
  {
    if log != [] {
      var rest := log[..|log| - 1];
      TimesCount(rest, f, cutoff, threshold);
      var times := Times(rest, f, cutoff) + [log[|log| - 1].time];
      assert times[..|times| - 1] == Times(rest, f, cutoff);
    }
  }

  lemma {:induction false} NoFigureAfter(log: seq<Start>, f: Filter, day: int, lastTime: real, lastDay: int)
    requires Chronological(log, lastTime, lastDay) && lastDay < day
    ensures Figure(log, f, OnDay(day)) == 0
  {
    if log != [] {
      assert log[|log| - 1] in log;
      NoFigureAfter(log[..|log| - 1], f, day, log[|log| - 1].time, log[|log| - 1].day);
    }
  }

  // ------------------------------------------- endpoints add up to buckets

  function FigureOfRows(log: seq<Start>, rows: seq<Entry>, b: Bucket, p: Period): nat {
    if rows == [] then 0
    else
      FigureOfRows(log, rows[1..], b, p)
      + (if BucketForPath(rows[0].0) == Some(b) then Figure(log, OfEntry(rows[0]), p) else 0)
  }

  lemma {:induction false} RowsOfNothing(rows: seq<Entry>, b: Bucket, p: Period)
    ensures FigureOfRows([], rows, b, p) == 0
  {
    if rows != [] { RowsOfNothing(rows[1..], b, p); }
  }

  lemma {:induction false} RowsNext(log: seq<Start>, s: Start, rows: seq<Entry>, b: Bucket, p: Period)
    requires forall i, j :: 0 <= i < j < |rows| ==> rows[i] != rows[j]
    ensures FigureOfRows(log + [s], rows, b, p)
         == FigureOfRows(log, rows, b, p)
            + (if (s.endpoint, s.agent) in rows && BucketForPath(s.endpoint) == Some(b) && Within(p, s) then 1 else 0)
  {
    hide Figure, Times, BucketForPath;
    if rows != [] {
      RowsNext(log, s, rows[1..], b, p);
      LogNext(log, s, OfEntry(rows[0]), p, 0.0);
      assert rows == [rows[0]] + rows[1..];
    }
  }

  /** Over any period, the figures of the endpoint and agent rows add up to the bucket's figure. */
  lemma {:induction false} RowsSumToBucket(log: seq<Start>, rows: seq<Entry>, b: Bucket, p: Period)
    requires forall i, j :: 0 <= i < j < |rows| ==> rows[i] != rows[j]
    requires forall s <- log :: (s.endpoint, s.agent) in rows
    ensures FigureOfRows(log, rows, b, p) == Figure(log, OfBucket(b), p)
  {
    if log == [] {
      RowsOfNothing(rows, b, p);
    } else {
      var s, rest := log[|log| - 1], log[..|log| - 1];
      RowsSumToBucket(rest, rows, b, p);
      RowsNext(rest, s, rows, b, p);
      assert log == rest + [s];
    }
  }

  // ------------------------------------------------------------- the tracker

  datatype Token = Token(bucket: Bucket, entry: Entry)

  datatype BucketCounter = BucketCounter(active: nat, recent: seq<real>, total: nat, today: nat)

  /** `max(0, n - 1)`. */
  function Decremented(n: nat): nat {
    if n == 0 then 0 else n - 1
  }

  function GetOr0(m: map<Entry, nat>, k: Entry): nat {
    if k in m then m[k] else 0
  }

  /** One bucket's counters against the log; `finished` is how many of its requests are over. */
  ghost predicate BucketExact(c: BucketCounter, b: Bucket, log: seq<Start>, cutoff: real, day: int, finished: nat) {
    && c.recent == Times(log, OfBucket(b), cutoff)
    && c.total == Figure(log, OfBucket(b), Always)
    && c.today == Figure(log, OfBucket(b), OnDay(day))
    && c.active + finished == c.total
  }

  /** One endpoint and agent's counters: present exactly once it was ever started. */
  ghost predicate EntryExact(recent: map<Entry, seq<real>>, today: map<Entry, nat>, total: map<Entry, nat>, e: Entry,
                             log: seq<Start>, cutoff: real, day: int)
  {
    && (e in recent <==> Figure(log, OfEntry(e), Always) > 0)
    && (e in total <==> e in recent)
    && (e in recent ==> recent[e] == Times(log, OfEntry(e), cutoff) && total[e] == Figure(log, OfEntry(e), Always))
    && GetOr0(today, e) == Figure(log, OfEntry(e), OnDay(day))
  }

  ghost predicate EntriesExact(recent: map<Entry, seq<real>>, today: map<Entry, nat>, total: map<Entry, nat>,
                               log: seq<Start>, cutoff: real, day: int)
  {
    forall e: Entry :: EntryExact(recent, today, total, e, log, cutoff, day)
  }

  lemma EntriesRollOver(recent: map<Entry, seq<real>>, today: map<Entry, nat>, total: map<Entry, nat>,
                        log: seq<Start>, cutoff: real, clock: real, day: int, day': int)
    requires EntriesExact(recent, today, total, log, cutoff, day) && Chronological(log, clock, day) && day < day'
    ensures EntriesExact(recent, map[], total, log, cutoff, day')
  {
    forall e: Entry ensures EntryExact(recent, map[], total, e, log, cutoff, day') {
      assert EntryExact(recent, today, total, e, log, cutoff, day);
      NoFigureAfter(log, OfEntry(e), day', clock, day);
    }
  }

  lemma EntriesPruned(recent: map<Entry, seq<real>>, today: map<Entry, nat>, total: map<Entry, nat>,
                      recent': map<Entry, seq<real>>, log: seq<Start>, cutoff: real, cutoff': real, clock: real, day: int)
    requires EntriesExact(recent, today, total, log, cutoff, day) && Chronological(log, clock, day) && cutoff <= cutoff'
    requires recent'.Keys == recent.Keys && forall e <- recent :: recent'[e] == DropBefore(recent[e], cutoff')
    ensures EntriesExact(recent', today, total, log, cutoff', day)
  {
    forall e: Entry ensures EntryExact(recent', today, total, e, log, cutoff', day) {
      assert EntryExact(recent, today, total, e, log, cutoff, day);
      DropIsLaterCutoff(log, OfEntry(e), cutoff, cutoff', clock, day);
    }
  }

  lemma EntriesStarted(recent: map<Entry, seq<real>>, today: map<Entry, nat>, total: map<Entry, nat>,
                       log: seq<Start>, cutoff: real, s: Start)
    requires EntriesExact(recent, today, total, log, cutoff, s.day) && s.time >= cutoff
    ensures var e := (s.endpoint, s.agent);
            EntriesExact(recent[e := (if e in recent then recent[e] else []) + [s.time]],
                         today[e := GetOr0(today, e) + 1], total[e := GetOr0(total, e) + 1],
                         log + [s], cutoff, s.day)
  {
    var key := (s.endpoint, s.agent);
    var recent' := recent[key := (if key in recent then recent[key] else []) + [s.time]];
    var today', total' := today[key := GetOr0(today, key) + 1], total[key := GetOr0(total, key) + 1];
    forall e: Entry ensures EntryExact(recent', today', total', e, log + [s], cutoff, s.day) {
      assert EntryExact(recent, today, total, e, log, cutoff, s.day);
      LogNext(log, s, OfEntry(e), Always, cutoff);
      LogNext(log, s, OfEntry(e), OnDay(s.day), cutoff);
      NoTimes(log, OfEntry(e), cutoff);
    }
  }

  lemma {:induction false} NoTimes(log: seq<Start>, f: Filter, cutoff: real)
    ensures Figure(log, f, Always) == 0 ==> Times(log, f, cutoff) == []
  {
    if log != [] { NoTimes(log[..|log| - 1], f, cutoff); }
  }

  lemma BucketStarted(c: BucketCounter, b: Bucket, log: seq<Start>, cutoff: real, s: Start, finished: nat)
    requires BucketExact(c, b, log, cutoff, s.day, finished) && s.time >= cutoff
    ensures if BucketForPath(s.endpoint) == Some(b)
            then BucketExact(BucketCounter(c.active + 1, c.recent + [s.time], c.total + 1, c.today + 1),
                             b, log + [s], cutoff, s.day, finished)
            else BucketExact(c, b, log + [s], cutoff, s.day, finished)
  {
    LogNext(log, s, OfBucket(b), Always, cutoff);
    LogNext(log, s, OfBucket(b), OnDay(s.day), cutoff);
  }

  lemma BucketRolledOver(c: BucketCounter, b: Bucket, log: seq<Start>, cutoff: real, clock: real, day: int, day': int,
                         finished: nat)
    requires BucketExact(c, b, log, cutoff, day, finished) && Chronological(log, clock, day) && day < day'
    ensures BucketExact(c.(today := 0), b, log, cutoff, day', finished)
  {
    NoFigureAfter(log, OfBucket(b), day', clock, day);
  }

  lemma BucketPruned(c: BucketCounter, b: Bucket, log: seq<Start>, cutoff: real, cutoff': real, clock: real, day: int,
                     finished: nat)
    requires BucketExact(c, b, log, cutoff, day, finished) && Chronological(log, clock, day) && cutoff <= cutoff'
    ensures BucketExact(c.(recent := DropBefore(c.recent, cutoff')), b, log, cutoff', day, finished)
  {
    DropIsLaterCutoff(log, OfBucket(b), cutoff, cutoff', clock, day);
  }

  lemma BucketFinished(c: BucketCounter, b: Bucket, log: seq<Start>, cutoff: real, day: int, finished: nat)
    requires BucketExact(c, b, log, cutoff, day, finished) && finished < Figure(log, OfBucket(b), Always)
    ensures BucketExact(c.(active := Decremented(c.active)), b, log, cutoff, day, finished + 1)
  {
  }

  lemma StartedLater(log: seq<Start>, s: Start, time: real, day: int)
    requires Chronological(log, time, day) && time <= s.time && day <= s.day
    ensures Chronological(log + [s], s.time, s.day)
  {
    var next := log + [s];
    assert next[..|log|] == log;
    Later(log, time, s.time, day, s.day);
    forall x <- next ensures x.time <= s.time && x.day <= s.day {
      assert x in log || x == s;
    }
  }

  lemma Later(log: seq<Start>, time: real, time': real, day: int, day': int)
    requires Chronological(log, time, day) && time <= time' && day <= day'
    ensures Chronological(log, time', day')
  {
  }

  lemma {:induction false} CountNone(times: seq<real>, threshold: real)
    requires forall i :: 0 <= i < |times| ==> times[i] < threshold
    ensures CountFrom(times, threshold) == 0
  {
    if times != [] { CountNone(times[..|times| - 1], threshold); }
  }

  /** `while recent and recent[0] < cutoff: recent.popleft()`. */
  method PopStale(times: seq<real>, cutoff: real) returns (recent: seq<real>)
    ensures recent == DropBefore(times, cutoff)
  {
    recent := times;
    while recent != [] && recent[0] < cutoff
      invariant DropBefore(recent, cutoff) == DropBefore(times, cutoff)
      decreases |recent|
    {
      recent := recent[1..];
    }
  }

  /** Counts from the newest time backwards until one is too old. */
  method CountRecent(times: seq<real>, threshold: real) returns (n: nat)
    requires Sorted(times)
    ensures n == CountFrom(times, threshold)
  {
    n := 0;
    var i := |times|;
    assert times[..|times|] == times;
    while i > 0
      invariant 0 <= i <= |times| && n + CountFrom(times[..i], threshold) == CountFrom(times, threshold)
    {
      assert times[..i][..i - 1] == times[..i - 1];
      if times[i - 1] < threshold {
        CountNone(times[..i], threshold);
        return;
      }
      n := n + 1;
      i := i - 1;
    }
  }

  datatype BucketFigures = BucketFigures(active: nat, today: nat, last10s: nat, last60s: nat, total: nat)

  datatype EntryFigures = EntryFigures(last10s: nat, last60s: nat, today: nat, total: nat)

  /** The figures the log gives for a snapshot taken at `now`. */
  ghost function BucketFromLog(log: seq<Start>, b: Bucket, now: real, day: int, finished: nat): BucketFigures
    requires finished <= Figure(log, OfBucket(b), Always)
  {
    BucketFigures(Figure(log, OfBucket(b), Always) - finished, Figure(log, OfBucket(b), OnDay(day)),
                  Figure(log, OfBucket(b), Since(now - 10.0)), Figure(log, OfBucket(b), Since(now - 60.0)),
                  Figure(log, OfBucket(b), Always))
  }

  /** The sums over the buckets: the figures of all counted requests. */
  ghost function TotalsFromLog(log: seq<Start>, now: real, day: int, finished: nat): BucketFigures
    requires finished <= Figure(log, OfAnyBucket, Always)
  {
    BucketFigures(Figure(log, OfAnyBucket, Always) - finished, Figure(log, OfAnyBucket, OnDay(day)),
                  Figure(log, OfAnyBucket, Since(now - 10.0)), Figure(log, OfAnyBucket, Since(now - 60.0)),
                  Figure(log, OfAnyBucket, Always))
  }

  /** The positions in the log of a bucket's starts, or with `None` of all that are counted. */
  function StartsOf(log: seq<Start>, bucket: Option<Bucket>): (r: set<int>)
    ensures forall i <- r :: 0 <= i < |log|
  {
    set i | 0 <= i < |log| && if bucket.None? then BucketForPath(log[i].endpoint).Some? else BucketForPath(log[i].endpoint) == bucket
  }

  function EntryStarts(log: seq<Start>, endpoint: string, agent: string): (r: set<int>)
    ensures forall i <- r :: 0 <= i < |log|
  {
    set i | 0 <= i < |log| && log[i].endpoint == endpoint && log[i].agent == agent
  }

  /** The figures count starts: of today, of the last 10 and 60 seconds, and all; active are those that
      are not over. */
  ghost predicate BucketCounts(figures: BucketFigures, log: seq<Start>, starts: set<int>, now: real, day: int, over: nat)
    requires forall i <- starts :: 0 <= i < |log|
  {
    && figures.total == |starts| && figures.active + over == |starts|
    && figures.today == |set i <- starts | log[i].day == day|
    && figures.last10s == |set i <- starts | log[i].time >= now - 10.0|
    && figures.last60s == |set i <- starts | log[i].time >= now - 60.0|
  }

  ghost predicate EntryCounts(figures: EntryFigures, log: seq<Start>, starts: set<int>, now: real, day: int)
    requires forall i <- starts :: 0 <= i < |log|
  {
    && figures.total == |starts|
    && figures.today == |set i <- starts | log[i].day == day|
    && figures.last10s == |set i <- starts | log[i].time >= now - 10.0|
    && figures.last60s == |set i <- starts | log[i].time >= now - 60.0|
  }

  lemma {:induction false} FigureIsCount(log: seq<Start>, f: Filter, p: Period, hits: set<int>)
    requires forall i: int :: i in hits <==> 0 <= i < |log| && Matches(f, log[i]) && Within(p, log[i])
    ensures Figure(log, f, p) == |hits|
  {
    hide Matches, Within;
    if log == [] {
      assert forall i: int :: i !in hits;
      assert hits == {};
    } else {
      var n := |log| - 1;
      FigureIsCount(log[..n], f, p, hits - {n});
      assert n in hits ==> hits == hits - {n} + {n};
      assert n !in hits ==> hits == hits - {n};
    }
  }

  lemma StartsAreCounted(log: seq<Start>, f: Filter, starts: set<int>, cutoff: real, day: int)
    requires forall i: int :: i in starts <==> 0 <= i < |log| && Matches(f, log[i])
    ensures Figure(log, f, Always) == |starts|
    ensures Figure(log, f, OnDay(day)) == |set i <- starts | log[i].day == day|
    ensures Figure(log, f, Since(cutoff)) == |set i <- starts | log[i].time >= cutoff|
  {
    hide Matches;
    FigureIsCount(log, f, Always, starts);
    FigureIsCount(log, f, OnDay(day), set i <- starts | log[i].day == day);
    FigureIsCount(log, f, Since(cutoff), set i <- starts | log[i].time >= cutoff);
  }

  lemma BucketFromLogCounts(log: seq<Start>, b: Bucket, now: real, day: int, finished: nat)
    requires finished <= Figure(log, OfBucket(b), Always)
    ensures BucketCounts(BucketFromLog(log, b, now, day, finished), log, StartsOf(log, Some(b)), now, day, finished)
  {
    hide Figure, BucketForPath;
    StartsAreCounted(log, OfBucket(b), StartsOf(log, Some(b)), now - 10.0, day);
    StartsAreCounted(log, OfBucket(b), StartsOf(log, Some(b)), now - 60.0, day);
  }

  lemma TotalsFromLogCount(log: seq<Start>, now: real, day: int, finished: nat)
    requires finished <= Figure(log, OfAnyBucket, Always)
    ensures BucketCounts(TotalsFromLog(log, now, day, finished), log, StartsOf(log, None), now, day, finished)
  {
    hide Figure, BucketForPath;
    StartsAreCounted(log, OfAnyBucket, StartsOf(log, None), now - 10.0, day);
    StartsAreCounted(log, OfAnyBucket, StartsOf(log, None), now - 60.0, day);
  }

  lemma EntryFromLogCounts(log: seq<Start>, e: Entry, now: real, day: int)
    ensures EntryCounts(EntryFromLog(log, e, now - 10.0, now - 60.0, day), log, EntryStarts(log, e.0, e.1), now, day)
    ensures Figure(log, OfEntry(e), Always) == |EntryStarts(log, e.0, e.1)|
  {
    hide Figure;
    StartsAreCounted(log, OfEntry(e), EntryStarts(log, e.0, e.1), now - 10.0, day);
    StartsAreCounted(log, OfEntry(e), EntryStarts(log, e.0, e.1), now - 60.0, day);
  }

  lemma {:induction false} BucketsAddUp(log: seq<Start>, p: Period)
    ensures Figure(log, OfBucket(PublicApi), p) + Figure(log, OfBucket(ClientApi), p) + Figure(log, OfBucket(InternalApi), p)
         == Figure(log, OfAnyBucket, p)
  {
    if log != [] {
      BucketsAddUp(log[..|log| - 1], p);
      hide BucketForPath;
    }
  }

  function Added(a: BucketFigures, b: BucketFigures): BucketFigures {
    BucketFigures(a.active + b.active, a.today + b.today, a.last10s + b.last10s, a.last60s + b.last60s, a.total + b.total)
  }

  function LaterOf(a: real, b: real): real {
    if a < b then b else a
  }

  /** The figures the log gives for an entry: the short window cannot see past the long one. */
  ghost function EntryFromLog(log: seq<Start>, e: Entry, since10s: real, since60s: real, day: int): EntryFigures {
    EntryFigures(Figure(log, OfEntry(e), Since(LaterOf(since10s, since60s))), Figure(log, OfEntry(e), Since(since60s)),
                 Figure(log, OfEntry(e), OnDay(day)), Figure(log, OfEntry(e), Always))
  }

  lemma {:induction false} CountAll(times: seq<real>, threshold: real)
    requires forall i :: 0 <= i < |times| ==> times[i] >= threshold
    ensures CountFrom(times, threshold) == |times|
  {
    if times != [] { CountAll(times[..|times| - 1], threshold); }
  }

  /** All counters of the tracker. */
  datatype Counters = Counters(
    buckets: map<Bucket, BucketCounter>,
    recent: map<Entry, seq<real>>,
    today: map<Entry, nat>,
    total: map<Entry, nat>)

  ghost predicate BucketsExact(buckets: map<Bucket, BucketCounter>, log: seq<Start>, cutoff: real, day: int,
                               finished: map<Bucket, nat>)
  {
    && (forall b: Bucket :: b in buckets && b in finished)
    && (forall b <- buckets :: b in finished && BucketExact(buckets[b], b, log, cutoff, day, finished[b]))
  }

  ghost predicate Exact(c: Counters, log: seq<Start>, cutoff: real, day: int, finished: map<Bucket, nat>) {
    BucketsExact(c.buckets, log, cutoff, day, finished) && EntriesExact(c.recent, c.today, c.total, log, cutoff, day)
  }

  function RolledOver(c: Counters): Counters {
    c.(buckets := map b <- c.buckets :: c.buckets[b].(today := 0), today := map[])
  }

  function PrunedBuckets(buckets: map<Bucket, BucketCounter>, cutoff: real): map<Bucket, BucketCounter> {
    map b <- buckets :: buckets[b].(recent := DropBefore(buckets[b].recent, cutoff))
  }

  function PrunedRecent(recent: map<Entry, seq<real>>, cutoff: real): map<Entry, seq<real>> {
    map e <- recent :: DropBefore(recent[e], cutoff)
  }

  function Pruned(c: Counters, cutoff: real): Counters {
    c.(buckets := PrunedBuckets(c.buckets, cutoff), recent := PrunedRecent(c.recent, cutoff))
  }

  function Started(c: Counters, b: Bucket, e: Entry, now: real): Counters
    requires b in c.buckets
  {
    var k := c.buckets[b];
    Counters(c.buckets[b := BucketCounter(k.active + 1, k.recent + [now], k.total + 1, k.today + 1)],
             c.recent[e := (if e in c.recent then c.recent[e] else []) + [now]],
             c.today[e := GetOr0(c.today, e) + 1],
             c.total[e := GetOr0(c.total, e) + 1])
  }

  lemma RolledOverExact(c: Counters, log: seq<Start>, cutoff: real, clock: real, day: int, day': int, finished: map<Bucket, nat>)
    requires Exact(c, log, cutoff, day, finished) && Chronological(log, clock, day) && day < day'
    ensures Exact(RolledOver(c), log, cutoff, day', finished)
  {
    hide BucketExact, EntriesExact, Chronological;
    EntriesRollOver(c.recent, c.today, c.total, log, cutoff, clock, day, day');
    forall b <- c.buckets ensures BucketExact(RolledOver(c).buckets[b], b, log, cutoff, day', finished[b]) {
      BucketRolledOver(c.buckets[b], b, log, cutoff, clock, day, day', finished[b]);
    }
  }

  lemma PrunedExact(c: Counters, log: seq<Start>, cutoff: real, cutoff': real, clock: real, day: int, finished: map<Bucket, nat>)
    requires Exact(c, log, cutoff, day, finished) && Chronological(log, clock, day) && cutoff <= cutoff'
    ensures Exact(Pruned(c, cutoff'), log, cutoff', day, finished)
  {
    hide BucketExact, EntriesExact, Chronological, DropBefore;
    EntriesPruned(c.recent, c.today, c.total, Pruned(c, cutoff').recent, log, cutoff, cutoff', clock, day);
    forall b <- c.buckets ensures BucketExact(Pruned(c, cutoff').buckets[b], b, log, cutoff', day, finished[b]) {
      BucketPruned(c.buckets[b], b, log, cutoff, cutoff', clock, day, finished[b]);
    }
  }

  lemma StartedExact(c: Counters, b: Bucket, log: seq<Start>, cutoff: real, s: Start, finished: map<Bucket, nat>)
    requires Exact(c, log, cutoff, s.day, finished) && s.time >= cutoff && BucketForPath(s.endpoint) == Some(b)
    requires b in c.buckets
    ensures Exact(Started(c, b, (s.endpoint, s.agent), s.time), log + [s], cutoff, s.day, finished)
  {
    hide BucketExact, EntriesExact, BucketForPath;
    EntriesStarted(c.recent, c.today, c.total, log, cutoff, s);
    forall d <- c.buckets
      ensures BucketExact(Started(c, b, (s.endpoint, s.agent), s.time).buckets[d], d, log + [s], cutoff, s.day, finished[d])
    {
      BucketStarted(c.buckets[d], d, log, cutoff, s, finished[d]);
    }
  }

  lemma FinishedExact(c: Counters, b: Bucket, log: seq<Start>, cutoff: real, day: int, finished: map<Bucket, nat>)
    requires Exact(c, log, cutoff, day, finished)
    requires b in c.buckets && b in finished && finished[b] < Figure(log, OfBucket(b), Always)
    ensures Exact(c.(buckets := c.buckets[b := c.buckets[b].(active := Decremented(c.buckets[b].active))]),
                  log, cutoff, day, finished[b := finished[b] + 1])
  {
    hide BucketExact, EntriesExact;
    BucketFinished(c.buckets[b], b, log, cutoff, day, finished[b]);
  }

  class LiveApiRequestMetrics {
    var buckets: map<Bucket, BucketCounter>
    var entryRecent: map<Entry, seq<real>>
    var entryToday: map<Entry, nat>
    var entryTotal: map<Entry, nat>
    var currentDay: int

    /** Every counted start, how many finished per bucket, the last clock reading and prune cutoff. */
    ghost var log: seq<Start>
    ghost var finished: map<Bucket, nat>
    ghost var clock: real
    ghost var cutoff: real

    ghost function All(): Counters
      reads this
    {
      Counters(buckets, entryRecent, entryToday, entryTotal)
    }

    ghost predicate Valid()
      reads this
    {
      && Chronological(log, clock, currentDay) && cutoff <= clock - 60.0
      && Exact(All(), log, cutoff, currentDay, finished)
    }

    constructor (day: int, ghost now: real)
      ensures Valid() && log == [] && currentDay == day && clock == now
    {
      var zero := BucketCounter(0, [], 0, 0);
      buckets := map[PublicApi := zero, ClientApi := zero, InternalApi := zero];
      entryRecent, entryToday, entryTotal := map[], map[], map[];
      currentDay := day;
      log, finished := [], map[PublicApi := 0, ClientApi := 0, InternalApi := 0];
      clock, cutoff := now, now - 60.0;
      new;
      forall b: Bucket ensures b in buckets && b in finished {
        match b
        case PublicApi =>
        case ClientApi =>
        case InternalApi =>
      }
      forall e: Entry ensures EntryExact(entryRecent, entryToday, entryTotal, e, log, cutoff, currentDay) {
      }
    }

    /** `_rollover_day_unlocked`. */
    method RolloverDay(day: int)
      requires Valid() && day >= currentDay
      modifies this`currentDay, this`buckets, this`entryToday
      ensures Valid() && currentDay == day
    {
      hide Exact, Chronological;
      if day == currentDay {
        return;
      }
      RolledOverExact(All(), log, cutoff, clock, currentDay, day, finished);
      Later(log, clock, clock, currentDay, day);
      currentDay := day;
      buckets := map b <- buckets :: buckets[b].(today := 0);
      entryToday := map[];
    }

    /** `_prune_unlocked`: an entry once seen has a positive total, so none is ever stale. */
    method Prune(now: real)
      requires Valid() && now >= clock
      modifies this`buckets, this`entryRecent, this`entryToday, this`entryTotal, this`cutoff, this`clock
      ensures Valid() && cutoff == now - 60.0 && clock == now
      ensures entryTotal == old(entryTotal) && entryToday == old(entryToday)
    {
      hide BucketsExact, EntriesExact, Chronological, PrunedBuckets, PrunedRecent;
      PrunedExact(All(), log, cutoff, now - 60.0, clock, currentDay, finished);
      Later(log, clock, now, currentDay, currentDay);
      var prunedBuckets := PruneBuckets(buckets, now - 60.0);
      var recent, staleKeys := PruneEntries(entryRecent, entryToday, entryTotal, log, cutoff, currentDay, now - 60.0);
      assert recent - staleKeys == recent && entryToday - staleKeys == entryToday && entryTotal - staleKeys == entryTotal;
      assert Counters(prunedBuckets, recent, entryToday, entryTotal) == Pruned(All(), now - 60.0);
      buckets := prunedBuckets;
      entryRecent := recent - staleKeys;
      entryToday := entryToday - staleKeys;
      entryTotal := entryTotal - staleKeys;
      cutoff, clock := now - 60.0, now;
    }

    static method PruneBuckets(buckets: map<Bucket, BucketCounter>, newCutoff: real)
      returns (pruned: map<Bucket, BucketCounter>)
      ensures pruned == PrunedBuckets(buckets, newCutoff)
    {
      pruned := buckets;
      var todo := buckets.Keys;
      while todo != {}
        invariant todo <= buckets.Keys == pruned.Keys
        invariant forall b <- buckets ::
          pruned[b] == if b in todo then buckets[b] else buckets[b].(recent := DropBefore(buckets[b].recent, newCutoff))
      {
        ghost var any := AnElement(todo);
        var b :| b in todo;
        var times := PopStale(pruned[b].recent, newCutoff);
        pruned := pruned[b := pruned[b].(recent := times)];
        todo := todo - {b};
      }
    }

    static method PruneEntries(recent: map<Entry, seq<real>>, today: map<Entry, nat>, total: map<Entry, nat>,
                               ghost log: seq<Start>, ghost cutoff: real, ghost day: int, newCutoff: real)
      returns (pruned: map<Entry, seq<real>>, staleKeys: set<Entry>)
      requires EntriesExact(recent, today, total, log, cutoff, day)
      ensures pruned == PrunedRecent(recent, newCutoff)
      ensures staleKeys == {}
    {
      pruned, staleKeys := recent, {};
      var todo := recent.Keys;
      while todo != {}
        invariant todo <= recent.Keys == pruned.Keys && staleKeys == {}
        invariant forall e <- recent :: pruned[e] == if e in todo then recent[e] else DropBefore(recent[e], newCutoff)
      {
        ghost var any := AnElement(todo);
        var e :| e in todo;
        assert EntryExact(recent, today, total, e, log, cutoff, day);
        var times := PopStale(pruned[e], newCutoff);
        pruned := pruned[e := times];
        if times == [] && GetOr0(today, e) == 0 && GetOr0(total, e) == 0 {
          staleKeys := staleKeys + {e};
        }
        todo := todo - {e};
      }
    }

    method StartRequest(path: string, agent: string, now: real, day: int) returns (token: Option<Token>)
      requires Valid() && now >= clock && day >= currentDay
      modifies this
      ensures Valid() && finished == old(finished)
      ensures BucketForPath(path).None? ==> token == None && log == old(log)
      ensures BucketForPath(path).Some? ==>
        token == Some(Token(BucketForPath(path).value, (path, agent))) && log == old(log) + [Start(now, day, path, agent)]
    {
      hide Exact, BucketForPath, Chronological;
      var bucket := BucketForPath(path);
      if bucket.None? {
        return None;
      }
      var b, e := bucket.value, (path, agent);
      RolloverDay(day);
      Prune(now);
      CountStart(b, e, now);
      token := Some(Token(b, e));
    }

    /** The counter updates of a start, after the rollover and the prune. */
    method CountStart(b: Bucket, e: Entry, now: real)
      requires Valid() && clock == now && BucketForPath(e.0) == Some(b)
      modifies this`buckets, this`entryRecent, this`entryToday, this`entryTotal, this`log
      ensures Valid() && log == old(log) + [Start(now, currentDay, e.0, e.1)]
    {
      hide EntriesExact, BucketExact, BucketForPath, Chronological, Figure, Times;
      ghost var s := Start(now, currentDay, e.0, e.1);
      assert b in buckets;
      StartedExact(All(), b, log, cutoff, s, finished);
      StartedLater(log, s, clock, currentDay);
      hide Exact, BucketsExact;
      var c := buckets[b];
      buckets := buckets[b := BucketCounter(c.active + 1, c.recent + [now], c.total + 1, c.today + 1)];
      entryRecent := entryRecent[e := (if e in entryRecent then entryRecent[e] else []) + [now]];
      entryToday := entryToday[e := GetOr0(entryToday, e) + 1];
      entryTotal := entryTotal[e := GetOr0(entryTotal, e) + 1];
      log := log + [s];
    }

    /** A request is over. A finish beyond the requests that are active counts as none. */
    method FinishRequest(token: Option<Token>)
      requires Valid()
      modifies this`buckets, this`finished
      ensures Valid()
      ensures token.None? ==> finished == old(finished)
      ensures token.Some? ==>
        var b := token.value.bucket;
        && b in old(finished) && old(finished)[b] <= Figure(log, OfBucket(b), Always)
        && finished == if old(finished)[b] < Figure(log, OfBucket(b), Always)
                       then old(finished)[b := old(finished)[b] + 1] else old(finished)
    {
      hide EntriesExact, Chronological, Figure;
      if token.None? {
        return;
      }
      var b := token.value.bucket;
      var c := buckets[b];
      assert c.active == Figure(log, OfBucket(b), Always) - finished[b];
      if finished[b] < Figure(log, OfBucket(b), Always) {
        FinishedExact(All(), b, log, cutoff, currentDay, finished);
        finished := finished[b := finished[b] + 1];
      } else {
        assert buckets[b := c.(active := Decremented(c.active))] == buckets;
      }
      hide BucketExact;
      buckets := buckets[b := c.(active := Decremented(c.active))];
    }

    method BucketSnapshot(b: Bucket, now: real) returns (figures: BucketFigures)
      requires Valid() && cutoff == now - 60.0
      ensures b in finished && finished[b] <= Figure(log, OfBucket(b), Always)
      ensures figures == BucketFromLog(log, b, now, currentDay, finished[b])
    {
      var c := buckets[b];
      TimesSorted(log, OfBucket(b), cutoff, clock, currentDay);
      TimesCount(log, OfBucket(b), cutoff, now - 10.0);
      var last10s := CountRecent(c.recent, now - 10.0);
      figures := BucketFigures(c.active, c.today, last10s, |c.recent|, c.total);
    }

    /** The part of a snapshot after the lock: requests may have started since `now`, and with the
        last of them the older times are gone. */
    method EntriesSnapshot(now: real) returns (entries: map<Entry, EntryFigures>)
      requires Valid()
      ensures forall e: Entry :: e in entries <==> Figure(log, OfEntry(e), Always) > 0
      ensures forall e <- entries :: entries[e] == EntryFromLog(log, e, now - 10.0, cutoff, currentDay)
    {
      entries := map[];
      var todo := entryTotal.Keys;
      while todo != {}
        invariant todo <= entryTotal.Keys
        invariant entries.Keys == entryTotal.Keys - todo
        invariant forall e <- entries :: entries[e] == EntryFromLog(log, e, now - 10.0, cutoff, currentDay)
      {
        ghost var any := AnElement(todo);
        var e :| e in todo;
        var figures := EntrySnapshot(e, now);
        entries := entries[e := figures];
        todo := todo - {e};
      }
      forall e: Entry ensures e in entries <==> Figure(log, OfEntry(e), Always) > 0 {
        assert EntryExact(entryRecent, entryToday, entryTotal, e, log, cutoff, currentDay);
      }
    }

    method EntrySnapshot(e: Entry, now: real) returns (figures: EntryFigures)
      requires Valid() && e in entryTotal
      ensures figures == EntryFromLog(log, e, now - 10.0, cutoff, currentDay)
    {
      assert EntryExact(entryRecent, entryToday, entryTotal, e, log, cutoff, currentDay);
      var recent := entryRecent[e];
      TimesSorted(log, OfEntry(e), cutoff, clock, currentDay);
      TimesCount(log, OfEntry(e), cutoff, LaterOf(now - 10.0, cutoff));
      var last10s := CountRecent(recent, now - 10.0);
      if now - 10.0 < cutoff {
        CountAll(recent, now - 10.0);
        CountAll(recent, cutoff);
      }
      figures := EntryFigures(last10s, |recent|, GetOr0(entryToday, e), entryTotal[e]);
    }

    /** The part of a snapshot under the lock: every figure is the one the full log gives. */
    method BucketsSnapshot(now: real, day: int) returns (figures: map<Bucket, BucketFigures>, totals: BucketFigures)
      requires Valid() && now >= clock && day >= currentDay
      modifies this
      ensures Valid() && log == old(log) && finished == old(finished) && cutoff == now - 60.0 && currentDay == day
      ensures forall b: Bucket ::
        && b in finished && finished[b] <= Figure(log, OfBucket(b), Always)
        && b in figures && figures[b] == BucketFromLog(log, b, now, day, finished[b])
      ensures var over := finished[PublicApi] + finished[ClientApi] + finished[InternalApi];
        over <= Figure(log, OfAnyBucket, Always) && totals == TotalsFromLog(log, now, day, over)
    {
      hide Exact, Chronological, Figure;
      RolloverDay(day);
      Prune(now);
      var publicFigures := BucketSnapshot(PublicApi, now);
      var clientFigures := BucketSnapshot(ClientApi, now);
      var internalFigures := BucketSnapshot(InternalApi, now);
      figures := map[PublicApi := publicFigures, ClientApi := clientFigures, InternalApi := internalFigures];
      totals := Added(Added(publicFigures, clientFigures), internalFigures);
      BucketsAddUp(log, Always);
      BucketsAddUp(log, OnDay(day));
      BucketsAddUp(log, Since(now - 10.0));
      BucketsAddUp(log, Since(now - 60.0));
      forall b: Bucket
        ensures b in finished && finished[b] <= Figure(log, OfBucket(b), Always)
        ensures b in figures && figures[b] == BucketFromLog(log, b, now, day, finished[b])
      {
        match b
        case PublicApi =>
        case ClientApi =>
        case InternalApi =>
      }
    }

    /** A snapshot during which no request starts: every figure counts the log. An entry is listed
        exactly if it ever started. */
    method Snapshot(now: real, day: int)
        returns (figures: map<Bucket, BucketFigures>, totals: BucketFigures, entries: map<Entry, EntryFigures>)
      requires Valid() && now >= clock && day >= currentDay
      modifies this
      ensures Valid() && log == old(log) && finished == old(finished)
      ensures forall b: Bucket ::
        b in finished && b in figures && BucketCounts(figures[b], log, StartsOf(log, Some(b)), now, day, finished[b])
      ensures BucketCounts(totals, log, StartsOf(log, None), now, day,
                           finished[PublicApi] + finished[ClientApi] + finished[InternalApi])
      ensures forall e: Entry :: e in entries <==> EntryStarts(log, e.0, e.1) != {}
      ensures forall e <- entries :: EntryCounts(entries[e], log, EntryStarts(log, e.0, e.1), now, day)
    {
      hide Exact, Chronological, Figure, BucketFromLog, TotalsFromLog, EntryFromLog, BucketCounts, EntryCounts, StartsOf, EntryStarts;
      figures, totals := BucketsSnapshot(now, day);
      entries := EntriesSnapshot(now);
      forall b: Bucket ensures BucketCounts(figures[b], log, StartsOf(log, Some(b)), now, day, finished[b]) {
        BucketFromLogCounts(log, b, now, day, finished[b]);
      }
      TotalsFromLogCount(log, now, day, finished[PublicApi] + finished[ClientApi] + finished[InternalApi]);
      forall e: Entry
        ensures e in entries <==> EntryStarts(log, e.0, e.1) != {}
        ensures e in entries ==> EntryCounts(entries[e], log, EntryStarts(log, e.0, e.1), now, day)
      {
        EntryFromLogCounts(log, e, now, day);
      }
    }
  }
}
