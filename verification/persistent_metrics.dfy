/** Request counts on their way to the database: pending in memory, held by a flush that may fail,
    or persisted. Flushes and requests interleave freely; no count is lost or doubled. */
module PersistentMetrics {
  import opened Sets

  type Bucket = string
  type BucketDay = (Bucket, int)
  type Entry = (Bucket, string, string)
  type EntryDay = (Entry, int)

  const SUPPORTED_BUCKETS := {"public_api", "client_api", "internal_api"}

  function Get<K(==)>(m: map<K, nat>, k: K): nat {
    if k in m then m[k] else 0
  }

  function Bumped<K(==)>(m: map<K, nat>, k: K, delta: nat): map<K, nat> {
    m[k := Get(m, k) + delta]
  }

  /** What restoring counts into a dictionary gives. */
  function Merged<K(==)>(m: map<K, nat>, held: map<K, nat>): map<K, nat> {
    map k <- m.Keys + held.Keys :: Get(m, k) + Get(held, k)
  }

  /** The daily rows that survive the deletion of past days. */
  function FromDay<T(==,!new)>(daily: map<(T, int), nat>, day: int): (r: map<(T, int), nat>)
    ensures forall k: (T, int) :: Get(r, k) == if k.1 < day then 0 else Get(daily, k)
  {
    map k <- daily | k.1 >= day :: daily[k]
  }

  // -------------------------------------------------- sums over dictionaries

  ghost function Sum<K(!new)>(m: map<K, nat>, s: set<K>): nat
    requires s <= m.Keys
  {
    if s == {} then 0
    else
      var k := Pick(s);
      m[k] + Sum(m, s - {k})
  }

  ghost function Pick<K(!new)>(s: set<K>): (k: K)
    requires s != {}
    ensures k in s
  {
    var k :| k in s;
    k
  }

  lemma {:induction false} SumRemove<K(!new)>(m: map<K, nat>, s: set<K>, k: K)
    requires s <= m.Keys && k in s
    ensures Sum(m, s) == m[k] + Sum(m, s - {k})
    decreases |s|
  {
    var p := Pick(s);
    if p != k {
      SumRemove(m, s - {p}, k);
      SumRemove(m, s - {k}, p);
      assert s - {p} - {k} == s - {k} - {p};
    }
  }

  lemma {:induction false} SumSame<K(!new)>(m: map<K, nat>, m': map<K, nat>, s: set<K>)
    requires s <= m.Keys && s <= m'.Keys && forall k <- s :: m[k] == m'[k]
    ensures Sum(m, s) == Sum(m', s)
    decreases |s|
  {
    if s != {} { SumSame(m, m', s - {Pick(s)}); }
  }

  /** The counts of the selected keys. */
  ghost function SumWhere<K(!new)>(m: map<K, nat>, p: K -> bool): nat {
    Sum(m, set k <- m | p(k))
  }

  lemma BumpedWhere<K(!new)>(m: map<K, nat>, k: K, delta: nat, p: K -> bool)
    ensures SumWhere(Bumped(m, k, delta), p) == SumWhere(m, p) + (if p(k) then delta else 0)
  {
    var m' := Bumped(m, k, delta);
    var s, s' := set x <- m | p(x), set x <- m' | p(x);
    SumSame(m, m', s - {k});
    if p(k) {
      assert s' == s + {k} && s' - {k} == s - {k};
      SumRemove(m', s', k);
      if k in m { SumRemove(m, s, k); }
    } else {
      assert s' == s && s - {k} == s;
    }
  }

  lemma RemovedWhere<K(!new)>(m: map<K, nat>, k: K, p: K -> bool)
    requires k in m
    ensures SumWhere(m, p) == SumWhere(m - {k}, p) + (if p(k) then m[k] else 0)
  {
    assert m == Bumped(m - {k}, k, m[k]);
    BumpedWhere(m - {k}, k, m[k], p);
  }

  lemma NothingWhere<K(!new)>(p: K -> bool)
    ensures SumWhere(map[], p) == 0
  {
  }

  lemma MergedNext<K(!new)>(m: map<K, nat>, held: map<K, nat>, k: K)
    requires k in held
    ensures Merged(m, held) == Bumped(Merged(m, held - {k}), k, held[k])
  {
  }

  lemma {:induction false} MergedWhere<K(!new)>(m: map<K, nat>, held: map<K, nat>, p: K -> bool)
    ensures SumWhere(Merged(m, held), p) == SumWhere(m, p) + SumWhere(held, p)
    decreases held.Keys
  {
    if held == map[] {
      assert Merged(m, held) == m;
    } else {
      hide SumWhere, Merged, Bumped;
      var k := AnElement(held.Keys);
      var rest := held - {k};
      assert rest.Keys == held.Keys - {k};
      MergedNext(m, held, k);
      MergedWhere(m, rest, p);
      BumpedWhere(Merged(m, rest), k, held[k], p);
      RemovedWhere(held, k, p);
    }
  }

  // ---------------------------------------------------------------- measures

  datatype Pending = Pending(buckets: map<BucketDay, nat>, entries: map<EntryDay, nat>)

  const NOTHING := Pending(map[], map[])

  datatype Tables = Tables(
    bucketTotals: map<Bucket, nat>,
    bucketDaily: map<BucketDay, nat>,
    entryTotals: map<Entry, nat>,
    entryDaily: map<EntryDay, nat>)

  /** The figures that are kept: a bucket's or an entry's total, the same for one day, and the sum of
      a bucket's entries. */
  datatype Measure =
    | BucketTotal(b: Bucket)
    | EntryTotal(e: Entry)
    | BucketOnDay(bucketDay: BucketDay)
    | EntryOnDay(entryDay: EntryDay)
    | EntriesOf(bucket: Bucket)

  function DaysOfBucket(b: Bucket): BucketDay -> bool { (k: BucketDay) => k.0 == b }
  function DaysOfEntry(e: Entry): EntryDay -> bool { (k: EntryDay) => k.0 == e }
  function DaysOfEntriesOf(b: Bucket): EntryDay -> bool { (k: EntryDay) => k.0.0 == b }
  function TotalsOf(b: Bucket): Entry -> bool { (e: Entry) => e.0 == b }

  ghost function InPending(p: Pending, m: Measure): nat {
    match m
    case BucketTotal(b) => SumWhere(p.buckets, DaysOfBucket(b))
    case EntryTotal(e) => SumWhere(p.entries, DaysOfEntry(e))
    case BucketOnDay(k) => Get(p.buckets, k)
    case EntryOnDay(k) => Get(p.entries, k)
    case EntriesOf(b) => SumWhere(p.entries, DaysOfEntriesOf(b))
  }

  ghost function InTables(t: Tables, m: Measure): nat {
    match m
    case BucketTotal(b) => Get(t.bucketTotals, b)
    case EntryTotal(e) => Get(t.entryTotals, e)
    case BucketOnDay(k) => Get(t.bucketDaily, k)
    case EntryOnDay(k) => Get(t.entryDaily, k)
    case EntriesOf(b) => SumWhere(t.entryTotals, TotalsOf(b))
  }

  /** Whether a recorded request counts towards a figure. */
  predicate Hits(r: EntryDay, m: Measure) {
    match m
    case BucketTotal(b) => r.0.0 == b
    case EntryTotal(e) => r.0 == e
    case BucketOnDay(k) => k == (r.0.0, r.1)
    case EntryOnDay(k) => k == r
    case EntriesOf(b) => r.0.0 == b
  }

  ghost function InLog(log: seq<EntryDay>, m: Measure): nat {
    if log == [] then 0 else InLog(log[..|log| - 1], m) + (if Hits(log[|log| - 1], m) then 1 else 0)
  }

  /** The recorded requests that count towards a figure, by their position. */
  lemma {:induction false} LogIsCounted(log: seq<EntryDay>, m: Measure, hits: set<int>)
    requires forall i: int :: i in hits <==> 0 <= i < |log| && Hits(log[i], m)
    ensures InLog(log, m) == |hits|
  {
    hide Hits;
    if log == [] {
      assert forall i: int :: i !in hits;
      assert hits == {};
    } else {
      var n := |log| - 1;
      LogIsCounted(log[..n], m, hits - {n});
      assert n in hits ==> hits == hits - {n} + {n};
      assert n !in hits ==> hits == hits - {n};
    }
  }

  function RecordedIn(p: Pending, r: EntryDay): Pending {
    Pending(Bumped(p.buckets, (r.0.0, r.1), 1), Bumped(p.entries, r, 1))
  }

  function Restored(p: Pending, held: Pending): Pending {
    Pending(Merged(p.buckets, held.buckets), Merged(p.entries, held.entries))
  }

  lemma RecordedMeasure(p: Pending, r: EntryDay, m: Measure)
    ensures InPending(RecordedIn(p, r), m) == InPending(p, m) + (if Hits(r, m) then 1 else 0)
  {
    match m
    case BucketTotal(b) => BumpedWhere(p.buckets, (r.0.0, r.1), 1, DaysOfBucket(b));
    case EntryTotal(e) => BumpedWhere(p.entries, r, 1, DaysOfEntry(e));
    case EntriesOf(b) => BumpedWhere(p.entries, r, 1, DaysOfEntriesOf(b));
    case _ =>
  }

  lemma RestoredMeasure(p: Pending, held: Pending, m: Measure)
    ensures InPending(Restored(p, held), m) == InPending(p, m) + InPending(held, m)
  {
    match m
    case BucketTotal(b) => MergedWhere(p.buckets, held.buckets, DaysOfBucket(b));
    case EntryTotal(e) => MergedWhere(p.entries, held.entries, DaysOfEntry(e));
    case EntriesOf(b) => MergedWhere(p.entries, held.entries, DaysOfEntriesOf(b));
    case _ =>
  }

  lemma NothingMeasure(m: Measure)
    ensures InPending(NOTHING, m) == 0
  {
  }

  /** A daily figure of a day before `day`: those rows are deleted by a commit made on `day`. */
  predicate Expired(m: Measure, day: int) {
    (m.BucketOnDay? && m.bucketDay.1 < day) || (m.EntryOnDay? && m.entryDay.1 < day)
  }

  /** What a committed flush does to every figure. */
  ghost predicate CommittedAs(t: Tables, t': Tables, held: Pending, day: int) {
    forall m: Measure :: InTables(t', m) == if Expired(m, day) then 0 else InTables(t, m) + InPending(held, m)
  }

  lemma EachTableCommitted(t: Tables, t': Tables, held: Pending, day: int)
    requires forall b: Bucket :: Get(t'.bucketTotals, b) == Get(t.bucketTotals, b) + SumWhere(held.buckets, DaysOfBucket(b))
    requires forall e: Entry :: Get(t'.entryTotals, e) == Get(t.entryTotals, e) + SumWhere(held.entries, DaysOfEntry(e))
    requires forall b: Bucket ::
      SumWhere(t'.entryTotals, TotalsOf(b)) == SumWhere(t.entryTotals, TotalsOf(b)) + SumWhere(held.entries, DaysOfEntriesOf(b))
    requires forall k: BucketDay ::
      Get(t'.bucketDaily, k) == if k.1 < day then 0 else Get(t.bucketDaily, k) + Get(held.buckets, k)
    requires forall k: EntryDay ::
      Get(t'.entryDaily, k) == if k.1 < day then 0 else Get(t.entryDaily, k) + Get(held.entries, k)
    ensures CommittedAs(t, t', held, day)
  {
    hide SumWhere, Get;
    forall m: Measure
      ensures InTables(t', m) == if Expired(m, day) then 0 else InTables(t, m) + InPending(held, m)
    {
      match m
      case BucketTotal(_) =>
      case EntryTotal(_) =>
      case BucketOnDay(_) =>
      case EntryOnDay(_) =>
      case EntriesOf(_) =>
    }
  }

  // ------------------------------------------------------------ the protocol

  /** `flights[i]` is what flush `i` swapped out and has neither persisted nor restored. */
  datatype State = State(pending: Pending, flights: seq<Pending>, tables: Tables, log: seq<EntryDay>, latestDay: int)

  datatype Event =
    | Record(bucket: string, endpoint: string, agent: string, day: int)
    | BeginFlush
    | Commit(flight: nat, currentDay: int)
    | Rollback(failed: nat)

  predicate Counted(bucket: string, endpoint: string, agent: string) {
    bucket in SUPPORTED_BUCKETS && endpoint != "" && agent != ""
  }

  ghost predicate Next(s: State, e: Event, s': State) {
    match e
    case Record(bucket, endpoint, agent, day) =>
      s' == if Counted(bucket, endpoint, agent)
            then s.(pending := RecordedIn(s.pending, ((bucket, endpoint, agent), day)),
                    log := s.log + [((bucket, endpoint, agent), day)])
            else s
    case BeginFlush =>
      s' == s.(pending := NOTHING, flights := s.flights + [s.pending])
    case Commit(f, day) =>
      && f < |s.flights|
      && s' == s.(flights := s.flights[f := NOTHING], tables := s'.tables,
                  latestDay := if day > s.latestDay then day else s.latestDay)
      && CommittedAs(s.tables, s'.tables, s.flights[f], day)
    case Rollback(f) =>
      && f < |s.flights|
      && s' == s.(flights := s.flights[f := NOTHING], pending := Restored(s.pending, s.flights[f]))
  }

  ghost function InFlights(flights: seq<Pending>, m: Measure): nat {
    if flights == [] then 0 else InFlights(flights[..|flights| - 1], m) + InPending(flights[|flights| - 1], m)
  }

  lemma {:induction false} FlightOver(flights: seq<Pending>, f: nat, m: Measure)
    requires f < |flights|
    ensures InFlights(flights, m) == InFlights(flights[f := NOTHING], m) + InPending(flights[f], m)
  {
    hide InPending;
    NothingMeasure(m);
    var last, after := |flights| - 1, flights[f := NOTHING];
    if f == last {
      assert after[..last] == flights[..last];
    } else {
      FlightOver(flights[..last], f, m);
      assert after[..last] == flights[..last][f := NOTHING];
    }
  }

  /** Recorded = persisted + pending + held by flushes. */
  ghost predicate Conserved(s: State, m: Measure) {
    Expired(m, s.latestDay) || InLog(s.log, m) == InTables(s.tables, m) + InPending(s.pending, m) + InFlights(s.flights, m)
  }

  lemma NextConserves(s: State, e: Event, s': State, m: Measure)
    requires Next(s, e, s') && Conserved(s, m)
    ensures Conserved(s', m)
  {
    hide InPending, InTables, Hits;
    match e
    case Record(bucket, endpoint, agent, day) =>
      if Counted(bucket, endpoint, agent) {
        RecordedMeasure(s.pending, ((bucket, endpoint, agent), day), m);
        assert s'.log[..|s.log|] == s.log;
      }
    case BeginFlush =>
      NothingMeasure(m);
      assert s'.flights[..|s.flights|] == s.flights;
    case Commit(f, day) =>
      FlightOver(s.flights, f, m);
    case Rollback(f) =>
      FlightOver(s.flights, f, m);
      RestoredMeasure(s.pending, s.flights[f], m);
  }

  ghost predicate Run(states: seq<State>, events: seq<Event>) {
    && |states| == |events| + 1
    && (forall i :: 0 <= i < |events| ==> Next(states[i], events[i], states[i + 1]))
  }

  const START := State(NOTHING, [], Tables(map[], map[], map[], map[]), [], 0)

  /** Over any run of requests and of concurrent flushes that commit or roll back, every figure is
      conserved; daily figures as long as their day has not been deleted. */
  lemma {:induction false} EveryRunConserves(states: seq<State>, events: seq<Event>, i: nat, m: Measure)
    requires Run(states, events) && states[0] == START && i < |states|
    ensures Conserved(states[i], m)
  {
    if i == 0 {
      NothingMeasure(m);
    } else {
      EveryRunConserves(states, events, i - 1, m);
      NextConserves(states[i - 1], events[i - 1], states[i], m);
    }
  }

  /** A bucket's count equals the sum of its entries, wherever the counts are. */
  ghost predicate Paired(s: State, b: Bucket) {
    && InTables(s.tables, BucketTotal(b)) == InTables(s.tables, EntriesOf(b))
    && InPending(s.pending, BucketTotal(b)) == InPending(s.pending, EntriesOf(b))
    && (forall f :: 0 <= f < |s.flights| ==>
          InPending(s.flights[f], BucketTotal(b)) == InPending(s.flights[f], EntriesOf(b)))
  }

  lemma NextKeepsPaired(s: State, e: Event, s': State, b: Bucket)
    requires Next(s, e, s') && Paired(s, b)
    ensures Paired(s', b)
  {
    hide InPending, InTables;
    NothingMeasure(BucketTotal(b));
    NothingMeasure(EntriesOf(b));
    match e
    case Record(bucket, endpoint, agent, day) =>
      RecordedMeasure(s.pending, ((bucket, endpoint, agent), day), BucketTotal(b));
      RecordedMeasure(s.pending, ((bucket, endpoint, agent), day), EntriesOf(b));
    case BeginFlush =>
    case Commit(f, day) =>
    case Rollback(f) =>
      RestoredMeasure(s.pending, s.flights[f], BucketTotal(b));
      RestoredMeasure(s.pending, s.flights[f], EntriesOf(b));
  }

  /** Persisted bucket totals always equal the sum of their persisted endpoint totals. */
  lemma {:induction false} PersistedTotalsAgree(states: seq<State>, events: seq<Event>, i: nat, b: Bucket)
    requires Run(states, events) && states[0] == START && i < |states|
    ensures Paired(states[i], b)
    ensures Get(states[i].tables.bucketTotals, b) == SumWhere(states[i].tables.entryTotals, TotalsOf(b))
  {
    if i == 0 {
      NothingMeasure(BucketTotal(b));
      NothingMeasure(EntriesOf(b));
    } else {
      PersistedTotalsAgree(states, events, i - 1, b);
      NextKeepsPaired(states[i - 1], events[i - 1], states[i], b);
    }
  }

  // ---------------------------------------------------- recorder and tables

  /** One held count moved into the tables changes no sum of both. */
  lemma MovedEntry(totals: map<Entry, nat>, daily: map<EntryDay, nat>, rest: map<EntryDay, nat>, k: EntryDay)
    requires k in rest
    ensures forall e: Entry ::
      Get(Bumped(totals, k.0, rest[k]), e) + SumWhere(rest - {k}, DaysOfEntry(e)) == Get(totals, e) + SumWhere(rest, DaysOfEntry(e))
    ensures forall b: Bucket ::
      SumWhere(Bumped(totals, k.0, rest[k]), TotalsOf(b)) + SumWhere(rest - {k}, DaysOfEntriesOf(b))
        == SumWhere(totals, TotalsOf(b)) + SumWhere(rest, DaysOfEntriesOf(b))
    ensures forall d: EntryDay :: Get(Bumped(daily, k, rest[k]), d) + Get(rest - {k}, d) == Get(daily, d) + Get(rest, d)
  {
    hide SumWhere;
    forall e: Entry
      ensures SumWhere(rest, DaysOfEntry(e)) == SumWhere(rest - {k}, DaysOfEntry(e)) + (if k.0 == e then rest[k] else 0)
    {
      RemovedWhere(rest, k, DaysOfEntry(e));
    }
    forall b: Bucket
      ensures SumWhere(Bumped(totals, k.0, rest[k]), TotalsOf(b)) + SumWhere(rest - {k}, DaysOfEntriesOf(b))
           == SumWhere(totals, TotalsOf(b)) + SumWhere(rest, DaysOfEntriesOf(b))
    {
      RemovedWhere(rest, k, DaysOfEntriesOf(b));
      BumpedWhere(totals, k.0, rest[k], TotalsOf(b));
    }
  }

  class MetricTables {
    var bucketTotals: map<Bucket, nat>
    var bucketDaily: map<BucketDay, nat>
    var entryTotals: map<Entry, nat>
    var entryDaily: map<EntryDay, nat>

    ghost function Rows(): Tables
      reads this
    {
      Tables(bucketTotals, bucketDaily, entryTotals, entryDaily)
    }

    constructor ()
      ensures Rows() == START.tables
    {
      bucketTotals, bucketDaily, entryTotals, entryDaily := map[], map[], map[], map[];
    }

    /** The transaction of a flush: upsert every held count, delete the daily rows of past days. */
    method Persist(held: Pending, currentDay: int)
      modifies this
      ensures CommittedAs(old(Rows()), Rows(), held, currentDay)
      ensures forall b: Bucket ::
        Get(bucketTotals, b) == Get(old(bucketTotals), b) + SumWhere(held.buckets, DaysOfBucket(b))
      ensures forall e: Entry ::
        Get(entryTotals, e) == Get(old(entryTotals), e) + SumWhere(held.entries, DaysOfEntry(e))
      ensures forall k: BucketDay ::
        Get(bucketDaily, k) == if k.1 < currentDay then 0 else Get(old(bucketDaily), k) + Get(held.buckets, k)
      ensures forall k: EntryDay ::
        Get(entryDaily, k) == if k.1 < currentDay then 0 else Get(old(entryDaily), k) + Get(held.entries, k)
    {
      hide SumWhere, Get, FromDay, CommittedAs;
      ghost var before := Rows();
      var totals, daily := UpsertBuckets(bucketTotals, bucketDaily, held.buckets);
      var entries, entriesByDay := UpsertEntries(entryTotals, entryDaily, held.entries);
      bucketTotals, entryTotals := totals, entries;
      bucketDaily, entryDaily := FromDay(daily, currentDay), FromDay(entriesByDay, currentDay);
      EachTableCommitted(before, Rows(), held, currentDay);
    }

    static method UpsertBuckets(totals: map<Bucket, nat>, daily: map<BucketDay, nat>, held: map<BucketDay, nat>)
      returns (totals': map<Bucket, nat>, daily': map<BucketDay, nat>)
      ensures forall b: Bucket :: Get(totals', b) == Get(totals, b) + SumWhere(held, DaysOfBucket(b))
      ensures forall k: BucketDay :: Get(daily', k) == Get(daily, k) + Get(held, k)
    {
      hide SumWhere;
      totals', daily' := totals, daily;
      var rest := held;
      while rest != map[]
        invariant forall b: Bucket ::
          Get(totals', b) + SumWhere(rest, DaysOfBucket(b)) == Get(totals, b) + SumWhere(held, DaysOfBucket(b))
        invariant forall k: BucketDay :: Get(daily', k) + Get(rest, k) == Get(daily, k) + Get(held, k)
        decreases rest.Keys
      {
        ghost var any := AnElement(rest.Keys);
        var k :| k in rest.Keys;
        forall b: Bucket
          ensures SumWhere(rest, DaysOfBucket(b)) == SumWhere(rest - {k}, DaysOfBucket(b)) + (if k.0 == b then rest[k] else 0)
        {
          RemovedWhere(rest, k, DaysOfBucket(b));
        }
        totals' := Bumped(totals', k.0, rest[k]);
        daily' := Bumped(daily', k, rest[k]);
        rest := rest - {k};
      }
      forall b: Bucket ensures SumWhere(rest, DaysOfBucket(b)) == 0 {
        NothingWhere(DaysOfBucket(b));
      }
    }

    static method UpsertEntries(totals: map<Entry, nat>, daily: map<EntryDay, nat>, held: map<EntryDay, nat>)
      returns (totals': map<Entry, nat>, daily': map<EntryDay, nat>)
      ensures forall e: Entry :: Get(totals', e) == Get(totals, e) + SumWhere(held, DaysOfEntry(e))
      ensures forall b: Bucket ::
        SumWhere(totals', TotalsOf(b)) == SumWhere(totals, TotalsOf(b)) + SumWhere(held, DaysOfEntriesOf(b))
      ensures forall k: EntryDay :: Get(daily', k) == Get(daily, k) + Get(held, k)
    {
      hide SumWhere, Bumped, DaysOfEntry, DaysOfEntriesOf, TotalsOf;
      totals', daily' := totals, daily;
      var rest := held;
      while rest != map[]
        invariant forall e: Entry ::
          Get(totals', e) + SumWhere(rest, DaysOfEntry(e)) == Get(totals, e) + SumWhere(held, DaysOfEntry(e))
        invariant forall b: Bucket ::
          SumWhere(totals', TotalsOf(b)) + SumWhere(rest, DaysOfEntriesOf(b))
            == SumWhere(totals, TotalsOf(b)) + SumWhere(held, DaysOfEntriesOf(b))
        invariant forall k: EntryDay :: Get(daily', k) + Get(rest, k) == Get(daily, k) + Get(held, k)
        decreases rest.Keys
      {
        ghost var any := AnElement(rest.Keys);
        var k :| k in rest.Keys;
        MovedEntry(totals', daily', rest, k);
        totals' := Bumped(totals', k.0, rest[k]);
        daily' := Bumped(daily', k, rest[k]);
        rest := rest - {k};
      }
      forall e: Entry ensures SumWhere(rest, DaysOfEntry(e)) == 0 {
        NothingWhere(DaysOfEntry(e));
      }
      forall b: Bucket ensures SumWhere(rest, DaysOfEntriesOf(b)) == 0 {
        NothingWhere(DaysOfEntriesOf(b));
      }
    }
  }

  lemma RestoredAlone(held: Pending)
    ensures Restored(NOTHING, held) == held
  {
  }

  ghost predicate Follows(s: State, s': State) {
    exists states, events :: Run(states, events) && states[0] == s && states[|events|] == s'
  }

  lemma FollowsItself(s: State)
    ensures Follows(s, s)
  {
    assert Run([s], []);
  }

  lemma FollowsNext(start: State, s: State, e: Event, s': State)
    requires Follows(start, s) && Next(s, e, s')
    ensures Follows(start, s')
  {
    hide Next;
    var states, events :| Run(states, events) && states[0] == start && states[|events|] == s;
    assert Run(states + [s'], events + [e]);
  }

  /** The recorder over its tables, and the counts that the flushes under way have taken out. */
  class PersistentApiMetricsRecorder {
    const tables: MetricTables
    var bucketPending: map<BucketDay, nat>
    var entryPending: map<EntryDay, nat>
    var flights: seq<Pending>
    ghost var log: seq<EntryDay>
    ghost var latestDay: int

    ghost function Unflushed(): Pending
      reads this
    {
      Pending(bucketPending, entryPending)
    }

    ghost function Now(): State
      reads this, tables
    {
      State(Unflushed(), flights, tables.Rows(), log, latestDay)
    }

    constructor (tables: MetricTables)
      requires tables.Rows() == START.tables
      ensures this.tables == tables && Now() == START
    {
      this.tables := tables;
      bucketPending, entryPending, flights := map[], map[], [];
      log, latestDay := [], 0;
    }

    method RecordRequest(bucket: string, endpoint: string, agent: string, metricDay: int)
      modifies this`bucketPending, this`entryPending, this`log
      ensures Next(old(Now()), Record(bucket, endpoint, agent, metricDay), Now())
      ensures var counts := bucket in {"public_api", "client_api", "internal_api"} && endpoint != "" && agent != "";
        && log == (if counts then old(log) + [((bucket, endpoint, agent), metricDay)] else old(log))
        && (forall k: BucketDay ::
              Get(bucketPending, k) == Get(old(bucketPending), k) + if counts && k == (bucket, metricDay) then 1 else 0)
        && (forall k: EntryDay ::
              Get(entryPending, k)
                == Get(old(entryPending), k) + if counts && k == ((bucket, endpoint, agent), metricDay) then 1 else 0)
    {
      if bucket !in SUPPORTED_BUCKETS || endpoint == "" || agent == "" {
        return;
      }
      var bucketKey := (bucket, metricDay);
      var entryKey := ((bucket, endpoint, agent), metricDay);
      bucketPending := bucketPending[bucketKey := Get(bucketPending, bucketKey) + 1];
      entryPending := entryPending[entryKey := Get(entryPending, entryKey) + 1];
      log := log + [entryKey];
    }

    /** The first critical section of a flush. */
    method SwapOut() returns (f: nat)
      modifies this`bucketPending, this`entryPending, this`flights
      ensures Next(old(Now()), BeginFlush, Now())
      ensures f == |old(flights)| && |flights| == f + 1 && flights[f] == old(Unflushed())
    {
      f := |flights|;
      flights := flights + [Pending(bucketPending, entryPending)];
      bucketPending, entryPending := map[], map[];
    }

    /** The transaction of a flush, committed. */
    method CommitFlush(f: nat, currentDay: int)
      requires f < |flights|
      modifies this`flights, this`latestDay, tables
      ensures Next(old(Now()), Commit(f, currentDay), Now())
    {
      hide CommittedAs;
      tables.Persist(flights[f], currentDay);
      flights := flights[f := Pending(map[], map[])];
      latestDay := if currentDay > latestDay then currentDay else latestDay;
    }

    /** The critical section after a failed flush. */
    method Restore(f: nat)
      requires f < |flights|
      modifies this`bucketPending, this`entryPending, this`flights
      ensures Next(old(Now()), Rollback(f), Now())
    {
      var buckets := AddBack(bucketPending, flights[f].buckets);
      var entries := AddBack(entryPending, flights[f].entries);
      bucketPending, entryPending := buckets, entries;
      flights := flights[f := Pending(map[], map[])];
    }

    /** Whatever requests and other flushes may do, in any order; what is not possible is skipped. */
    method Others(f: nat, events: seq<Event>, ghost start: State)
      requires f < |flights| && Follows(start, Now())
      modifies this, tables
      ensures f < |flights| && flights[f] == old(flights[f]) && Follows(start, Now())
      ensures events == [] ==> Now() == old(Now())
    {
      hide Follows, CommittedAs, Restored, RecordedIn, Counted;
      for k := 0 to |events|
        invariant f < |flights| && flights[f] == old(flights[f]) && Follows(start, Now())
        invariant k == 0 ==> Now() == old(Now())
      {
        ghost var s := Now();
        match events[k] {
          case Record(bucket, endpoint, agent, day) =>
            RecordRequest(bucket, endpoint, agent, day);
            FollowsNext(start, s, events[k], Now());
          case BeginFlush =>
            var other := SwapOut();
            FollowsNext(start, s, events[k], Now());
          case Commit(other, day) =>
            if other < |flights| && other != f {
              CommitFlush(other, day);
              FollowsNext(start, s, events[k], Now());
            }
          case Rollback(other) =>
            if other < |flights| && other != f {
              Restore(other);
              FollowsNext(start, s, events[k], Now());
            }
        }
      }
    }

    /** A flush amid any requests and other flushes: everything that happens is a run of the protocol,
        in which it takes out what was pending and commits or restores all of it. */
    method Flush(others: seq<Event>, currentDay: int, commits: bool) returns (ok: bool, f: nat)
      modifies this, tables
      ensures Follows(old(Now()), Now())
      ensures ok <==> commits || old(Unflushed()) == NOTHING
      ensures f == |old(flights)| < |flights| && flights[f] == NOTHING
      ensures others == [] && !ok ==> Unflushed() == old(Unflushed()) && tables.Rows() == old(tables.Rows())
      ensures others == [] && ok ==> Unflushed() == NOTHING
      ensures others == [] && old(Unflushed()) == NOTHING ==> tables.Rows() == old(tables.Rows())
      ensures others == [] && ok && old(Unflushed()) != NOTHING ==>
        CommittedAs(old(tables.Rows()), tables.Rows(), old(Unflushed()), currentDay)
    {
      hide Follows, CommittedAs, Restored;
      ghost var start := Now();
      FollowsItself(start);
      f := SwapOut();
      FollowsNext(start, start, BeginFlush, Now());
      if flights[f].buckets == map[] && flights[f].entries == map[] {
        return true, f;
      }
      Others(f, others, start);
      ghost var s := Now();
      if commits {
        CommitFlush(f, currentDay);
        FollowsNext(start, s, Commit(f, currentDay), Now());
        return true, f;
      }
      RestoredAlone(flights[f]);
      Restore(f);
      FollowsNext(start, s, Rollback(f), Now());
      return false, f;
    }

    static method AddBack<K(==,!new)>(pending: map<K, nat>, held: map<K, nat>) returns (merged: map<K, nat>)
      ensures merged == Merged(pending, held)
    {
      merged := pending;
      var todo := held.Keys;
      while todo != {}
        invariant todo <= held.Keys
        invariant merged.Keys == pending.Keys + (held.Keys - todo)
        invariant forall k <- merged :: merged[k] == Get(pending, k) + (if k in todo then 0 else Get(held, k))
      {
        ghost var any := AnElement(todo);
        var k :| k in todo;
        merged := merged[k := Get(merged, k) + held[k]];
        todo := todo - {k};
      }
    }
  }
}
