/** The Lowest BIN price history: one transaction per snapshot, daily sums with pruning, and the
    7-day and 30-day means read from them. */
module LowestBinStorage {
  import opened Options
  import opened Sets

  type Key = string

  const MILLIS_PER_DAY := 86_400_000

  /** What a snapshot contributes to the history; prices are finite numbers. */
  datatype Snapshot = Snapshot(lastUpdated: int, prices: map<Key, real>)

  function DayOf(lastUpdated: int): (day: int)
    ensures day * 86_400_000 <= lastUpdated < (day + 1) * 86_400_000
  {
    lastUpdated / MILLIS_PER_DAY
  }

  /** Blank keys and negative prices are not recorded. */
  predicate Records(s: Snapshot, k: Key) {
    k in s.prices && k != "" && s.prices[k] >= 0.0
  }

  predicate Contributes(s: Snapshot, k: Key, days: set<int>) {
    DayOf(s.lastUpdated) in days && Records(s, k)
  }

  /** The sum and number of an item's prices over the snapshots of some days. */
  function Sum(ss: seq<Snapshot>, k: Key, days: set<int>): real {
    if ss == [] then 0.0
    else
      var s := ss[|ss| - 1];
      Sum(ss[..|ss| - 1], k, days) + (if Contributes(s, k, days) then s.prices[k] else 0.0)
  }

  function Count(ss: seq<Snapshot>, k: Key, days: set<int>): nat {
    if ss == [] then 0
    else Count(ss[..|ss| - 1], k, days) + (if Contributes(ss[|ss| - 1], k, days) then 1 else 0)
  }

  function Mean(ss: seq<Snapshot>, k: Key, days: set<int>): Option<real> {
    if Count(ss, k, days) == 0 then None else Some(Sum(ss, k, days) / (Count(ss, k, days) as real))
  }

  /** The `length` days that end with the anchor. */
  function Window(anchor: int, length: nat): (days: set<int>)
    ensures forall d: int :: d in days <==> anchor - length < d <= anchor
  {
    if length == 0 then {} else Window(anchor, length - 1) + {anchor - length + 1}
  }

  /** The distinct snapshots among all that were ever written: the first of each timestamp. */
  function Distinct(ss: seq<Snapshot>): seq<Snapshot> {
    if ss == [] then []
    else
      var s := ss[|ss| - 1];
      if Has(ss[..|ss| - 1], s.lastUpdated) then Distinct(ss[..|ss| - 1]) else Distinct(ss[..|ss| - 1]) + [s]
  }

  predicate Has(ss: seq<Snapshot>, lastUpdated: int) {
    exists s <- ss :: s.lastUpdated == lastUpdated
  }

  function Since(ss: seq<Snapshot>, day: int): (r: seq<Snapshot>)
    ensures forall s: Snapshot :: s in r <==> s in ss && DayOf(s.lastUpdated) >= day
  {
    if ss == [] then []
    else
      assert ss == ss[..|ss| - 1] + [ss[|ss| - 1]];
      var s := ss[|ss| - 1];
      if DayOf(s.lastUpdated) >= day then Since(ss[..|ss| - 1], day) + [s] else Since(ss[..|ss| - 1], day)
  }

  // ------------------------------------------------------ facts about sums

  lemma Snoc(ss: seq<Snapshot>, s: Snapshot)
    ensures (ss + [s])[..|ss|] == ss && (ss + [s])[|ss|] == s
  {
  }

  lemma {:induction false} SumSplit(ss: seq<Snapshot>, k: Key, days: set<int>, day: int)
    requires day !in days
    ensures Sum(ss, k, days + {day}) == Sum(ss, k, days) + Sum(ss, k, {day})
    ensures Count(ss, k, days + {day}) == Count(ss, k, days) + Count(ss, k, {day})
  {
    if ss != [] { SumSplit(ss[..|ss| - 1], k, days, day); }
  }

  /** Days on which nothing was recorded do not matter. */
  lemma {:induction false} SumSameDays(ss: seq<Snapshot>, k: Key, days: set<int>, days': set<int>)
    requires forall s <- ss :: Contributes(s, k, days) <==> Contributes(s, k, days')
    ensures Sum(ss, k, days) == Sum(ss, k, days') && Count(ss, k, days) == Count(ss, k, days')
  {
    if ss != [] {
      assert ss[|ss| - 1] in ss;
      SumSameDays(ss[..|ss| - 1], k, days, days');
    }
  }

  lemma SumNext(ss: seq<Snapshot>, s: Snapshot, k: Key, days: set<int>)
    ensures Sum(ss + [s], k, days) == Sum(ss, k, days) + (if Contributes(s, k, days) then s.prices[k] else 0.0)
    ensures Count(ss + [s], k, days) == Count(ss, k, days) + (if Contributes(s, k, days) then 1 else 0)
  {
    Snoc(ss, s);
  }

  lemma {:induction false} SumSince(ss: seq<Snapshot>, k: Key, days: set<int>, day: int)
    requires forall d <- days :: d >= day
    ensures Sum(Since(ss, day), k, days) == Sum(ss, k, days) && Count(Since(ss, day), k, days) == Count(ss, k, days)
  {
    if ss != [] {
      var s, rest := ss[|ss| - 1], ss[..|ss| - 1];
      SumSince(rest, k, days, day);
      SumNext(Since(rest, day), s, k, days);
    }
  }

  lemma {:induction false} CountNone(ss: seq<Snapshot>, k: Key, days: set<int>)
    ensures Count(ss, k, days) == 0 <==> forall s <- ss :: !Contributes(s, k, days)
    ensures Count(ss, k, days) == 0 ==> Sum(ss, k, days) == 0.0
  {
    if ss != [] {
      CountNone(ss[..|ss| - 1], k, days);
      assert ss == ss[..|ss| - 1] + [ss[|ss| - 1]];
    }
  }

  function ContributesAt(ss: seq<Snapshot>, k: Key, days: set<int>): set<int> {
    set i | 0 <= i < |ss| && DayOf(ss[i].lastUpdated) in days && k != "" && k in ss[i].prices && ss[i].prices[k] >= 0.0
  }

  lemma {:induction false} CountIsExact(ss: seq<Snapshot>, k: Key, days: set<int>)
    ensures Count(ss, k, days) == |ContributesAt(ss, k, days)|
  {
    if ss == [] {
      assert ContributesAt(ss, k, days) == {};
    } else {
      var n := |ss| - 1;
      CountIsExact(ss[..n], k, days);
      assert ContributesAt(ss, k, days) == ContributesAt(ss[..n], k, days) + (if Contributes(ss[n], k, days) then {n} else {});
    }
  }

  /** Prices between two bounds. */
  predicate PricesWithin(ss: seq<Snapshot>, k: Key, days: set<int>, low: real, high: real) {
    forall i <- ContributesAt(ss, k, days) :: low <= ss[i].prices[k] <= high
  }

  predicate Bounds(low: real, sum: real, high: real, n: nat) {
    low * (n as real) <= sum <= high * (n as real)
  }

  lemma NoBounds(low: real, high: real)
    ensures Bounds(low, 0.0, high, 0)
  {
  }

  lemma BoundsNext(low: real, sum: real, high: real, n: nat, price: real)
    requires Bounds(low, sum, high, n) && low <= price <= high
    ensures Bounds(low, sum + price, high, n + 1)
  {
    assert (n + 1) as real == n as real + 1.0;
  }

  lemma BoundsOfMean(low: real, sum: real, high: real, n: nat)
    requires n > 0 && Bounds(low, sum, high, n)
    ensures low <= sum / (n as real) <= high
  {
    var mean := sum / (n as real);
    assert mean * (n as real) == sum;
    Cancel(low, mean, n as real);
    Cancel(mean, high, n as real);
  }

  lemma PricesBefore(ss: seq<Snapshot>, k: Key, days: set<int>, low: real, high: real)
    requires ss != [] && PricesWithin(ss, k, days, low, high)
    ensures PricesWithin(ss[..|ss| - 1], k, days, low, high)
    ensures var s := ss[|ss| - 1]; Contributes(s, k, days) ==> low <= s.prices[k] <= high
  {
    var n := |ss| - 1;
    forall i <- ContributesAt(ss[..n], k, days) ensures low <= ss[..n][i].prices[k] <= high {
      assert i in ContributesAt(ss, k, days);
    }
    assert Contributes(ss[n], k, days) ==> n in ContributesAt(ss, k, days);
  }

  lemma {:induction false} SumWithin(ss: seq<Snapshot>, k: Key, days: set<int>, low: real, high: real)
    requires PricesWithin(ss, k, days, low, high)
    ensures Bounds(low, Sum(ss, k, days), high, Count(ss, k, days))
  {
    hide Bounds;
    if ss == [] {
      NoBounds(low, high);
    } else {
      PricesBefore(ss, k, days, low, high);
      hide PricesWithin, Bounds;
      var rest, s := ss[..|ss| - 1], ss[|ss| - 1];
      SumWithin(rest, k, days, low, high);
      if Contributes(s, k, days) { BoundsNext(low, Sum(rest, k, days), high, Count(rest, k, days), s.prices[k]); }
    }
  }

  /** There is a mean exactly if a snapshot of these days records the item. Times their number it is
      the sum of the prices. */
  lemma MeanIsMean(ss: seq<Snapshot>, k: Key, days: set<int>)
    ensures Mean(ss, k, days).None? <==> ContributesAt(ss, k, days) == {}
    ensures Mean(ss, k, days).Some? ==> Mean(ss, k, days).value * (|ContributesAt(ss, k, days)| as real) == Sum(ss, k, days)
  {
    CountIsExact(ss, k, days);
    hide Sum, Count, ContributesAt;
  }

  /** A mean lies between the lowest and the highest of its prices. */
  lemma MeanIsWithin(ss: seq<Snapshot>, k: Key, days: set<int>, low: real, high: real)
    requires Mean(ss, k, days).Some? && PricesWithin(ss, k, days, low, high)
    ensures low <= Mean(ss, k, days).value <= high
  {
    SumWithin(ss, k, days, low, high);
    hide Sum, Count, PricesWithin, Bounds;
    BoundsOfMean(low, Sum(ss, k, days), high, Count(ss, k, days));
  }

  lemma Cancel(a: real, b: real, n: real)
    requires n > 0.0 && a * n <= b * n
    ensures a <= b
  {
  }

  lemma SinceNext(ss: seq<Snapshot>, s: Snapshot, day: int)
    ensures Since(ss + [s], day) == if DayOf(s.lastUpdated) >= day then Since(ss, day) + [s] else Since(ss, day)
  {
    Snoc(ss, s);
  }

  lemma {:induction false} SinceSince(ss: seq<Snapshot>, a: int, b: int)
    requires a <= b
    ensures Since(Since(ss, a), b) == Since(ss, b)
  {
    if ss != [] {
      SinceSince(ss[..|ss| - 1], a, b);
      SinceNext(Since(ss[..|ss| - 1], a), ss[|ss| - 1], b);
    }
  }

  lemma {:induction false} SinceHas(ss: seq<Snapshot>, day: int, lastUpdated: int)
    ensures Has(Since(ss, day), lastUpdated) <==> Has(ss, lastUpdated) && DayOf(lastUpdated) >= day
  {
    if ss != [] {
      var s, rest := ss[|ss| - 1], ss[..|ss| - 1];
      SinceHas(rest, day, lastUpdated);
      assert ss == rest + [s];
      assert s in ss;
    }
  }

  lemma {:induction false} DistinctHas(ss: seq<Snapshot>, lastUpdated: int)
    ensures Has(Distinct(ss), lastUpdated) <==> Has(ss, lastUpdated)
  {
    if ss != [] {
      var s, rest := ss[|ss| - 1], ss[..|ss| - 1];
      DistinctHas(rest, lastUpdated);
      assert ss == rest + [s];
      assert s in ss && s in [s];
    }
  }

  /** The distinct snapshots have each timestamp once, with the first snapshot written under it. */
  lemma {:induction false} DistinctAreFirsts(ss: seq<Snapshot>, i: nat)
    requires i < |ss| && forall j :: 0 <= j < i ==> ss[j].lastUpdated != ss[i].lastUpdated
    ensures ss[i] in Distinct(ss)
    ensures forall s <- Distinct(ss) :: s.lastUpdated == ss[i].lastUpdated ==> s == ss[i]
    ensures forall a, b :: 0 <= a < b < |Distinct(ss)| ==> Distinct(ss)[a].lastUpdated != Distinct(ss)[b].lastUpdated
  {
    var rest, last := ss[..|ss| - 1], ss[|ss| - 1];
    DistinctHas(rest, last.lastUpdated);
    if i < |ss| - 1 {
      DistinctAreFirsts(rest, i);
      if last.lastUpdated == ss[i].lastUpdated { assert rest[i] in rest; }
    } else {
      if rest != [] { DistinctAreFirsts(rest, 0); }
      assert forall s <- rest :: s.lastUpdated != last.lastUpdated;
    }
  }

  // ------------------------------------------------------------- the tables

  datatype Aggregate = Aggregate(sum: real, count: nat)

  /** An item's row for a day is what the counted snapshots of that day add up to. */
  ghost predicate RowExact(aggregates: map<(Key, int), Aggregate>, counted: seq<Snapshot>, k: Key, day: int) {
    if Count(counted, k, {day}) == 0 then (k, day) !in aggregates
    else
      && (k, day) in aggregates
      && aggregates[(k, day)] == Aggregate(Sum(counted, k, {day}), Count(counted, k, {day}))
  }

  function WithPrice(aggregates: map<(Key, int), Aggregate>, k: Key, day: int, price: real): map<(Key, int), Aggregate> {
    var row := if (k, day) in aggregates then aggregates[(k, day)] else Aggregate(0.0, 0);
    aggregates[(k, day) := Aggregate(row.sum + price, row.count + 1)]
  }

  /** The rows after some of a snapshot's items were added. */
  ghost predicate Added(before: map<(Key, int), Aggregate>, after: map<(Key, int), Aggregate>, s: Snapshot, ks: set<Key>) {
    forall k: Key, day: int ::
      && (k in ks && Contributes(s, k, {day}) ==>
            (k, day) in after && after[(k, day)] == WithPrice(before, k, day, s.prices[k])[(k, day)])
      && (!(k in ks && Contributes(s, k, {day})) ==>
            ((k, day) in after <==> (k, day) in before)
            && ((k, day) in before ==> after[(k, day)] == before[(k, day)]))
  }

  lemma AddedIsExact(before: map<(Key, int), Aggregate>, after: map<(Key, int), Aggregate>, s: Snapshot,
                     counted: seq<Snapshot>, k: Key, day: int)
    requires Added(before, after, s, s.prices.Keys) && RowExact(before, counted, k, day)
    ensures RowExact(after, counted + [s], k, day)
  {
    Snoc(counted, s);
    CountNone(counted, k, {day});
  }

  lemma PrunedIsExact(before: map<(Key, int), Aggregate>, after: map<(Key, int), Aggregate>, counted: seq<Snapshot>,
                      pruneBefore: int, k: Key, day: int)
    requires after == map r <- before | r.1 >= pruneBefore :: before[r]
    requires RowExact(before, counted, k, day)
    ensures RowExact(after, Since(counted, pruneBefore), k, day)
  {
    if day >= pruneBefore {
      SumSince(counted, k, {day}, pruneBefore);
    } else {
      CountNone(Since(counted, pruneBefore), k, {day});
    }
  }

  lemma RowsStayExact(before: map<(Key, int), Aggregate>, rows: map<(Key, int), Aggregate>,
                      after: map<(Key, int), Aggregate>, s: Snapshot, counted: seq<Snapshot>, pruneBefore: int)
    requires forall k: Key, day: int :: RowExact(before, counted, k, day)
    requires Added(before, rows, s, s.prices.Keys)
    requires after == map r <- rows | r.1 >= pruneBefore :: rows[r]
    ensures forall k: Key, day: int :: RowExact(after, Since(counted + [s], pruneBefore), k, day)
  {
    hide RowExact, Added;
    forall k: Key, day: int ensures RowExact(after, Since(counted + [s], pruneBefore), k, day) {
      AddedIsExact(before, rows, s, counted, k, day);
      PrunedIsExact(rows, after, counted + [s], pruneBefore, k, day);
    }
  }

  lemma HasNext(ss: seq<Snapshot>, s: Snapshot, t: int)
    ensures Has(ss + [s], t) <==> Has(ss, t) || s.lastUpdated == t
  {
    assert s in ss + [s];
  }

  /** The processed timestamps are those of the counted snapshots. */
  ghost predicate ProcessedExact(processed: map<int, int>, counted: seq<Snapshot>) {
    && (forall t: int :: t in processed <==> Has(counted, t))
    && (forall t <- processed :: processed[t] == DayOf(t))
  }

  lemma DaysOfProcessed(processed: map<int, int>, counted: seq<Snapshot>)
    requires ProcessedExact(processed, counted)
    ensures forall t: int :: t in processed <==> Has(counted, t)
    ensures forall t <- processed :: processed[t] == DayOf(t)
  {
  }

  lemma ProcessedStayExact(before: map<int, int>, after: map<int, int>, s: Snapshot, counted: seq<Snapshot>, pruneBefore: int)
    requires ProcessedExact(before, counted)
    requires forall t: int :: t in after <==> (t in before || t == s.lastUpdated) && DayOf(t) >= pruneBefore
    requires forall t <- after :: after[t] == DayOf(t)
    ensures ProcessedExact(after, Since(counted + [s], pruneBefore))
  {
    forall t: int ensures t in after <==> Has(Since(counted + [s], pruneBefore), t) {
      SinceHas(counted + [s], pruneBefore, t);
      HasNext(counted, s, t);
    }
  }

  datatype AverageWindow = AverageWindow(avg7d: Option<real>, avg30d: Option<real>)

  class Storage {
    const retentionDays: int
    /** Timestamp and day of each counted snapshot. */
    var processed: map<int, int>
    var aggregates: map<(Key, int), Aggregate>

    /** Everything that was ever committed, what of it the tables still count, and the day before
        which something may have been pruned. */
    ghost var written: seq<Snapshot>
    ghost var counted: seq<Snapshot>
    ghost var horizon: int

    ghost predicate ProcessedValid()
      reads this
    {
      ProcessedExact(processed, counted)
    }

    ghost predicate RowsValid()
      reads this
    {
      forall k: Key, day: int :: RowExact(aggregates, counted, k, day)
    }

    /** From the horizon on, the tables count every distinct snapshot ever written. */
    ghost predicate HistoryValid()
      reads this
    {
      && Since(counted, horizon) == Since(Distinct(written), horizon)
      && (forall s <- counted :: s in written)
      && (written != [] ==> exists s <- written :: horizon <= DayOf(s.lastUpdated) - 30)
    }

    ghost predicate Valid()
      reads this
    {
      retentionDays >= 31 && ProcessedValid() && RowsValid() && HistoryValid()
    }

    constructor (configuredRetentionDays: int)
      ensures Valid() && written == [] && processed == map[] && aggregates == map[]
      ensures retentionDays == if configuredRetentionDays > 31 then configuredRetentionDays else 31
    {
      retentionDays := if configuredRetentionDays > 31 then configuredRetentionDays else 31;
      processed, aggregates := map[], map[];
      written, counted, horizon := [], [], 0;
    }

    /** Commits a snapshot. A timestamp that is still counted changes nothing; a timestamp that is
        not positive is rejected. */
    method WriteLowestBinSnapshot(s: Snapshot) returns (ok: bool)
      requires Valid()
      modifies this
      ensures Valid()
      ensures ok <==> s.lastUpdated > 0
      ensures written == if ok then old(written) + [s] else old(written)
      ensures !ok || s.lastUpdated in old(processed) ==> aggregates == old(aggregates) && processed == old(processed)
      ensures ok && s.lastUpdated !in old(processed) ==>
        counted == Since(old(counted) + [s], DayOf(s.lastUpdated) - (retentionDays - 1))
    {
      hide RowExact, Since, Distinct;
      if s.lastUpdated <= 0 {
        return false;
      }
      ghost var earlier := written;
      if s.lastUpdated !in processed {
        CountNewSnapshot(s);
      } else {
        RepeatKeepsHistory(written, counted, s);
      }
      written := written + [s];
      assert s in written && forall w <- earlier :: w in written;
      ok := true;
    }

    /** The history part of the transaction, for a timestamp that was not processed yet. */
    method CountNewSnapshot(s: Snapshot)
      requires Valid() && s.lastUpdated !in processed
      modifies this`processed, this`aggregates, this`counted, this`horizon
      ensures ProcessedValid() && RowsValid()
      ensures counted == Since(old(counted) + [s], DayOf(s.lastUpdated) - (retentionDays - 1))
      ensures Since(counted, horizon) == Since(Distinct(written + [s]), horizon)
      ensures horizon <= DayOf(s.lastUpdated) - 30 || (written != [] && horizon == old(horizon))
    {
      hide RowExact, Since, Distinct, ProcessedExact, Added, Has;
      var day := DayOf(s.lastUpdated);
      var pruneBefore := day - (retentionDays - 1);
      ghost var before := processed;
      DaysOfProcessed(before, counted);
      var rows := AddRows(s, day);
      var kept := map r <- rows | r.1 >= pruneBefore :: rows[r];
      RowsStayExact(aggregates, rows, kept, s, counted, pruneBefore);
      processed := processed[s.lastUpdated := day];
      processed := map t <- processed | processed[t] >= pruneBefore :: processed[t];
      ProcessedStayExact(before, processed, s, counted, pruneBefore);
      NewSnapshotKeepsHistory(written, counted, horizon, s, pruneBefore);
      horizon := NextHorizon(written, horizon, pruneBefore);
      aggregates := kept;
      counted := Since(counted + [s], pruneBefore);
    }

    /** `INSERT ... ON DUPLICATE KEY UPDATE` of one row per recorded item. */
    method AddRows(s: Snapshot, day: int) returns (rows: map<(Key, int), Aggregate>)
      requires day == DayOf(s.lastUpdated)
      ensures Added(aggregates, rows, s, s.prices.Keys)
    {
      rows := aggregates;
      var todo := s.prices.Keys;
      while todo != {}
        invariant todo <= s.prices.Keys
        invariant Added(aggregates, rows, s, s.prices.Keys - todo)
      {
        ghost var any := AnElement(todo);
        var k :| k in todo;
        todo := todo - {k};
        if k == "" || s.prices[k] < 0.0 {
          continue;
        }
        rows := WithPrice(rows, k, day, s.prices[k]);
      }
      assert s.prices.Keys - todo == s.prices.Keys;
    }

    /** The means of each requested item over the 7 and 30 days that end with the anchor, over every
        distinct snapshot ever written when the anchor is the latest day written. */
    method GetAverages(itemKeys: seq<Key>, anchorDay: int) returns (averages: map<Key, AverageWindow>)
      requires Valid()
      ensures forall k: Key :: k in averages <==> k in itemKeys && k != ""
      ensures forall k <- averages :: averages[k] == AverageWindow(Mean(counted, k, Window(anchorDay, 7)),
                                                                   Mean(counted, k, Window(anchorDay, 30)))
      ensures (forall s <- written :: DayOf(s.lastUpdated) <= anchorDay) ==>
        forall k <- averages :: averages[k] == AverageWindow(Mean(Distinct(written), k, Window(anchorDay, 7)),
                                                             Mean(Distinct(written), k, Window(anchorDay, 30)))
    {
      var keys := NormalizedKeys(itemKeys);
      averages := map[];
      var start := 0;
      while start < |keys|
        invariant start <= |keys|
        invariant forall k: Key :: k in averages <==> k in keys[..start]
        invariant forall k <- averages :: averages[k] == AverageWindow(Mean(counted, k, Window(anchorDay, 7)),
                                                                       Mean(counted, k, Window(anchorDay, 30)))
      {
        var end := if start + ROW_BATCH_SIZE < |keys| then start + ROW_BATCH_SIZE else |keys|;
        var batch := BatchAverages(keys[start..end], anchorDay);
        assert keys[..end] == keys[..start] + keys[start..end];
        averages := averages + batch;
        start := end;
      }
      assert keys[..|keys|] == keys;
      if forall s <- written :: DayOf(s.lastUpdated) <= anchorDay {
        forall k <- averages
          ensures averages[k] == AverageWindow(Mean(Distinct(written), k, Window(anchorDay, 7)),
                                               Mean(Distinct(written), k, Window(anchorDay, 30)))
        {
          WindowIsComplete(written, counted, horizon, k, anchorDay, 7);
          WindowIsComplete(written, counted, horizon, k, anchorDay, 30);
        }
      }
    }

    /** Without blanks and repetitions, in order of first occurrence. */
    static method NormalizedKeys(itemKeys: seq<Key>) returns (keys: seq<Key>)
      ensures forall k: Key :: k in keys <==> k in itemKeys && k != ""
      ensures forall i, j :: 0 <= i < j < |keys| ==> keys[i] != keys[j]
    {
      keys := [];
      for i := 0 to |itemKeys|
        invariant forall k: Key :: k in keys <==> k in itemKeys[..i] && k != ""
        invariant forall i, j :: 0 <= i < j < |keys| ==> keys[i] != keys[j]
      {
        assert itemKeys[..i + 1] == itemKeys[..i] + [itemKeys[i]];
        if itemKeys[i] != "" && itemKeys[i] !in keys {
          keys := keys + [itemKeys[i]];
        }
      }
      assert itemKeys[..|itemKeys|] == itemKeys;
    }

    /** One query: the aggregate rows of a batch of items in the 30 days that end with the anchor. */
    method BatchAverages(batch: seq<Key>, anchorDay: int) returns (averages: map<Key, AverageWindow>)
      requires Valid()
      ensures forall k: Key :: k in averages <==> k in batch
      ensures forall k <- averages :: averages[k] == AverageWindow(Mean(counted, k, Window(anchorDay, 7)),
                                                                   Mean(counted, k, Window(anchorDay, 30)))
    {
      hide RowExact, TotalOf, DaysIn;
      var last7, last30 := Window(anchorDay, 7), Window(anchorDay, 30);
      var selected := set r <- aggregates | r.0 in batch && r.1 in last30;
      var totals7, totals30 := map k <- batch :: Aggregate(0.0, 0), map k <- batch :: Aggregate(0.0, 0);
      var todo := selected;
      assert selected - todo == {};
      forall k <- batch
        ensures TotalOf(totals7[k], counted, k, DaysIn(selected - todo, k) * last7)
        ensures TotalOf(totals30[k], counted, k, DaysIn(selected - todo, k) * last30)
      {
        NothingTotalled(counted, k);
        NoDays(k, last7);
        NoDays(k, last30);
      }
      while todo != {}
        invariant todo <= selected && totals7.Keys == totals30.Keys == set k <- batch
        invariant forall k <- batch :: TotalOf(totals30[k], counted, k, DaysIn(selected - todo, k) * last30)
        invariant forall k <- batch :: TotalOf(totals7[k], counted, k, DaysIn(selected - todo, k) * last7)
      {
        ghost var any := AnElement(todo);
        var row :| row in todo;
        var (k, day) := row;
        assert RowExact(aggregates, counted, k, day);
        ghost var done := selected - todo;
        assert row !in done && selected - (todo - {row}) == done + {row};
        DaysNext(done, row, last7);
        DaysNext(done, row, last30);
        TotalNext(totals30[k], aggregates, counted, k, DaysIn(done, k) * last30, day);
        totals30 := totals30[k := Plus(totals30[k], aggregates[row])];
        if day in last7 {
          TotalNext(totals7[k], aggregates, counted, k, DaysIn(done, k) * last7, day);
          totals7 := totals7[k := Plus(totals7[k], aggregates[row])];
        }
        todo := todo - {row};
      }
      assert selected - todo == selected;
      forall k <- batch
        ensures AverageOrNone(totals30[k]) == Mean(counted, k, last30)
        ensures AverageOrNone(totals7[k]) == Mean(counted, k, last7)
      {
        TotalIsMean(totals30[k], aggregates, counted, selected, k, last30, last30);
        TotalIsMean(totals7[k], aggregates, counted, selected, k, last30, last7);
      }
      averages := map k <- batch :: AverageWindow(AverageOrNone(totals7[k]), AverageOrNone(totals30[k]));
    }
  }

  const ROW_BATCH_SIZE := 250

  function Plus(a: Aggregate, b: Aggregate): Aggregate {
    Aggregate(a.sum + b.sum, a.count + b.count)
  }

  function AverageOrNone(a: Aggregate): Option<real> {
    if a.count <= 0 then None else Some(a.sum / (a.count as real))
  }

  predicate TotalOf(a: Aggregate, counted: seq<Snapshot>, k: Key, days: set<int>) {
    a == Aggregate(Sum(counted, k, days), Count(counted, k, days))
  }

  function DaysIn(rows: set<(Key, int)>, k: Key): set<int> {
    set r <- rows | r.0 == k :: r.1
  }

  lemma NoDays(k: Key, window: set<int>)
    ensures DaysIn({}, k) * window == {}
  {
  }

  lemma DaysNext(rows: set<(Key, int)>, row: (Key, int), window: set<int>)
    requires row !in rows
    ensures row.1 !in DaysIn(rows, row.0)
    ensures DaysIn(rows + {row}, row.0) * window
         == if row.1 in window then DaysIn(rows, row.0) * window + {row.1} else DaysIn(rows, row.0) * window
    ensures forall k: Key :: k != row.0 ==> DaysIn(rows + {row}, k) == DaysIn(rows, k)
  {
    assert forall r <- rows :: r.0 == row.0 && r.1 == row.1 ==> r == row;
    assert DaysIn(rows + {row}, row.0) == DaysIn(rows, row.0) + {row.1};
    forall k: Key | k != row.0 ensures DaysIn(rows + {row}, k) == DaysIn(rows, k) {
      assert forall r <- rows + {row} :: r.0 == k ==> r in rows;
    }
  }

  /** Days of the window without a row have nothing to add. */
  lemma SelectedDaysSuffice(aggregates: map<(Key, int), Aggregate>, counted: seq<Snapshot>,
                            selected: set<(Key, int)>, k: Key, window: set<int>, days: set<int>)
    requires forall day: int :: RowExact(aggregates, counted, k, day)
    requires forall day <- window :: (k, day) in aggregates ==> (k, day) in selected
    requires days <= window
    ensures Sum(counted, k, DaysIn(selected, k) * days) == Sum(counted, k, days)
    ensures Count(counted, k, DaysIn(selected, k) * days) == Count(counted, k, days)
  {
    forall s <- counted
      ensures Contributes(s, k, DaysIn(selected, k) * days) <==> Contributes(s, k, days)
    {
      var day := DayOf(s.lastUpdated);
      if Contributes(s, k, days) {
        assert RowExact(aggregates, counted, k, day);
        CountNone(counted, k, {day});
        assert (k, day) in selected && (k, day).1 in DaysIn(selected, k);
      }
    }
    SumSameDays(counted, k, DaysIn(selected, k) * days, days);
  }

  lemma TotalIsMean(total: Aggregate, aggregates: map<(Key, int), Aggregate>, counted: seq<Snapshot>,
                    selected: set<(Key, int)>, k: Key, window: set<int>, days: set<int>)
    requires forall day: int :: RowExact(aggregates, counted, k, day)
    requires forall day <- window :: (k, day) in aggregates ==> (k, day) in selected
    requires days <= window
    requires TotalOf(total, counted, k, DaysIn(selected, k) * days)
    ensures AverageOrNone(total) == Mean(counted, k, days)
  {
    SelectedDaysSuffice(aggregates, counted, selected, k, window, days);
  }

  lemma NothingTotalled(counted: seq<Snapshot>, k: Key)
    ensures TotalOf(Aggregate(0.0, 0), counted, k, {})
  {
    CountNone(counted, k, {});
  }

  lemma NothingCounted(counted: seq<Snapshot>, written: seq<Snapshot>)
    requires forall s <- counted :: s in written
    ensures counted != [] ==> written != []
  {
    if counted != [] { assert counted[0] in counted; }
  }

  lemma TotalNext(total: Aggregate, aggregates: map<(Key, int), Aggregate>, counted: seq<Snapshot>, k: Key,
                  days: set<int>, day: int)
    requires TotalOf(total, counted, k, days) && day !in days
    requires (k, day) in aggregates && RowExact(aggregates, counted, k, day)
    ensures TotalOf(Plus(total, aggregates[(k, day)]), counted, k, days + {day})
  {
    SumSplit(counted, k, days, day);
  }

  /** Pruning never reaches a window of at most 30 days that ends with the latest day written. */
  lemma WindowIsComplete(written: seq<Snapshot>, counted: seq<Snapshot>, horizon: int, k: Key, anchorDay: int, length: nat)
    requires length <= 30
    requires Since(counted, horizon) == Since(Distinct(written), horizon)
    requires forall s <- counted :: s in written
    requires written != [] ==> exists s <- written :: horizon <= DayOf(s.lastUpdated) - 30
    requires forall s <- written :: DayOf(s.lastUpdated) <= anchorDay
    ensures Mean(counted, k, Window(anchorDay, length)) == Mean(Distinct(written), k, Window(anchorDay, length))
  {
    var days := Window(anchorDay, length);
    if written == [] {
      NothingCounted(counted, written);
      assert counted == [] && Distinct(written) == [];
    } else {
      SumSince(counted, k, days, horizon);
      SumSince(Distinct(written), k, days, horizon);
    }
  }

  lemma DistinctNext(ss: seq<Snapshot>, s: Snapshot)
    ensures Distinct(ss + [s]) == if Has(ss, s.lastUpdated) then Distinct(ss) else Distinct(ss) + [s]
  {
    Snoc(ss, s);
  }

  lemma RepeatKeepsHistory(written: seq<Snapshot>, counted: seq<Snapshot>, s: Snapshot)
    requires Has(counted, s.lastUpdated) && forall c <- counted :: c in written
    ensures Distinct(written + [s]) == Distinct(written)
  {
    DistinctNext(written, s);
  }

  function NextHorizon(written: seq<Snapshot>, horizon: int, pruneBefore: int): int {
    if written != [] && horizon > pruneBefore then horizon else pruneBefore
  }

  lemma NewSnapshotKeepsHistory(written: seq<Snapshot>, counted: seq<Snapshot>, horizon: int, s: Snapshot, pruneBefore: int)
    requires Since(counted, horizon) == Since(Distinct(written), horizon)
    requires !Has(counted, s.lastUpdated) && forall c <- counted :: c in written
    ensures var h := NextHorizon(written, horizon, pruneBefore);
            Since(Since(counted + [s], pruneBefore), h) == Since(Distinct(written + [s]), h)
  {
    if written == [] {
      NothingCounted(counted, written);
      assert Distinct(written) == [];
      Snoc(written, s);
      SinceSince([s], pruneBefore, pruneBefore);
    } else {
      LaterSnapshotKeepsHistory(written, counted, horizon, s, pruneBefore);
    }
  }

  lemma LaterSnapshotKeepsHistory(written: seq<Snapshot>, counted: seq<Snapshot>, horizon: int, s: Snapshot, pruneBefore: int)
    requires Since(counted, horizon) == Since(Distinct(written), horizon)
    requires !Has(counted, s.lastUpdated)
    ensures var h := if horizon > pruneBefore then horizon else pruneBefore;
            Since(Since(counted + [s], pruneBefore), h) == Since(Distinct(written + [s]), h)
  {
    hide Since, Distinct;
    var h := if horizon > pruneBefore then horizon else pruneBefore;
    SinceSince(counted + [s], pruneBefore, h);
    SinceNext(counted, s, h);
    SinceSince(counted, horizon, h);
    SinceSince(Distinct(written), horizon, h);
    DistinctNext(written, s);
    SinceNext(Distinct(written), s, h);
    DistinctHas(written, s.lastUpdated);
    SinceHas(counted, horizon, s.lastUpdated);
    SinceHas(Distinct(written), horizon, s.lastUpdated);
  }
}
