/** Counting logged times in half-open windows. */
module RollingWindows {
  /** How many of the times lie in (lo, hi]. */
  function CountIn(log: seq<real>, lo: real, hi: real): nat {
    if log == [] then 0
    else
      var last := log[|log| - 1];
      CountIn(log[..|log| - 1], lo, hi) + if lo < last <= hi then 1 else 0
  }

  /** How many lie in the window of length `width` that ends at `end`. */
  function CountEnding(log: seq<real>, end: real, width: real): nat {
    CountIn(log, end - width, end)
  }

  predicate Nondecreasing(log: seq<real>) {
    forall i, j :: 0 <= i < j < |log| ==> log[i] <= log[j]
  }

  predicate AllUpTo(log: seq<real>, now: real) {
    forall i :: 0 <= i < |log| ==> log[i] <= now
  }

  /** Never more than `limit` in any window of length `width`. */
  ghost predicate EveryWindowHolds(log: seq<real>, width: real, limit: nat) {
    forall end: real :: CountEnding(log, end, width) <= limit
  }

  /** The positions of those times. */
  function InWindow(log: seq<real>, lo: real, hi: real): set<int> {
    set i | 0 <= i < |log| && lo < log[i] <= hi
  }

  lemma {:induction false} CountIsExact(log: seq<real>, lo: real, hi: real)
    ensures CountIn(log, lo, hi) == |InWindow(log, lo, hi)|
  {
    if log == [] {
      assert InWindow(log, lo, hi) == {};
    } else {
      var n := |log| - 1;
      CountIsExact(log[..n], lo, hi);
      assert InWindow(log, lo, hi) == InWindow(log[..n], lo, hi) + (if lo < log[n] <= hi then {n} else {});
    }
  }

  lemma {:induction false} CountOfSplit(log: seq<real>, k: nat, lo: real, hi: real)
    requires k <= |log|
    requires forall i :: 0 <= i < k ==> log[i] <= lo
    requires forall i :: k <= i < |log| ==> lo < log[i] <= hi
    ensures CountIn(log, lo, hi) == |log| - k
  {
    if log != [] {
      CountOfSplit(log[..|log| - 1], if k < |log| then k else k - 1, lo, hi);
    }
  }

  lemma {:induction false} CountAtMost(log: seq<real>, k: nat, lo: real, hi: real)
    requires k <= |log|
    requires forall i :: 0 <= i < k ==> log[i] <= lo
    ensures CountIn(log, lo, hi) <= |log| - k
  {
    if log != [] {
      CountAtMost(log[..|log| - 1], if k < |log| then k else k - 1, lo, hi);
    }
  }

  /** Once every time is before the end of the window, a later start holds no more. */
  lemma {:induction false} LaterHoldsNoMore(log: seq<real>, lo: real, hi: real, lo': real, hi': real)
    requires lo <= lo' && AllUpTo(log, hi)
    ensures CountIn(log, lo', hi') <= CountIn(log, lo, hi)
  {
    if log != [] {
      LaterHoldsNoMore(log[..|log| - 1], lo, hi, lo', hi');
    }
  }

  /** Admitting at `now` only while the window ending now has room keeps every window within bounds. */
  lemma AdmitKeepsWindows(log: seq<real>, now: real, width: real, limit: nat)
    requires EveryWindowHolds(log, width, limit) && AllUpTo(log, now)
    requires CountEnding(log, now, width) < limit
    ensures EveryWindowHolds(log + [now], width, limit)
  {
    forall end: real ensures CountEnding(log + [now], end, width) <= limit {
      assert (log + [now])[..|log|] == log;
      assert CountEnding(log, end, width) <= limit;
      if now <= end { LaterHoldsNoMore(log, now - width, now, end - width, end); }
    }
  }
}
