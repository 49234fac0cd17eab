/** Fixed windows of time, and which windows may share one pruned table of counters. */
module FixedWindows {
  /** The largest multiple of the window that is not after `now`. */
  function BucketStart(now: int, window: int): int
    requires window >= 1
  {
    now - now % window
  }

  /** Buckets before this are pruned by a call at `now`. */
  function StaleBefore(now: int, window: int): int
    requires window >= 1
  {
    BucketStart(now, window) - window * 12
  }

  function RetryAfter(now: int, window: int): int
    requires window >= 1
  {
    var left := BucketStart(now, window) + window - now;
    if left < 1 then 1 else left
  }

  lemma BucketFacts(now: int, window: int)
    requires window >= 1
    ensures BucketStart(now, window) <= now < BucketStart(now, window) + window
    ensures exists k :: BucketStart(now, window) == window * k
  {
    assert BucketStart(now, window) == window * (now / window);
  }

  lemma NextMultiple(window: int, j: int, k: int)
    requires window >= 1 && j < k
    ensures window * j + window <= window * k
  {
    var d := k - j - 1;
    assert window * k == window * j + window * d + window by {
      Spread(window, j, d + 1);
      Spread(window, d, 1);
    }
    NonNegative(window, d);
  }

  lemma Spread(w: int, a: int, b: int)
    ensures w * (a + b) == w * a + w * b
  {
  }

  lemma NonNegative(w: int, m: int)
    requires w >= 0 && m >= 0
    ensures w * m >= 0
  {
  }

  lemma MultipleOfIsStart(k: int, window: int, now: int)
    requires window >= 1 && window * k <= now < window * k + window
    ensures BucketStart(now, window) == window * k
  {
    var q, r := now / window, now % window;
    assert now == window * q + r;
    if q < k {
      NextMultiple(window, q, k);
    } else if k < q {
      NextMultiple(window, k, q);
    }
  }

  /** A refused caller is told exactly how long its bucket still lasts. */
  lemma RetryStartsNextBucket(now: int, window: int)
    requires window >= 1
    ensures RetryAfter(now, window) >= 1
    ensures BucketStart(now + RetryAfter(now, window), window) == BucketStart(now, window) + window
    ensures BucketStart(now + RetryAfter(now, window) - 1, window) == BucketStart(now, window)
  {
    BucketFacts(now, window);
    var k :| BucketStart(now, window) == window * k;
    assert window * (k + 1) == window * k + window;
    MultipleOfIsStart(k + 1, window, now + RetryAfter(now, window));
    MultipleOfIsStart(k, window, now + RetryAfter(now, window) - 1);
  }

  // --------------------------------------------------------- pruning, exactly

  /** A call with window `w` never prunes a bucket that a call with window `w'` counts in, if the
      pruning call starts at most `lag` after it, or before it. */
  ghost predicate NeverPrunesWithin(w: int, w': int, lag: int)
    requires w >= 1 && w' >= 1
  {
    forall now: nat, start: nat :: now - start <= lag ==> StaleBefore(now, w) <= BucketStart(start, w')
  }

  /** A call never prunes a bucket that a call from then on counts in. */
  ghost predicate NeverPrunes(w: int, w': int)
    requires w >= 1 && w' >= 1
  {
    NeverPrunesWithin(w, w', 0)
  }

  /** By how much a call with window `w'` may be older than one with window `w` that prunes. */
  function Slack(w: nat, w': nat): int
    requires w >= 1
  {
    12 * w + Gcd(w, w') - w'
  }

  function Gcd(a: nat, b: nat): (g: nat)
    requires a + b >= 1
    ensures g >= 1
    decreases b
  {
    if b == 0 then a else Gcd(b, a % b)
  }

  lemma Quotient(now: nat, w: nat)
    requires w >= 1
    ensures now % w == now - w * (now / w) && 0 <= now % w < w
  {
  }

  lemma {:induction false} GcdDivides(a: nat, b: nat) returns (p: int, q: int)
    requires a + b >= 1
    ensures a == p * Gcd(a, b) && b == q * Gcd(a, b)
    decreases b
  {
    if b == 0 {
      p, q := 1, 0;
    } else {
      var p', q' := GcdDivides(b, a % b);
      Quotient(a, b);
      DividesStep(b, a / b, p', q', Gcd(a, b));
      p, q := (a / b) * p' + q', p';
    }
  }

  lemma DividesStep(b: int, d: int, p: int, q: int, g: int)
    requires b == p * g
    ensures b * d + q * g == (d * p + q) * g
  {
    Regroup(p, g, d);
    assert (d * p + q) * g == (d * p) * g + q * g;
  }

  lemma {:induction false} Bezout(a: nat, b: nat) returns (x: int, y: int)
    requires a + b >= 1
    ensures a * x + b * y == Gcd(a, b)
    decreases b
  {
    if b == 0 {
      x, y := 1, 0;
    } else {
      var x', y' := Bezout(b, a % b);
      Quotient(a, b);
      BezoutStep(a, b, a / b, x', y');
      x, y := y', x' - (a / b) * y';
    }
  }

  lemma BezoutStep(a: int, b: int, d: int, x: int, y: int)
    ensures a * y + b * (x - d * y) == b * x + (a - b * d) * y
  {
    assert b * (x - d * y) == b * x - b * (d * y);
    assert (a - b * d) * y == a * y - (b * d) * y;
    assert b * (d * y) == (b * d) * y;
  }

  /** A multiple of g below another multiple of g is below it by at least g. */
  lemma MultiplesApart(u: int, v: int, g: int)
    requires g >= 1 && u * g < v * g
    ensures u * g + g <= v * g
  {
    if u < v {
      NextMultiple(g, u, v);
    } else {
      Distribute(u, v, g);
      NonNegative(u - v, g);
    }
  }

  lemma Regroup(p: int, g: int, m: int)
    ensures (p * g) * m == (p * m) * g
  {
  }

  lemma Distribute(u: int, v: int, g: int)
    ensures (u - v) * g == u * g - v * g
  {
  }

  lemma BucketIsMultiple(now: int, w: nat, p: int, g: int) returns (k: int)
    requires w >= 1 && w == p * g
    ensures BucketStart(now, w) == k * g
  {
    BucketFacts(now, w);
    var m :| BucketStart(now, w) == w * m;
    Regroup(p, g, m);
    k := p * m;
  }

  /** Bucket starts are multiples of the greatest common divisor, so a start that is less than one
      divisor behind is not behind. */
  lemma WithinSlackIsKept(w: nat, w': nat, now: nat, start: nat)
    requires w >= 1 && w' >= 1 && now - start <= Slack(w, w')
    ensures StaleBefore(now, w) <= BucketStart(start, w')
  {
    hide Gcd;
    var g := Gcd(w, w');
    var p, q := GcdDivides(w, w');
    var j := BucketIsMultiple(now, w, p, g);
    var k := BucketIsMultiple(start, w', q, g);
    BucketFacts(now, w);
    BucketFacts(start, w');
    Distribute(j, 12 * p, g);
    assert (12 * p) * g == 12 * w;
    if k * g < (j - 12 * p) * g {
      MultiplesApart(k, j - 12 * p, g);
    }
  }

  lemma CombineSolutions(w: int, w': int, x: int, y: int, q: int, t: int)
    ensures w * (q * x + w' * t) == w' * (w * t - q * y) + q * (w * x + w' * y)
  {
    Spread(w, q * x, w' * t);
    Spread(w', w * t, -(q * y));
    Spread(q, w * x, w' * y);
    assert w * (q * x) == q * (w * x);
    assert w' * -(q * y) == -(q * (w' * y));
    assert w * (w' * t) == w' * (w * t);
  }

  lemma BigEnough(w: nat, t: nat, z: int)
    requires w >= 1 && t >= z
    ensures w * t >= z
  {
    Distribute(w, 1, t);
    NonNegative(w - 1, t);
  }

  /** Two windows meet with any offsets that their greatest common divisor allows. */
  lemma WindowsMeet(w: nat, w': nat, r: nat, lag: nat, q: int) returns (start: nat)
    requires w >= 1 && r < w' && r + lag == q * Gcd(w, w')
    ensures BucketStart(start, w') == start - r && BucketStart(start + lag, w) == start + lag
  {
    hide Gcd;
    var x, y := Bezout(w, w');
    var u, v := q * x, q * y;
    var t := (if u < 0 then -u else 0) + (if v > 0 then v else 0);
    BigEnough(w', t, -u);
    BigEnough(w, t, v);
    var j, k := u + w' * t, w * t - v;
    CombineSolutions(w, w', x, y, q, t);
    NonNegative(w', k);
    start := w' * k + r;
    MultipleOfIsStart(k, w', start);
    MultipleOfIsStart(j, w, start + lag);
  }

  /** One second beyond the slack is too much, or none at all if the slack is negative. */
  lemma BeyondSlack(w: nat, w': nat, lag: int) returns (start: nat, late: nat)
    requires w >= 1 && w' >= 1 && lag > Slack(w, w')
    ensures late == (if Slack(w, w') < 0 then 0 else Slack(w, w') + 1)
    ensures StaleBefore(start + late, w) > BucketStart(start, w')
  {
    hide Gcd;
    var g := Gcd(w, w');
    var p, q := GcdDivides(w, w');
    if Slack(w, w') < 0 {
      late := 0;
      Distribute(q, 1, g);
      start := WindowsMeet(w, w', w' - g, 0, q - 1);
    } else {
      late := Slack(w, w') + 1;
      assert w' - 1 + late == (12 * p + 1) * g;
      start := WindowsMeet(w, w', w' - 1, late, 12 * p + 1);
    }
  }

  /** Exactly how much older a call may be whose bucket is never pruned. */
  lemma PrunesWithinExactly(w: nat, w': nat, lag: nat)
    requires w >= 1 && w' >= 1
    ensures NeverPrunesWithin(w, w', lag) <==> lag <= Slack(w, w')
  {
    hide Slack;
    if lag <= Slack(w, w') {
      forall now: nat, start: nat | now - start <= lag ensures StaleBefore(now, w) <= BucketStart(start, w') {
        WithinSlackIsKept(w, w', now, start);
      }
    } else {
      var start, late := BeyondSlack(w, w', lag);
      var now: nat := start + late;
      assert StaleBefore(now, w) > BucketStart(start, w');
    }
  }

  /** Sharing a table is safe exactly for windows close enough to each other. */
  lemma PrunesSafelyExactly(w: nat, w': nat)
    requires w >= 1 && w' >= 1
    ensures NeverPrunes(w, w') <==> w' - Gcd(w, w') <= 12 * w
  {
    PrunesWithinExactly(w, w', 0);
  }

  /** No window more than twelve times another plus one. */
  lemma CloseWindowsShare(w: nat, w': nat)
    requires w >= 1 && 1 <= w' <= 12 * w + 1
    ensures NeverPrunes(w, w')
  {
    PrunesSafelyExactly(w, w');
  }

  ghost predicate Compatible(windows: set<int>) {
    (forall w <- windows :: w >= 1) && forall w <- windows, w' <- windows :: NeverPrunes(w, w')
  }

  /** The windows of the Training Hub's rules. */
  lemma RuleWindowsShare()
    ensures Compatible({60, 300, 600})
  {
    forall w, w' | w in {60, 300, 600} && w' in {60, 300, 600} ensures NeverPrunes(w, w') {
      CloseWindowsShare(w, w');
    }
  }
}
