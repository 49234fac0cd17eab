/** The in-process level of the response cache: an ordered dictionary, oldest touch first, with a
    time to live and a bounded number of entries. */
module LocalCache {
  import opened Options

  /** Responses are opaque: a number each. */
  type Response = nat

  datatype Slot = Slot(key: string, expiresAt: real, value: Response)

  type Slots = seq<Slot>

  function Keys(slots: Slots): set<string> {
    set s <- slots :: s.key
  }

  predicate DistinctKeys(slots: Slots) {
    forall i, j :: 0 <= i < j < |slots| ==> slots[i].key != slots[j].key
  }

  function Live(slots: Slots, now: real): Slots {
    if slots == [] then []
    else
      var init := Live(slots[..|slots| - 1], now);
      var last := slots[|slots| - 1];
      if last.expiresAt <= now then init else init + [last]
  }

  function Without(slots: Slots, key: string): Slots {
    if slots == [] then []
    else
      var init := Without(slots[..|slots| - 1], key);
      var last := slots[|slots| - 1];
      if last.key == key then init else init + [last]
  }

  function Find(slots: Slots, key: string): (r: Option<Slot>)
    ensures r.Some? ==> r.value in slots && r.value.key == key
    ensures r.None? ==> key !in Keys(slots)
  {
    if slots == [] then None
    else
      var last := slots[|slots| - 1];
      if last.key == key then Some(last)
      else
        var r := Find(slots[..|slots| - 1], key);
        assert forall s <- slots :: s in slots[..|slots| - 1] || s == last;
        r
  }

  /** The newest `limit` entries. */
  function Newest(slots: Slots, limit: nat): Slots {
    if |slots| <= limit then slots else slots[|slots| - limit..]
  }

  /** The state that `get` leaves behind, and what it answers. */
  function AfterGet(slots: Slots, key: string, now: real): Slots {
    var live := Live(slots, now);
    match Find(live, key)
    case None => live
    case Some(slot) => Without(live, key) + [slot]
  }

  function Hit(slots: Slots, key: string, now: real): Option<Response> {
    match Find(Live(slots, now), key)
    case None => None
    case Some(slot) => Some(slot.value)
  }

  function AfterSet(slots: Slots, key: string, value: Response, now: real, ttl: real, limit: nat): Slots {
    Newest(Without(Live(slots, now), key) + [Slot(key, now + ttl, value)], limit)
  }

  // ------------------------------------------------------------- basic facts

  lemma {:induction false} LiveIsUnexpired(slots: Slots, now: real)
    ensures forall s :: s in Live(slots, now) <==> s in slots && s.expiresAt > now
  {
    if slots != [] {
      LiveIsUnexpired(slots[..|slots| - 1], now);
      assert forall s :: s in slots <==> s in slots[..|slots| - 1] || s == slots[|slots| - 1];
    }
  }

  lemma {:induction false} WithoutIsTheRest(slots: Slots, key: string)
    ensures forall s :: s in Without(slots, key) <==> s in slots && s.key != key
  {
    if slots != [] {
      WithoutIsTheRest(slots[..|slots| - 1], key);
      assert forall s :: s in slots <==> s in slots[..|slots| - 1] || s == slots[|slots| - 1];
    }
  }

  lemma AppendDistinct(slots: Slots, last: Slot)
    requires DistinctKeys(slots) && last.key !in Keys(slots)
    ensures DistinctKeys(slots + [last]) && Keys(slots + [last]) == Keys(slots) + {last.key}
  {
    forall k ensures k in Keys(slots + [last]) <==> k in Keys(slots) + {last.key} {
      if k in Keys(slots) {
        var s :| s in slots && s.key == k;
        assert s in slots + [last];
      }
      assert last in slots + [last];
    }
    forall i | 0 <= i < |slots| ensures slots[i].key != last.key {
      assert slots[i] in slots;
    }
  }

  lemma DropLastDistinct(slots: Slots)
    requires DistinctKeys(slots) && slots != []
    ensures var init, last := slots[..|slots| - 1], slots[|slots| - 1];
      DistinctKeys(init) && last.key !in Keys(init) && Keys(slots) == Keys(init) + {last.key}
  {
    var init, last := slots[..|slots| - 1], slots[|slots| - 1];
    AppendDistinct(init, last);
    assert slots == init + [last];
  }

  lemma {:induction false} LiveStaysDistinct(slots: Slots, now: real)
    requires DistinctKeys(slots)
    ensures DistinctKeys(Live(slots, now)) && |Live(slots, now)| <= |slots| && Keys(Live(slots, now)) <= Keys(slots)
  {
    hide DistinctKeys;
    if slots == [] {
      assert DistinctKeys(Live(slots, now));
    } else {
      var init, last := slots[..|slots| - 1], slots[|slots| - 1];
      DropLastDistinct(slots);
      LiveStaysDistinct(init, now);
      if last.expiresAt > now { AppendDistinct(Live(init, now), last); }
    }
  }

  lemma {:induction false} WithoutStaysDistinct(slots: Slots, key: string)
    requires DistinctKeys(slots)
    ensures DistinctKeys(Without(slots, key)) && Keys(Without(slots, key)) == Keys(slots) - {key}
    ensures |Without(slots, key)| == if key in Keys(slots) then |slots| - 1 else |slots|
  {
    hide DistinctKeys;
    if slots == [] {
      assert DistinctKeys(Without(slots, key));
    } else {
      var init, last := slots[..|slots| - 1], slots[|slots| - 1];
      DropLastDistinct(slots);
      WithoutStaysDistinct(init, key);
      if last.key != key { AppendDistinct(Without(init, key), last); }
    }
  }

  /** Bounded and duplicate-free: what every operation keeps. */
  predicate Valid(slots: Slots, limit: nat) {
    DistinctKeys(slots) && |slots| <= limit
  }

  lemma GetKeepsValid(slots: Slots, key: string, now: real, limit: nat)
    requires Valid(slots, limit)
    ensures Valid(AfterGet(slots, key, now), limit)
  {
    hide Live, Without, Keys, DistinctKeys;
    var live := Live(slots, now);
    LiveStaysDistinct(slots, now);
    WithoutStaysDistinct(live, key);
    if Find(live, key).Some? {
      FoundIsAKey(live, Find(live, key).value);
      AppendDistinct(Without(live, key), Find(live, key).value);
    }
  }

  lemma FoundIsAKey(slots: Slots, slot: Slot)
    requires slot in slots
    ensures slot.key in Keys(slots)
  {
  }

  lemma SetIsDistinct(slots: Slots, key: string, value: Response, now: real, ttl: real)
    requires DistinctKeys(slots)
    ensures DistinctKeys(Without(Live(slots, now), key) + [Slot(key, now + ttl, value)])
  {
    LiveStaysDistinct(slots, now);
    WithoutStaysDistinct(Live(slots, now), key);
    AppendDistinct(Without(Live(slots, now), key), Slot(key, now + ttl, value));
  }

  lemma SetKeepsValid(slots: Slots, key: string, value: Response, now: real, ttl: real, limit: nat)
    requires DistinctKeys(slots)
    ensures Valid(AfterSet(slots, key, value, now, ttl, limit), limit)
  {
    hide Live, Without;
    SetIsDistinct(slots, key, value, now, ttl);
  }

  predicate HasUnexpired(slots: Slots, key: string, now: real, value: Response) {
    exists s <- slots :: s.key == key && s.expiresAt > now && s.value == value
  }

  lemma {:induction false} FindsItsKey(slots: Slots, s: Slot)
    requires DistinctKeys(slots) && s in slots
    ensures Find(slots, s.key) == Some(s)
  {
    var init, last := slots[..|slots| - 1], slots[|slots| - 1];
    if last.key == s.key {
      DropLastDistinct(slots);
      assert s in init ==> s.key in Keys(init);
    } else {
      FindsItsKey(init, s);
    }
  }

  /** A hit is the unexpired value of the key, and there is one whenever the key has one. */
  lemma HitIsExact(slots: Slots, key: string, now: real, value: Response)
    requires DistinctKeys(slots)
    ensures Hit(slots, key, now) == Some(value) <==> HasUnexpired(slots, key, now, value)
  {
    LiveIsUnexpired(slots, now);
    LiveStaysDistinct(slots, now);
    if s :| s in slots && s.key == key && s.expiresAt > now && s.value == value {
      FindsItsKey(Live(slots, now), s);
    }
  }

  /** A `get` drops what has expired and nothing else. */
  lemma GetKeepsUnexpired(slots: Slots, key: string, now: real)
    requires DistinctKeys(slots)
    ensures forall s: Slot :: s in AfterGet(slots, key, now) <==> s in slots && s.expiresAt > now
  {
    LiveIsUnexpired(slots, now);
    LiveStaysDistinct(slots, now);
    var live := Live(slots, now);
    WithoutIsTheRest(live, key);
    hide Live, Without;
    forall s <- live | s.key == key ensures Find(live, key) == Some(s) {
      FindsItsKey(live, s);
    }
  }

  /** Everything that is in the cache after a `get` was there before and has not expired. */
  lemma GetAddsNothing(slots: Slots, key: string, now: real)
    ensures forall s <- AfterGet(slots, key, now) :: s in slots && s.expiresAt > now
  {
    hide Live, Without;
    var live := Live(slots, now);
    LiveIsUnexpired(slots, now);
    WithoutIsTheRest(live, key);
    forall s <- AfterGet(slots, key, now) ensures s in live {
    }
  }

  /** After a `set` there is the new entry, and nothing else that is new, expired or of its key. */
  lemma SetAddsOne(slots: Slots, key: string, value: Response, now: real, ttl: real, limit: nat)
    ensures forall s <- AfterSet(slots, key, value, now, ttl, limit) ::
              s == Slot(key, now + ttl, value) || (s in slots && s.expiresAt > now && s.key != key)
  {
    hide Live, Without;
    var live := Live(slots, now);
    LiveIsUnexpired(slots, now);
    WithoutIsTheRest(live, key);
    var all := Without(live, key) + [Slot(key, now + ttl, value)];
    forall s <- AfterSet(slots, key, value, now, ttl, limit)
      ensures s in Without(live, key) || s == Slot(key, now + ttl, value)
    {
      assert s in all;
    }
  }

  /** It drops nothing else that has not expired, unless the cache is full then. */
  lemma SetDropsOnlyWhenFull(slots: Slots, key: string, value: Response, now: real, ttl: real, limit: nat)
    ensures var after := AfterSet(slots, key, value, now, ttl, limit);
      && (limit > 0 ==> after != [] && after[|after| - 1] == Slot(key, now + ttl, value))
      && ((forall s <- slots :: s.key != key && s.expiresAt > now ==> s in after) || |after| == limit)
  {
    LiveIsUnexpired(slots, now);
    var live := Live(slots, now);
    WithoutIsTheRest(live, key);
    hide Live, Without;
  }

  // ------------------------------------------------------------ least recent

  datatype Op = Get(key: string, now: real) | Set(key: string, value: Response, now: real)

  function Apply(slots: Slots, op: Op, ttl: real, limit: nat): Slots {
    match op
    case Get(key, now) => AfterGet(slots, key, now)
    case Set(key, value, now) => AfterSet(slots, key, value, now, ttl, limit)
  }

  function Replay(slots: Slots, ops: seq<Op>, ttl: real, limit: nat): Slots
    decreases |ops|
  {
    if ops == [] then slots else Replay(Apply(slots, ops[0], ttl, limit), ops[1..], ttl, limit)
  }

  predicate Touches(slots: Slots, op: Op) {
    op.Set? || Hit(slots, op.key, op.now).Some?
  }

  /** The keys set or hit during a run. */
  function Touched(slots: Slots, ops: seq<Op>, ttl: real, limit: nat): set<string>
    decreases |ops|
  {
    if ops == [] then {}
    else (if Touches(slots, ops[0]) then {ops[0].key} else {}) + Touched(Apply(slots, ops[0], ttl, limit), ops[1..], ttl, limit)
  }

  /** Every entry more recent than `slot` has its key in `newer`. */
  predicate RecentAfter(slots: Slots, slot: Slot, newer: set<string>) {
    exists p :: 0 <= p < |slots| && slots[p] == slot && forall j :: p < j < |slots| ==> slots[j].key in newer
  }

  lemma {:induction false} LiveKeepsRecent(slots: Slots, slot: Slot, newer: set<string>, now: real)
    requires RecentAfter(slots, slot, newer) && slot.expiresAt > now
    ensures RecentAfter(Live(slots, now), slot, newer)
  {
    var init, last := slots[..|slots| - 1], slots[|slots| - 1];
    var live := Live(slots, now);
    var p :| 0 <= p < |slots| && slots[p] == slot && forall j :: p < j < |slots| ==> slots[j].key in newer;
    if p == |slots| - 1 {
      assert live[|live| - 1] == slot;
    } else {
      assert init[p] == slot && last == slots[|slots| - 1];
      LiveKeepsRecent(init, slot, newer, now);
      ExtendRecent(Live(init, now), slot, newer, last);
    }
  }

  lemma ExtendRecent(slots: Slots, slot: Slot, newer: set<string>, last: Slot)
    requires RecentAfter(slots, slot, newer)
    ensures RecentAfter(slots + [last], slot, newer + {last.key})
    ensures last.key in newer ==> RecentAfter(slots + [last], slot, newer)
  {
    var p :| 0 <= p < |slots| && slots[p] == slot && forall j :: p < j < |slots| ==> slots[j].key in newer;
    assert (slots + [last])[p] == slot;
  }

  lemma {:induction false} WithoutKeepsRecent(slots: Slots, slot: Slot, newer: set<string>, key: string)
    requires RecentAfter(slots, slot, newer) && slot.key != key
    ensures RecentAfter(Without(slots, key), slot, newer)
  {
    var init, last := slots[..|slots| - 1], slots[|slots| - 1];
    var rest := Without(slots, key);
    var p :| 0 <= p < |slots| && slots[p] == slot && forall j :: p < j < |slots| ==> slots[j].key in newer;
    if p == |slots| - 1 {
      assert rest[|rest| - 1] == slot;
    } else {
      assert init[p] == slot && last == slots[|slots| - 1];
      WithoutKeepsRecent(init, slot, newer, key);
      ExtendRecent(Without(init, key), slot, newer, last);
    }
  }

  lemma {:induction false} DistinctAreFew(slots: Slots, keys: set<string>)
    requires DistinctKeys(slots) && Keys(slots) <= keys
    ensures |slots| <= |keys|
  {
    if slots != [] {
      var init, last := slots[..|slots| - 1], slots[|slots| - 1];
      assert last in slots && last.key in keys;
      forall k | k in Keys(init) ensures k in keys - {last.key} {
        var s :| s in init && s.key == k;
        assert s in slots;
      }
      DistinctAreFew(init, keys - {last.key});
    }
  }

  /** Eviction spares an entry with fewer than `limit` distinct keys behind it. */
  lemma EvictionSparesRecent(slots: Slots, slot: Slot, newer: set<string>, limit: nat)
    requires RecentAfter(slots, slot, newer) && DistinctKeys(slots) && |newer| < limit
    ensures RecentAfter(Newest(slots, limit), slot, newer)
  {
    var p :| 0 <= p < |slots| && slots[p] == slot && forall j :: p < j < |slots| ==> slots[j].key in newer;
    DistinctAreFew(slots[p + 1..], newer);
    if |slots| > limit {
      assert Newest(slots, limit)[p - (|slots| - limit)] == slot;
    }
  }

  lemma ApplyKeepsRecent(slots: Slots, slot: Slot, newer: set<string>, op: Op, ttl: real, limit: nat)
    requires Valid(slots, limit) && RecentAfter(slots, slot, newer)
    requires op.key != slot.key && slot.expiresAt > op.now
    requires |newer + (if Touches(slots, op) then {op.key} else {})| < limit
    ensures Valid(Apply(slots, op, ttl, limit), limit)
    ensures RecentAfter(Apply(slots, op, ttl, limit), slot, newer + (if Touches(slots, op) then {op.key} else {}))
  {
    hide RecentAfter, Valid;
    var live := Live(slots, op.now);
    LiveKeepsRecent(slots, slot, newer, op.now);
    match op {
      case Get(key, now) =>
        GetKeepsValid(slots, key, now, limit);
        if Find(live, key).Some? {
          WithoutKeepsRecent(live, slot, newer, key);
          ExtendRecent(Without(live, key), slot, newer, Find(live, key).value);
        } else {
          assert newer + {} == newer;
        }
      case Set(key, value, now) =>
        assert DistinctKeys(slots) by { ValidIsDistinct(slots, limit); }
        SetKeepsValid(slots, key, value, now, ttl, limit);
        WithoutKeepsRecent(live, slot, newer, key);
        ExtendRecent(Without(live, key), slot, newer, Slot(key, now + ttl, value));
        SetIsDistinct(slots, key, value, now, ttl);
        EvictionSparesRecent(Without(live, key) + [Slot(key, now + ttl, value)], slot, newer + {key}, limit);
    }
  }

  lemma ValidIsDistinct(slots: Slots, limit: nat)
    requires Valid(slots, limit)
    ensures DistinctKeys(slots)
  {
  }

  lemma {:induction false} RunKeepsRecent(slots: Slots, slot: Slot, newer: set<string>, ops: seq<Op>, ttl: real, limit: nat)
    requires Valid(slots, limit) && RecentAfter(slots, slot, newer)
    requires forall op <- ops :: op.key != slot.key && slot.expiresAt > op.now
    requires |newer + Touched(slots, ops, ttl, limit)| < limit
    ensures RecentAfter(Replay(slots, ops, ttl, limit), slot, newer + Touched(slots, ops, ttl, limit))
    decreases |ops|
  {
    hide RecentAfter, Valid, Apply, Touches;
    if ops == [] {
      assert newer + {} == newer;
    } else {
      var here := if Touches(slots, ops[0]) then {ops[0].key} else {};
      var next := Apply(slots, ops[0], ttl, limit);
      var later := Touched(next, ops[1..], ttl, limit);
      assert newer + (here + later) == (newer + here) + later;
      FewerInPart(newer + here, later);
      ApplyKeepsRecent(slots, slot, newer, ops[0], ttl, limit);
      RunKeepsRecent(next, slot, newer + here, ops[1..], ttl, limit);
    }
  }

  lemma {:induction false} FewerInPart(a: set<string>, b: set<string>)
    ensures |a| <= |a + b|
    decreases |b|
  {
    if b != {} {
      var x :| x in b;
      FewerInPart(a, b - {x});
      if x in a {
        assert a + b == a + (b - {x});
      } else {
        assert a + b == a + (b - {x}) + {x};
      }
    }
  }

  /** An entry that was just set or hit, and has not expired, stays in the cache with its value until
      at least `limit` distinct other keys have been set or hit. */
  lemma RecentEntrySurvives(before: Slots, slot: Slot, ops: seq<Op>, ttl: real, limit: nat)
    requires Valid(before + [slot], limit)
    requires forall op <- ops :: op.key != slot.key && slot.expiresAt > op.now
    requires |Touched(before + [slot], ops, ttl, limit)| < limit
    ensures slot in Replay(before + [slot], ops, ttl, limit)
  {
    var slots := before + [slot];
    assert slots[|slots| - 1] == slot;
    assert {} + Touched(slots, ops, ttl, limit) == Touched(slots, ops, ttl, limit);
    RunKeepsRecent(slots, slot, {}, ops, ttl, limit);
  }

  // --------------------------------------------------------- eviction in turn

  /** Wherever `slot` stands, all of `newer` stand behind it. */
  predicate AllBehind(slots: Slots, slot: Slot, newer: set<string>) {
    forall p :: 0 <= p < |slots| && slots[p] == slot ==> newer <= Keys(slots[p + 1..])
  }

  predicate NoneExpires(slots: Slots, end: real) {
    forall s <- slots :: s.expiresAt > end
  }

  lemma {:induction false} LiveIsEverything(slots: Slots, now: real)
    requires NoneExpires(slots, now)
    ensures Live(slots, now) == slots
  {
    if slots != [] {
      LiveIsEverything(slots[..|slots| - 1], now);
    }
  }

  lemma AppendBehind(slots: Slots, slot: Slot, newer: set<string>, last: Slot)
    requires AllBehind(slots, slot, newer - {last.key})
    requires last == slot ==> newer == {}
    ensures AllBehind(slots + [last], slot, newer)
  {
    var all := slots + [last];
    forall p | 0 <= p < |all| && all[p] == slot ensures newer <= Keys(all[p + 1..]) {
      if p < |slots| {
        assert all[p + 1..] == slots[p + 1..] + [last];
        KeysOfAppend(slots[p + 1..], last);
      }
    }
  }

  lemma KeysOfAppend(slots: Slots, last: Slot)
    ensures Keys(slots + [last]) == Keys(slots) + {last.key}
  {
    forall k ensures k in Keys(slots + [last]) <==> k in Keys(slots) + {last.key} {
      assert last in slots + [last];
      if k in Keys(slots) {
        var s :| s in slots && s.key == k;
        assert s in slots + [last];
      }
    }
  }

  lemma DropLastBehind(slots: Slots, slot: Slot, newer: set<string>)
    requires slots != [] && AllBehind(slots, slot, newer)
    ensures AllBehind(slots[..|slots| - 1], slot, newer - {slots[|slots| - 1].key})
    ensures slots[|slots| - 1] == slot ==> newer == {}
  {
    var init, last := slots[..|slots| - 1], slots[|slots| - 1];
    forall p | 0 <= p < |init| && init[p] == slot ensures newer - {last.key} <= Keys(init[p + 1..]) {
      assert slots[p] == slot && slots[p + 1..] == init[p + 1..] + [last];
      KeysOfAppend(init[p + 1..], last);
    }
    if last == slot {
      assert slots[|slots| - 1..][1..] == [] && slots[|slots| - 1 + 1..] == [];
    }
  }

  lemma {:induction false} WithoutBehind(slots: Slots, slot: Slot, newer: set<string>, key: string)
    requires AllBehind(slots, slot, newer) && key != slot.key
    ensures AllBehind(Without(slots, key), slot, newer - {key})
  {
    hide AllBehind;
    if slots == [] {
      EmptyBehind(slot, newer - {key});
    } else {
      var init, last := slots[..|slots| - 1], slots[|slots| - 1];
      DropLastBehind(slots, slot, newer);
      WithoutBehind(init, slot, newer - {last.key}, key);
      if last.key == key {
        assert newer - {last.key} - {key} == newer - {key};
      } else {
        assert newer - {last.key} - {key} == newer - {key} - {last.key};
        assert last == slot ==> newer - {key} == {};
        AppendBehind(Without(init, key), slot, newer - {key}, last);
      }
    }
  }

  lemma EmptyBehind(slot: Slot, newer: set<string>)
    ensures AllBehind([], slot, newer)
  {
  }

  lemma NewestBehind(slots: Slots, slot: Slot, newer: set<string>, limit: nat)
    requires AllBehind(slots, slot, newer)
    ensures AllBehind(Newest(slots, limit), slot, newer)
  {
    var kept := Newest(slots, limit);
    var d := |slots| - |kept|;
    forall p | 0 <= p < |kept| && kept[p] == slot ensures newer <= Keys(kept[p + 1..]) {
      assert slots[p + d] == slot && slots[p + d + 1..] == kept[p + 1..];
    }
  }

  lemma ApplyBehind(slots: Slots, slot: Slot, newer: set<string>, op: Op, ttl: real, limit: nat, end: real)
    requires AllBehind(slots, slot, newer) && NoneExpires(slots, end)
    requires op.key != slot.key && op.now <= end < op.now + ttl
    ensures NoneExpires(Apply(slots, op, ttl, limit), end)
    ensures AllBehind(Apply(slots, op, ttl, limit), slot, newer + (if Touches(slots, op) then {op.key} else {}))
  {
    hide AllBehind, Without, Live;
    LiveIsEverything(slots, op.now);
    var rest := Without(slots, op.key);
    WithoutBehind(slots, slot, newer, op.key);
    assert newer + {op.key} - {op.key} == newer - {op.key};
    match op {
      case Get(key, now) =>
        GetAddsNothing(slots, key, now);
        if Find(slots, key).Some? {
          AppendBehind(rest, slot, newer + {key}, Find(slots, key).value);
        } else {
          assert newer + {} == newer;
        }
      case Set(key, value, now) =>
        SetAddsOne(slots, key, value, now, ttl, limit);
        AppendBehind(rest, slot, newer + {key}, Slot(key, now + ttl, value));
        NewestBehind(rest + [Slot(key, now + ttl, value)], slot, newer + {key}, limit);
    }
  }

  lemma {:induction false} RunBehind(slots: Slots, slot: Slot, newer: set<string>, ops: seq<Op>, ttl: real, limit: nat, end: real)
    requires Valid(slots, limit) && AllBehind(slots, slot, newer) && NoneExpires(slots, end)
    requires forall op <- ops :: op.key != slot.key && op.now <= end < op.now + ttl
    ensures Valid(Replay(slots, ops, ttl, limit), limit)
    ensures AllBehind(Replay(slots, ops, ttl, limit), slot, newer + Touched(slots, ops, ttl, limit))
    decreases |ops|
  {
    hide AllBehind, Valid, NoneExpires, Touches, AfterGet, AfterSet;
    if ops == [] {
      assert newer + {} == newer;
    } else {
      var here := if Touches(slots, ops[0]) then {ops[0].key} else {};
      var next := Apply(slots, ops[0], ttl, limit);
      assert newer + (here + Touched(next, ops[1..], ttl, limit)) == (newer + here) + Touched(next, ops[1..], ttl, limit);
      ApplyBehind(slots, slot, newer, ops[0], ttl, limit, end);
      assert DistinctKeys(slots) by { ValidIsDistinct(slots, limit); }
      match ops[0] {
        case Get(key, now) => GetKeepsValid(slots, key, now, limit);
        case Set(key, value, now) => SetKeepsValid(slots, key, value, now, ttl, limit);
      }
      RunBehind(next, slot, newer + here, ops[1..], ttl, limit, end);
    }
  }

  lemma {:induction false} FewKeys(slots: Slots)
    ensures |Keys(slots)| <= |slots|
  {
    if slots != [] {
      var init, last := slots[..|slots| - 1], slots[|slots| - 1];
      FewKeys(init);
      assert slots == init + [last];
      KeysOfAppend(init, last);
    }
  }

  lemma {:induction false} FewerInSubset(a: set<string>, b: set<string>)
    requires a <= b
    ensures |a| <= |b|
  {
    assert b == a + (b - a);
    FewerInPart(a, b - a);
  }

  /** While nothing expires, eviction is exactly least recently used: an entry that was just set or
      hit is still there if and only if fewer than `limit` distinct other keys were set or hit since. */
  lemma EvictionIsExact(before: Slots, slot: Slot, ops: seq<Op>, ttl: real, limit: nat, end: real)
    requires Valid(before + [slot], limit) && NoneExpires(before + [slot], end)
    requires forall op <- ops :: op.key != slot.key && op.now <= end < op.now + ttl
    ensures slot in Replay(before + [slot], ops, ttl, limit) <==> |Touched(before + [slot], ops, ttl, limit)| < limit
  {
    var slots := before + [slot];
    var touched := Touched(slots, ops, ttl, limit);
    if |touched| < limit {
      assert slot in slots;
      RecentEntrySurvives(before, slot, ops, ttl, limit);
    } else {
      var after := Replay(slots, ops, ttl, limit);
      EmptySetBehind(slots, slot);
      RunBehind(slots, slot, {}, ops, ttl, limit, end);
      assert {} + touched == touched;
      if slot in after {
        var p :| 0 <= p < |after| && after[p] == slot;
        FewKeys(after[p + 1..]);
        FewerInSubset(touched, Keys(after[p + 1..]));
        assert false;
      }
    }
  }

  lemma EmptySetBehind(slots: Slots, slot: Slot)
    ensures AllBehind(slots, slot, {})
  {
  }

  /** Touching a key puts it last. */
  lemma TouchMovesToEnd(slots: Slots, op: Op, ttl: real, limit: nat)
    requires Touches(slots, op) && limit >= 1
    ensures var after := Apply(slots, op, ttl, limit);
      |after| >= 1 && after[|after| - 1].key == op.key
  {
  }

  lemma ApplyKeepsValid(slots: Slots, op: Op, ttl: real, limit: nat)
    requires Valid(slots, limit)
    ensures Valid(Apply(slots, op, ttl, limit), limit)
  {
    hide AfterGet, AfterSet;
    match op {
      case Get(key, now) => GetKeepsValid(slots, key, now, limit);
      case Set(key, value, now) => SetKeepsValid(slots, key, value, now, ttl, limit);
    }
  }

  /** In any cache, while nothing expires: the entry of a key that is set or hit stays through the
      following operations on other keys if and only if they set or hit fewer than `limit` of them. */
  lemma LeastRecentlyUsedExactly(slots: Slots, touch: Op, ops: seq<Op>, ttl: real, limit: nat, end: real)
    requires Valid(slots, limit) && limit >= 1 && Touches(slots, touch)
    requires NoneExpires(Apply(slots, touch, ttl, limit), end)
    requires forall op <- ops :: op.key != touch.key && op.now <= end < op.now + ttl
    ensures var after := Apply(slots, touch, ttl, limit);
      && after != [] && after[|after| - 1].key == touch.key
      && (after[|after| - 1] in Replay(after, ops, ttl, limit) <==> |Touched(after, ops, ttl, limit)| < limit)
  {
    hide Replay, Touched, Apply, NoneExpires, Valid, Touches;
    var after := Apply(slots, touch, ttl, limit);
    TouchMovesToEnd(slots, touch, ttl, limit);
    ApplyKeepsValid(slots, touch, ttl, limit);
    assert after == after[..|after| - 1] + [after[|after| - 1]];
    EvictionIsExact(after[..|after| - 1], after[|after| - 1], ops, ttl, limit, end);
  }

  // ------------------------------------------------------------------- class

  class LocalResponseCache {
    const ttlSeconds: real
    const maxEntries: nat
    var entries: Slots

    constructor (ttlSeconds: int, maxEntries: int)
      ensures this.ttlSeconds == (if ttlSeconds < 1 then 1 else ttlSeconds) as real
      ensures this.maxEntries == if maxEntries < 1 then 1 else maxEntries
      ensures entries == [] && Valid(entries, this.maxEntries)
    {
      this.ttlSeconds := (if ttlSeconds < 1 then 1 else ttlSeconds) as real;
      this.maxEntries := if maxEntries < 1 then 1 else maxEntries;
      entries := [];
    }

    method PruneExpired(now: real)
      modifies this`entries
      ensures entries == Live(old(entries), now)
    {
      var kept: Slots := [];
      for i := 0 to |entries|
        invariant entries == old(entries)
        invariant kept == Live(entries[..i], now)
      {
        assert entries[..i + 1][..i] == entries[..i];
        if entries[i].expiresAt > now {
          kept := kept + [entries[i]];
        }
      }
      assert entries[..|entries|] == entries;
      entries := kept;
    }

    method PopKey(key: string)
      modifies this`entries
      ensures entries == Without(old(entries), key)
    {
      var kept: Slots := [];
      for i := 0 to |entries|
        invariant entries == old(entries)
        invariant kept == Without(entries[..i], key)
      {
        assert entries[..i + 1][..i] == entries[..i];
        if entries[i].key != key {
          kept := kept + [entries[i]];
        }
      }
      assert entries[..|entries|] == entries;
      entries := kept;
    }

    method Lookup(key: string, now: real) returns (cached: Option<Response>)
      requires Valid(entries, maxEntries)
      modifies this`entries
      ensures Valid(entries, maxEntries)
      ensures entries == AfterGet(old(entries), key, now) && cached == Hit(old(entries), key, now)
      ensures forall value: Response :: cached == Some(value) <==> HasUnexpired(old(entries), key, now, value)
      ensures forall s: Slot :: s in entries <==> s in old(entries) && s.expiresAt > now
      ensures cached.Some? ==> entries != [] && entries[|entries| - 1].key == key
    {
      hide DistinctKeys, Live, Without, HasUnexpired;
      forall value: Response ensures Hit(entries, key, now) == Some(value) <==> HasUnexpired(entries, key, now, value) {
        ValidIsDistinct(entries, maxEntries);
        HitIsExact(entries, key, now, value);
      }
      ValidIsDistinct(entries, maxEntries);
      GetKeepsUnexpired(entries, key, now);
      GetKeepsValid(entries, key, now, maxEntries);
      PruneExpired(now);
      var entry := Find(entries, key);
      if entry.None? {
        return None;
      }
      PopKey(key);
      entries := entries + [entry.value];
      return Some(entry.value.value);
    }

    method Store(key: string, value: Response, now: real)
      requires Valid(entries, maxEntries)
      modifies this`entries
      ensures Valid(entries, maxEntries)
      ensures entries == AfterSet(old(entries), key, value, now, ttlSeconds, maxEntries)
      ensures maxEntries > 0 ==> entries != [] && entries[|entries| - 1] == Slot(key, now + ttlSeconds, value)
      ensures forall s <- entries ::
        s == Slot(key, now + ttlSeconds, value) || (s in old(entries) && s.key != key && s.expiresAt > now)
      ensures (forall s <- old(entries) :: s.key != key && s.expiresAt > now ==> s in entries) || |entries| == maxEntries
    {
      hide AfterSet, Valid;
      ValidIsDistinct(entries, maxEntries);
      SetKeepsValid(entries, key, value, now, ttlSeconds, maxEntries);
      SetAddsOne(entries, key, value, now, ttlSeconds, maxEntries);
      SetDropsOnlyWhenFull(entries, key, value, now, ttlSeconds, maxEntries);
      ReplaceAndEvict(key, value, now);
    }

    /** The statements of `set`. */
    method ReplaceAndEvict(key: string, value: Response, now: real)
      modifies this`entries
      ensures entries == AfterSet(old(entries), key, value, now, ttlSeconds, maxEntries)
    {
      hide Live, Without;
      PruneExpired(now);
      PopKey(key);
      entries := entries + [Slot(key, now + ttlSeconds, value)];
      ghost var full := entries;
      while |entries| > maxEntries
        invariant |entries| <= |full| && entries == full[|full| - |entries|..]
        invariant |entries| >= maxEntries || entries == full
      {
        entries := entries[1..];
      }
    }
  }
}
