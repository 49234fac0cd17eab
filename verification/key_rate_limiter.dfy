/** The rolling quota on one Hypixel API key. */
module KeyRateLimiter {
  import opened RollingWindows

  datatype Outcome = Admitted | Refused(retryAfter: int)

  function Ceil(x: real): int {
    -((-x).Floor)
  }

  // ------------------------------------------------------- reference limiter

  /** What the limiter is for, over the complete log of admitted requests. */
  predicate HasRoom(log: seq<real>, now: real, width: real, limit: nat) {
    CountEnding(log, now, width) < limit
  }

  /** The requests admitted out of a sequence of attempts. */
  function AdmittedOf(attempts: seq<real>, width: real, limit: nat): seq<real> {
    if attempts == [] then []
    else
      var log := AdmittedOf(attempts[..|attempts| - 1], width, limit);
      var now := attempts[|attempts| - 1];
      if HasRoom(log, now, width, limit) then log + [now] else log
  }

  lemma {:induction false} AdmittedInOrder(attempts: seq<real>, width: real, limit: nat, now: real)
    requires Nondecreasing(attempts) && AllUpTo(attempts, now)
    ensures AllUpTo(AdmittedOf(attempts, width, limit), now)
    ensures Nondecreasing(AdmittedOf(attempts, width, limit))
  {
    hide HasRoom;
    if attempts != [] {
      AdmittedInOrder(attempts[..|attempts| - 1], width, limit, attempts[|attempts| - 1]);
    }
  }

  /** Over any run, every half-open window holds at most `limit` admitted requests. */
  lemma {:induction false} EveryWindowIsBounded(attempts: seq<real>, width: real, limit: nat)
    requires Nondecreasing(attempts)
    ensures EveryWindowHolds(AdmittedOf(attempts, width, limit), width, limit)
  {
    hide EveryWindowHolds;
    if attempts == [] {
      NoneInAnyWindow(width, limit);
    } else {
      var before, now := attempts[..|attempts| - 1], attempts[|attempts| - 1];
      EveryWindowIsBounded(before, width, limit);
      AdmittedInOrder(before, width, limit, now);
      var log := AdmittedOf(before, width, limit);
      if HasRoom(log, now, width, limit) { AdmitKeepsWindows(log, now, width, limit); }
    }
  }

  lemma NoneInAnyWindow(width: real, limit: nat)
    ensures EveryWindowHolds([], width, limit)
  {
  }

  // --------------------------------------------------------------- the deque

  /** `requests` is the end of the log, and whatever it lacks is no later than `cutoff`. */
  predicate IsTail(requests: seq<real>, log: seq<real>, cutoff: real) {
    && |requests| <= |log| && requests == log[|log| - |requests|..]
    && forall i :: 0 <= i < |log| - |requests| ==> log[i] <= cutoff
  }

  lemma TailShrinks(requests: seq<real>, log: seq<real>, cutoff: real)
    requires IsTail(requests, log, cutoff) && requests != [] && requests[0] <= cutoff
    ensures IsTail(requests[1..], log, cutoff)
  {
    assert requests[0] == log[|log| - |requests|];
  }

  lemma TailGrows(requests: seq<real>, log: seq<real>, cutoff: real, now: real)
    requires IsTail(requests, log, cutoff)
    ensures IsTail(requests + [now], log + [now], cutoff)
  {
    var d := |log| - |requests|;
    assert (log + [now])[d..] == log[d..] + [now];
  }

  /** Once the old requests are popped, the deque is exactly the window ending now. */
  lemma TailIsWindow(requests: seq<real>, log: seq<real>, now: real, width: real)
    requires IsTail(requests, log, now - width) && Nondecreasing(log) && AllUpTo(log, now)
    requires requests != [] ==> requests[0] > now - width
    ensures CountEnding(log, now, width) == |requests|
  {
    var d := |log| - |requests|;
    if requests != [] { assert requests[0] == log[d]; }
    CountOfSplit(log, d, now - width, now);
  }

  lemma RetryFindsRoom(requests: seq<real>, log: seq<real>, now: real, width: real, retry: int)
    requires IsTail(requests, log, now - width) && Nondecreasing(log) && AllUpTo(log, now)
    requires requests != [] && requests[0] > now - width
    requires retry >= 1 && requests[0] + width - now <= retry as real
    requires retry > 1 ==> retry as real < requests[0] + width - now + 1.0
    ensures CountEnding(log, now + retry as real, width) < |requests|
    ensures retry > 1 ==> CountEnding(log, now + (retry - 1) as real, width) == |requests|
  {
    var d := |log| - |requests|;
    assert requests[0] == log[d];
    CountAtMost(log, d + 1, now + retry as real - width, now + retry as real);
    if retry > 1 {
      var earlier := now + (retry - 1) as real;
      CountOfSplit(log, d, earlier - width, earlier);
    }
  }

  lemma RoomIsCounted(log: seq<real>, now: real, width: real, limit: nat)
    ensures HasRoom(log, now, width, limit) <==> |InWindow(log, now - width, now)| < limit
  {
    CountIsExact(log, now - width, now);
  }

  lemma NextAttempt(attempts: seq<real>, now: real, width: real, limit: nat)
    requires Nondecreasing(attempts) && AllUpTo(attempts, now)
    ensures Nondecreasing(attempts + [now])
    ensures attempts != [] ==> attempts[|attempts| - 1] <= now
    ensures var log := AdmittedOf(attempts, width, limit);
      AdmittedOf(attempts + [now], width, limit) == if HasRoom(log, now, width, limit) then log + [now] else log
  {
    assert (attempts + [now])[..|attempts|] == attempts;
  }

  lemma NothingAdmitted(width: real, limit: nat, cutoff: real)
    ensures IsTail([], AdmittedOf([], width, limit), cutoff)
  {
  }

  lemma TailLater(requests: seq<real>, log: seq<real>, cutoff: real, later: real)
    requires IsTail(requests, log, cutoff) && cutoff <= later
    ensures IsTail(requests, log, later)
  {
  }

  lemma TailAtNow(attempts: seq<real>, requests: seq<real>, now: real, width: real, limit: nat)
    requires AllUpTo(attempts, now)
    requires if attempts == [] then requests == []
             else IsTail(requests, AdmittedOf(attempts, width, limit), attempts[|attempts| - 1] - width)
    ensures IsTail(requests, AdmittedOf(attempts, width, limit), now - width)
  {
    hide IsTail, AdmittedOf;
    if attempts == [] {
      NothingAdmitted(width, limit, now - width);
    } else {
      TailLater(requests, AdmittedOf(attempts, width, limit), attempts[|attempts| - 1] - width, now - width);
    }
  }

  // ------------------------------------------------------------------- class

  class HypixelKeyRateLimiter {
    const maxRequests: nat
    const windowSeconds: real
    var requests: seq<real>
    /** Every attempt so far. */
    ghost var attempts: seq<real>

    constructor (maxRequests: int, windowSeconds: int)
      ensures Valid() && attempts == []
      ensures this.maxRequests == if maxRequests < 1 then 1 else maxRequests
      ensures this.windowSeconds == (if windowSeconds < 1 then 1 else windowSeconds) as real
    {
      this.maxRequests := if maxRequests < 1 then 1 else maxRequests;
      this.windowSeconds := (if windowSeconds < 1 then 1 else windowSeconds) as real;
      requests, attempts := [], [];
    }

    ghost function Log(): seq<real>
      reads this
    {
      AdmittedOf(attempts, windowSeconds, maxRequests)
    }

    /** The deque is the log without requests that had left the window at the last attempt. */
    ghost predicate Valid()
      reads this
    {
      && maxRequests >= 1 && windowSeconds >= 1.0
      && Nondecreasing(attempts)
      && (if attempts == [] then requests == []
          else IsTail(requests, Log(), attempts[|attempts| - 1] - windowSeconds))
      && |requests| <= maxRequests
    }

    method PopExpired(cutoff: real, ghost log: seq<real>)
      requires IsTail(requests, log, cutoff)
      modifies this`requests
      ensures IsTail(requests, log, cutoff) && |requests| <= |old(requests)|
      ensures requests != [] ==> requests[0] > cutoff
    {
      hide IsTail;
      while requests != [] && requests[0] <= cutoff
        invariant IsTail(requests, log, cutoff) && |requests| <= |old(requests)|
      {
        TailShrinks(requests, log, cutoff);
        requests := requests[1..];
      }
    }

    method RetryAfter(now: real) returns (retry: int)
      requires requests != []
      ensures retry >= 1 && requests[0] + windowSeconds - now <= retry as real
      ensures retry > 1 ==> retry as real < requests[0] + windowSeconds - now + 1.0
    {
      retry := Ceil(requests[0] + windowSeconds - now);
      if retry < 1 { retry := 1; }
    }

    /** Decides as the reference does. A refusal comes with the shortest whole number of seconds, at
        least one, after which a request that nobody overtakes is admitted. */
    method Acquire(now: real) returns (outcome: Outcome)
      requires Valid() && AllUpTo(attempts, now)
      modifies this`requests, this`attempts
      ensures Valid() && attempts == old(attempts) + [now]
      ensures outcome.Admitted? <==> |InWindow(old(Log()), now - windowSeconds, now)| < maxRequests
      ensures Log() == if outcome.Admitted? then old(Log()) + [now] else old(Log())
      ensures outcome.Refused? ==>
                && outcome.retryAfter >= 1
                && HasRoom(Log(), now + outcome.retryAfter as real, windowSeconds, maxRequests)
                && (outcome.retryAfter > 1 ==>
                      !HasRoom(Log(), now + (outcome.retryAfter - 1) as real, windowSeconds, maxRequests))
    {
      hide HasRoom, AdmittedOf, IsTail, InWindow, AllUpTo, Nondecreasing;
      RoomIsCounted(Log(), now, windowSeconds, maxRequests);
      NextAttempt(attempts, now, windowSeconds, maxRequests);
      outcome := PopAndDecide(now);
    }

    /** The statements of an attempt. */
    method PopAndDecide(now: real) returns (outcome: Outcome)
      requires Valid() && AllUpTo(attempts, now)
      modifies this`requests, this`attempts
      ensures Valid() && attempts == old(attempts) + [now]
      ensures outcome.Admitted? <==> HasRoom(old(Log()), now, windowSeconds, maxRequests)
      ensures outcome.Refused? ==>
                && outcome.retryAfter >= 1
                && HasRoom(Log(), now + outcome.retryAfter as real, windowSeconds, maxRequests)
                && (outcome.retryAfter > 1 ==>
                      !HasRoom(Log(), now + (outcome.retryAfter - 1) as real, windowSeconds, maxRequests))
    {
      hide CountEnding, Nondecreasing, IsTail, AllUpTo, AdmittedOf, InWindow;
      ghost var log := Log();
      AdmittedInOrder(attempts, windowSeconds, maxRequests, now);
      NextAttempt(attempts, now, windowSeconds, maxRequests);
      TailAtNow(attempts, requests, now, windowSeconds, maxRequests);
      PopExpired(now - windowSeconds, log);
      TailIsWindow(requests, log, now, windowSeconds);
      if |requests| >= maxRequests {
        var retry := RetryAfter(now);
        RetryFindsRoom(requests, log, now, windowSeconds, retry);
        outcome := Refused(retry);
      } else {
        TailGrows(requests, log, now - windowSeconds, now);
        requests := requests + [now];
        outcome := Admitted;
      }
      attempts := attempts + [now];
    }
  }
}
