/** One consistent auction snapshot, fetched by a pool of workers that share a page iterator and a
    consume lock, and the retries around it. */
module SnapshotStream {
  import opened Options

  type Auction = int

  datatype Page = Page(number: nat, lastUpdated: int, auctions: seq<Auction>)

  datatype Failure = Drift | Upstream

  /** A worker between two awaits: about to take a page number, waiting for the response, waiting
      for the consume lock with a page in hand, inside `add_page`, or over. */
  datatype Worker =
    | Ready
    | Fetching(number: nat)
    | Waiting(page: Page)
    | Consuming(page: Page)
    | Finished
    | Stopped(lost: Option<nat>)

  /** `nextPage` is the shared iterator, `fetched` the page numbers requested so far, `consumed` what
      the consumer was given since its last reset, `failure` the first error a worker raised. */
  datatype Attempt = Attempt(
    totalPages: nat,
    lastUpdated: int,
    nextPage: nat,
    fetched: seq<nat>,
    workers: seq<Worker>,
    consumed: seq<Page>,
    totalAuctions: nat,
    failure: Option<Failure>)

  function Min(a: int, b: int): int {
    if a < b then a else b
  }

  /** After page 0 was fetched, consumed and dropped. */
  function Start(first: Page, totalPages: nat, maxParallelPages: nat): Attempt
    requires first.number == 0 && totalPages >= 1
  {
    var pool := if totalPages > 1 then Min(maxParallelPages, totalPages - 1) else 0;
    Attempt(totalPages, first.lastUpdated, 1, [0], seq(pool, i => Ready), [first], |first.auctions|, None)
  }

  // ------------------------------------------------------------------- steps

  datatype Event =
    | TakePage
    | Response(lastUpdated: int, auctions: seq<Auction>)
    | FetchError(failure: Failure)
    | AcquireLock
    | PageAdded
    | AddError
    | Cancel

  predicate SomeoneConsumes(a: Attempt) {
    exists v :: 0 <= v < |a.workers| && a.workers[v].Consuming?
  }

  predicate Enabled(a: Attempt, w: nat, e: Event) {
    && w < |a.workers|
    && match e
       case TakePage => a.workers[w].Ready?
       case Response(_, _) => a.workers[w].Fetching?
       case FetchError(_) => a.workers[w].Fetching?
       case AcquireLock => a.workers[w].Waiting? && !SomeoneConsumes(a)
       case PageAdded => a.workers[w].Consuming?
       case AddError => a.workers[w].Consuming?
       case Cancel => a.failure.Some? && (a.workers[w].Ready? || a.workers[w].Fetching? || a.workers[w].Waiting?)
  }

  function Put(a: Attempt, w: nat, worker: Worker): Attempt
    requires w < |a.workers|
  {
    a.(workers := a.workers[w := worker])
  }

  function Raise(a: Attempt, failure: Failure): Attempt {
    if a.failure.None? then a.(failure := Some(failure)) else a
  }

  /** The page a worker has taken and not handed over. */
  function PageOf(worker: Worker): Option<nat> {
    match worker
    case Fetching(number) => Some(number)
    case Waiting(page) => Some(page.number)
    case Consuming(page) => Some(page.number)
    case Stopped(lost) => lost
    case _ => None
  }

  function Step(a: Attempt, w: nat, e: Event): Attempt
    requires Enabled(a, w, e)
  {
    match e
    case TakePage =>
      if a.nextPage < a.totalPages
      then Put(a, w, Fetching(a.nextPage)).(nextPage := a.nextPage + 1, fetched := a.fetched + [a.nextPage])
      else Put(a, w, Finished)
    case Response(lastUpdated, auctions) =>
      var page := Page(a.workers[w].number, lastUpdated, auctions);
      if lastUpdated != a.lastUpdated then Raise(Put(a, w, Stopped(Some(page.number))), Drift)
      else Put(a, w, Waiting(page))
    case FetchError(failure) => Raise(Put(a, w, Stopped(Some(a.workers[w].number))), failure)
    case AcquireLock =>
      Put(a, w, Consuming(a.workers[w].page)).(totalAuctions := a.totalAuctions + |a.workers[w].page.auctions|)
    case PageAdded => Put(a, w, Ready).(consumed := a.consumed + [a.workers[w].page])
    case AddError => Raise(Put(a, w, Stopped(Some(a.workers[w].page.number))), Upstream)
    case Cancel => Put(a, w, Stopped(PageOf(a.workers[w])))
  }

  predicate Over(worker: Worker) {
    worker.Finished? || worker.Stopped?
  }

  /** The attempt returns normally: no worker raised and all of them ran out of pages. */
  predicate Returned(a: Attempt) {
    a.failure.None? && forall w <- a.workers :: w.Finished?
  }

  // -------------------------------------------------------------- invariants

  /** How many of the pages have a number. */
  function Copies(pages: seq<Page>, number: nat): nat {
    if pages == [] then 0
    else Copies(pages[..|pages| - 1], number) + (if pages[|pages| - 1].number == number then 1 else 0)
  }

  function Requests(fetched: seq<nat>, number: nat): nat {
    if fetched == [] then 0
    else Requests(fetched[..|fetched| - 1], number) + (if fetched[|fetched| - 1] == number then 1 else 0)
  }

  function Lengths(pages: seq<Page>): nat {
    if pages == [] then 0 else Lengths(pages[..|pages| - 1]) + |pages[|pages| - 1].auctions|
  }

  /** How many workers have taken a page number and not handed the page over. */
  function Takers(workers: seq<Worker>, number: nat): nat {
    if workers == [] then 0 else (if PageOf(workers[0]) == Some(number) then 1 else 0) + Takers(workers[1..], number)
  }

  /** Auctions of a page that is counted but not handed over yet. */
  function Counted(worker: Worker): nat {
    match worker
    case Consuming(page) => |page.auctions|
    case _ => 0
  }

  function AllCounted(workers: seq<Worker>): nat {
    if workers == [] then 0 else Counted(workers[0]) + AllCounted(workers[1..])
  }

  predicate IteratorInv(a: Attempt) {
    && 1 <= a.nextPage <= a.totalPages
    && (a.failure.None? ==> forall w <- a.workers :: !w.Stopped? && (w.Finished? ==> a.nextPage == a.totalPages))
  }

  /** A number the iterator has handed out was requested once, and its page is either consumed or
      with one worker; other numbers were not requested. */
  ghost predicate PageOnce(a: Attempt, number: nat) {
    && Requests(a.fetched, number) == (if number < a.nextPage then 1 else 0)
    && Copies(a.consumed, number) + Takers(a.workers, number) == (if number < a.nextPage then 1 else 0)
  }

  predicate SnapshotInv(a: Attempt) {
    && (forall page <- a.consumed :: page.lastUpdated == a.lastUpdated)
    && (forall w <- a.workers :: w.Waiting? || w.Consuming? ==> w.page.lastUpdated == a.lastUpdated)
  }

  predicate TotalInv(a: Attempt) {
    a.failure.None? ==> a.totalAuctions == Lengths(a.consumed) + AllCounted(a.workers)
  }

  predicate LockInv(a: Attempt) {
    forall v, w :: 0 <= v < |a.workers| && 0 <= w < |a.workers| && a.workers[v].Consuming? && a.workers[w].Consuming?
      ==> v == w
  }

  /** What every interleaving keeps. */
  ghost predicate Inv(a: Attempt) {
    IteratorInv(a) && (forall number: nat :: PageOnce(a, number)) && SnapshotInv(a) && TotalInv(a) && LockInv(a)
  }

  lemma {:induction false} WorkerUpdate(workers: seq<Worker>, w: nat, worker: Worker, number: nat)
    requires w < |workers|
    ensures Takers(workers[w := worker], number)
         == Takers(workers, number) - (if PageOf(workers[w]) == Some(number) then 1 else 0)
            + (if PageOf(worker) == Some(number) then 1 else 0)
    ensures AllCounted(workers[w := worker]) == AllCounted(workers) - Counted(workers[w]) + Counted(worker)
  {
    hide PageOf, Counted;
    var after := workers[w := worker];
    if w == 0 {
      assert after[1..] == workers[1..];
    } else {
      WorkerUpdate(workers[1..], w - 1, worker, number);
      assert after[1..] == workers[1..][w - 1 := worker];
    }
  }

  lemma {:induction false} NothingTaken(workers: seq<Worker>, number: nat)
    requires forall w <- workers :: w.Ready? || w.Finished?
    ensures Takers(workers, number) == 0 && AllCounted(workers) == 0
  {
    if workers != [] {
      NothingTaken(workers[1..], number);
    }
  }

  lemma StartInv(first: Page, totalPages: nat, maxParallelPages: nat)
    requires first.number == 0 && totalPages >= 1
    ensures Inv(Start(first, totalPages, maxParallelPages))
  {
    var a := Start(first, totalPages, maxParallelPages);
    assert a.consumed[..0] == [] && a.fetched[..0] == [];
    NothingTaken(a.workers, 0);
    forall number: nat ensures PageOnce(a, number) {
      NothingTaken(a.workers, number);
    }
  }

  lemma StepRequests(a: Attempt, w: nat, e: Event, number: nat)
    requires Enabled(a, w, e) && IteratorInv(a) && PageOnce(a, number)
    ensures var a' := Step(a, w, e); Requests(a'.fetched, number) == (if number < a'.nextPage then 1 else 0)
  {
    hide Takers, Copies, PageOf;
    var a' := Step(a, w, e);
    if e.TakePage? && a.nextPage < a.totalPages {
      assert a'.fetched[..|a.fetched|] == a.fetched;
    }
  }

  lemma StepPages(a: Attempt, w: nat, e: Event, number: nat)
    requires Enabled(a, w, e) && IteratorInv(a) && PageOnce(a, number)
    ensures var a' := Step(a, w, e);
      Copies(a'.consumed, number) + Takers(a'.workers, number) == (if number < a'.nextPage then 1 else 0)
  {
    hide Requests, Takers, AllCounted, Counted, IteratorInv;
    var a' := Step(a, w, e);
    assert a'.workers == a.workers[w := a'.workers[w]];
    WorkerUpdate(a.workers, w, a'.workers[w], number);
    if e.PageAdded? {
      assert a'.consumed[..|a.consumed|] == a.consumed;
    }
  }

  lemma StepPageOnce(a: Attempt, w: nat, e: Event, number: nat)
    requires Enabled(a, w, e) && IteratorInv(a) && PageOnce(a, number)
    ensures PageOnce(Step(a, w, e), number)
  {
    hide Step, Enabled;
    StepRequests(a, w, e, number);
    StepPages(a, w, e, number);
  }

  lemma StepTotal(a: Attempt, w: nat, e: Event)
    requires Enabled(a, w, e) && TotalInv(a)
    ensures TotalInv(Step(a, w, e))
  {
    hide Requests, Takers, Copies, AllCounted, PageOf;
    var a' := Step(a, w, e);
    assert a'.workers == a.workers[w := a'.workers[w]];
    WorkerUpdate(a.workers, w, a'.workers[w], 0);
    if e.PageAdded? {
      assert a'.consumed[..|a.consumed|] == a.consumed;
    }
  }

  lemma StepInv(a: Attempt, w: nat, e: Event)
    requires Inv(a) && Enabled(a, w, e)
    ensures Inv(Step(a, w, e))
    ensures var a' := Step(a, w, e);
            a'.totalPages == a.totalPages && a'.lastUpdated == a.lastUpdated && |a'.workers| == |a.workers|
  {
    hide PageOnce, TotalInv;
    forall number: nat ensures PageOnce(Step(a, w, e), number) {
      StepPageOnce(a, w, e, number);
    }
    StepTotal(a, w, e);
  }

  datatype Move = Move(worker: nat, event: Event)

  /** The interleavings of an attempt: any enabled event of any worker, in any order. */
  ghost predicate Interleaving(a: Attempt, moves: seq<Move>, end: Attempt)
    decreases |moves|
  {
    if moves == [] then a == end
    else
      && Enabled(a, moves[0].worker, moves[0].event)
      && Interleaving(Step(a, moves[0].worker, moves[0].event), moves[1..], end)
  }

  lemma {:induction false} InterleavingInv(a: Attempt, moves: seq<Move>, end: Attempt)
    requires Inv(a) && Interleaving(a, moves, end)
    ensures Inv(end) && end.totalPages == a.totalPages && |end.workers| == |a.workers|
    ensures end.lastUpdated == a.lastUpdated
    decreases |moves|
  {
    hide Inv, Enabled;
    if moves != [] {
      StepInv(a, moves[0].worker, moves[0].event);
      InterleavingInv(Step(a, moves[0].worker, moves[0].event), moves[1..], end);
    }
  }

  /** The error an event is for its worker, in an attempt whose page 0 had the given time. */
  function FailureOf(e: Event, lastUpdated: int): Option<Failure> {
    match e
    case Response(seen, _) => if seen == lastUpdated then None else Some(Drift)
    case FetchError(failure) => Some(failure)
    case AddError => Some(Upstream)
    case _ => None
  }

  predicate NoFailure(moves: seq<Move>, lastUpdated: int) {
    forall move <- moves :: FailureOf(move.event, lastUpdated) == None
  }

  ghost predicate FailsFirst(moves: seq<Move>, lastUpdated: int, failure: Failure) {
    exists k :: 0 <= k < |moves| && FailureOf(moves[k].event, lastUpdated) == Some(failure) && NoFailure(moves[..k], lastUpdated)
  }

  lemma StepFailure(a: Attempt, w: nat, e: Event)
    requires Enabled(a, w, e)
    ensures var a' := Step(a, w, e);
      && a'.lastUpdated == a.lastUpdated
      && a'.failure == if a.failure.Some? then a.failure else FailureOf(e, a.lastUpdated)
  {
  }

  lemma {:induction false} FailureStays(a: Attempt, moves: seq<Move>, end: Attempt)
    requires Interleaving(a, moves, end) && a.failure.Some?
    ensures end.failure == a.failure
    decreases |moves|
  {
    hide Step, Enabled;
    if moves != [] {
      StepFailure(a, moves[0].worker, moves[0].event);
      FailureStays(Step(a, moves[0].worker, moves[0].event), moves[1..], end);
    }
  }

  /** In every interleaving the first error decides: a page of another snapshot ends the attempt with
      drift, a failed fetch with its own error, a failed hand-over with an upstream error; and without
      any of these there is no failure. */
  lemma {:induction false} FirstErrorDecides(a: Attempt, moves: seq<Move>, end: Attempt)
    requires Interleaving(a, moves, end) && a.failure.None?
    ensures end.failure.None? <==> NoFailure(moves, a.lastUpdated)
    ensures end.failure.Some? ==> FailsFirst(moves, a.lastUpdated, end.failure.value)
    ensures forall failure :: FailsFirst(moves, a.lastUpdated, failure) ==> end.failure == Some(failure)
    decreases |moves|
  {
    hide Step, Enabled, FailureOf;
    if moves != [] {
      var w, e := moves[0].worker, moves[0].event;
      var a' := Step(a, w, e);
      StepFailure(a, w, e);
      assert moves == [moves[0]] + moves[1..];
      if a'.failure.Some? {
        FailureStays(a', moves[1..], end);
        assert NoFailure(moves[..0], a.lastUpdated);
      } else {
        FirstErrorDecides(a', moves[1..], end);
        LaterFailure(moves, a.lastUpdated);
      }
    }
  }

  lemma LaterFailure(moves: seq<Move>, lastUpdated: int)
    requires moves != [] && FailureOf(moves[0].event, lastUpdated) == None
    ensures forall failure :: FailsFirst(moves, lastUpdated, failure) <==> FailsFirst(moves[1..], lastUpdated, failure)
  {
    hide FailureOf;
    forall failure
      ensures FailsFirst(moves, lastUpdated, failure) <==> FailsFirst(moves[1..], lastUpdated, failure)
    {
      if FailsFirst(moves, lastUpdated, failure) {
        var k :| 0 <= k < |moves| && FailureOf(moves[k].event, lastUpdated) == Some(failure) && NoFailure(moves[..k], lastUpdated);
        assert moves[..k] == [moves[0]] + moves[1..][..k - 1];
        assert moves[1..][k - 1] == moves[k];
      }
      if FailsFirst(moves[1..], lastUpdated, failure) {
        var k :| 0 <= k < |moves| - 1 && FailureOf(moves[1..][k].event, lastUpdated) == Some(failure)
          && NoFailure(moves[1..][..k], lastUpdated);
        assert moves[..k + 1] == [moves[0]] + moves[1..][..k];
        assert moves[k + 1] == moves[1..][k];
      }
    }
  }

  predicate PagesFrom(a: Attempt, received: iset<(int, seq<Auction>)>) {
    && (forall page <- a.consumed :: (page.lastUpdated, page.auctions) in received)
    && (forall w <- a.workers :: w.Waiting? || w.Consuming? ==> (w.page.lastUpdated, w.page.auctions) in received)
  }

  lemma {:induction false} InterleavingPages(a: Attempt, moves: seq<Move>, end: Attempt, received: iset<(int, seq<Auction>)>)
    requires Interleaving(a, moves, end) && PagesFrom(a, received)
    requires forall move <- moves :: move.event.Response? ==> (move.event.lastUpdated, move.event.auctions) in received
    ensures PagesFrom(end, received)
    decreases |moves|
  {
    if moves != [] {
      assert moves[0] in moves;
      InterleavingPages(Step(a, moves[0].worker, moves[0].event), moves[1..], end, received);
    }
  }

  /** Whatever is consumed is page 0 or came, with just these auctions, in some response. */
  lemma ConsumedWasReceived(first: Page, totalPages: nat, maxParallelPages: nat, moves: seq<Move>, end: Attempt, page: Page)
    requires first.number == 0 && totalPages >= 1
    requires Interleaving(Start(first, totalPages, maxParallelPages), moves, end) && page in end.consumed
    ensures (page.lastUpdated == first.lastUpdated && page.auctions == first.auctions)
         || exists w :: Move(w, Response(page.lastUpdated, page.auctions)) in moves
  {
    hide Interleaving;
    var received := iset lastUpdated, auctions |
      || (lastUpdated == first.lastUpdated && auctions == first.auctions)
      || exists w :: Move(w, Response(lastUpdated, auctions)) in moves
      :: (lastUpdated, auctions);
    forall move <- moves | move.event.Response?
      ensures (move.event.lastUpdated, move.event.auctions) in received
    {
      assert move == Move(move.worker, Response(move.event.lastUpdated, move.event.auctions));
    }
    InterleavingPages(Start(first, totalPages, maxParallelPages), moves, end, received);
    assert (page.lastUpdated, page.auctions) in received;
  }

  /** Every page of the snapshot requested once and consumed exactly once, all from page 0's
      snapshot, all counted. */
  ghost predicate Complete(a: Attempt) {
    && (forall number: nat :: EachOnce(a, number))
    && (forall page <- a.consumed :: page.lastUpdated == a.lastUpdated)
    && a.totalAuctions == Lengths(a.consumed)
  }

  predicate EachOnce(a: Attempt, number: nat) {
    Requests(a.fetched, number) == Copies(a.consumed, number) == if number < a.totalPages then 1 else 0
  }

  /** In every interleaving, an attempt that returns normally is complete exactly when the pool has
      a worker or there is nothing but page 0. */
  lemma ReturnedIsComplete(first: Page, totalPages: nat, maxParallelPages: nat, moves: seq<Move>, end: Attempt)
    requires first.number == 0 && totalPages >= 1
    requires Interleaving(Start(first, totalPages, maxParallelPages), moves, end) && Returned(end)
    ensures Complete(end) <==> maxParallelPages >= 1 || totalPages == 1
  {
    hide Interleaving, PageOnce;
    var start := Start(first, totalPages, maxParallelPages);
    StartInv(first, totalPages, maxParallelPages);
    InterleavingInv(start, moves, end);
    NothingTaken(end.workers, 0);
    if maxParallelPages >= 1 || totalPages == 1 {
      assert totalPages > 1 ==> end.workers[0] in end.workers;
      forall number: nat ensures EachOnce(end, number) {
        ReturnedPage(end, number);
      }
    } else {
      NoWorkersNoPages(start, moves, end);
      assert PageOnce(end, 1);
      ReturnedPage(end, 1);
      assert !EachOnce(end, 1);
    }
  }

  lemma ReturnedPage(end: Attempt, number: nat)
    requires Returned(end) && PageOnce(end, number)
    ensures Copies(end.consumed, number) == Requests(end.fetched, number) == if number < end.nextPage then 1 else 0
  {
    NothingTaken(end.workers, number);
  }

  lemma NoWorkersNoPages(a: Attempt, moves: seq<Move>, end: Attempt)
    requires a.workers == [] && Interleaving(a, moves, end)
    ensures end == a
  {
  }

  /** The workers that hold a page in memory: fetched and not handed over. */
  function HoldAPage(workers: seq<Worker>): set<int> {
    set w | 0 <= w < |workers| && (workers[w].Waiting? || workers[w].Consuming?)
  }

  lemma {:induction false} EachHoldsOne(workers: seq<Worker>)
    ensures |HoldAPage(workers)| <= |workers|
  {
    if workers == [] {
      assert HoldAPage(workers) == {};
    } else {
      var n := |workers| - 1;
      EachHoldsOne(workers[..n]);
      assert HoldAPage(workers) == HoldAPage(workers[..n]) + (if workers[n].Waiting? || workers[n].Consuming? then {n} else {});
    }
  }

  /** How far an attempt has come: page 0 is held only until it was consumed, before the pool starts. */
  datatype Progress =
    | FetchingFirst
    | ConsumingFirst(first: Page, totalPages: nat)
    | Streaming(attempt: Attempt)

  function PagesInMemory(p: Progress): nat {
    match p
    case FetchingFirst => 0
    case ConsumingFirst(_, _) => 1
    case Streaming(a) => |HoldAPage(a.workers)|
  }

  ghost predicate Reached(p: Progress, maxParallelPages: nat) {
    match p
    case FetchingFirst => true
    case ConsumingFirst(first, totalPages) => first.number == 0 && totalPages >= 1
    case Streaming(a) =>
      exists first: Page, totalPages: nat, moves ::
        first.number == 0 && totalPages >= 1 && Interleaving(Start(first, totalPages, maxParallelPages), moves, a)
  }

  lemma StreamingMemory(first: Page, totalPages: nat, maxParallelPages: nat, moves: seq<Move>, end: Attempt)
    requires first.number == 0 && totalPages >= 1
    requires Interleaving(Start(first, totalPages, maxParallelPages), moves, end)
    ensures |HoldAPage(end.workers)| <= maxParallelPages
  {
    EachHoldsOne(end.workers);
    StartInv(first, totalPages, maxParallelPages);
    InterleavingInv(Start(first, totalPages, maxParallelPages), moves, end);
  }

  /** At no moment of an attempt, page 0 included, are more pages in memory than the configured
      parallelism, if and only if that is at least one. */
  lemma MemoryIsBounded(maxParallelPages: nat)
    ensures (forall p :: Reached(p, maxParallelPages) ==> PagesInMemory(p) <= maxParallelPages) <==> maxParallelPages >= 1
  {
    hide Interleaving, Start;
    if maxParallelPages >= 1 {
      forall p | Reached(p, maxParallelPages) ensures PagesInMemory(p) <= maxParallelPages {
        if p.Streaming? {
          var first: Page, totalPages: nat, moves :|
            first.number == 0 && totalPages >= 1
            && Interleaving(Start(first, totalPages, maxParallelPages), moves, p.attempt);
          StreamingMemory(first, totalPages, maxParallelPages, moves, p.attempt);
        }
      }
    } else {
      var p := ConsumingFirst(Page(0, 0, []), 1);
      assert Reached(p, maxParallelPages) && PagesInMemory(p) == 1;
    }
  }

  // ----------------------------------------------------------------- retries

  /** How one attempt went: page 0 could not be had, or the workers ran until all were over. */
  datatype Outcome =
    | NoFirstPage
    | Ran(first: Page, totalPages: nat, moves: seq<Move>, end: Attempt)

  ghost predicate Possible(outcome: Outcome, maxParallelPages: nat) {
    outcome.Ran? ==>
      && outcome.first.number == 0 && outcome.totalPages >= 1
      && Interleaving(Start(outcome.first, outcome.totalPages, maxParallelPages), outcome.moves, outcome.end)
      && (forall w <- outcome.end.workers :: Over(w))
  }

  /** Workers that are all over without an error have all finished. */
  lemma OverIsReturned(outcome: Outcome, maxParallelPages: nat)
    requires Possible(outcome, maxParallelPages) && outcome.Ran? && outcome.end.failure.None?
    ensures Returned(outcome.end)
    ensures outcome.end.totalPages == outcome.totalPages && outcome.end.lastUpdated == outcome.first.lastUpdated
    ensures outcome.end.totalAuctions == Lengths(outcome.end.consumed)
  {
    hide PageOnce, Interleaving;
    StartInv(outcome.first, outcome.totalPages, maxParallelPages);
    InterleavingInv(Start(outcome.first, outcome.totalPages, maxParallelPages), outcome.moves, outcome.end);
    NothingTaken(outcome.end.workers, 0);
  }

  /** What an attempt hands to the consumer. */
  function PagesOf(outcome: Outcome): seq<Page> {
    if outcome.Ran? then outcome.end.consumed else []
  }

  /** The first error of the attempt was drift: a page of another snapshot, or a fetch that reported it. */
  ghost predicate Drifted(outcome: Outcome) {
    outcome.Ran? && FailsFirst(outcome.moves, outcome.first.lastUpdated, Drift)
  }

  lemma OutcomeFailure(outcome: Outcome, maxParallelPages: nat)
    requires Possible(outcome, maxParallelPages) && outcome.Ran?
    ensures outcome.end.failure == Some(Drift) <==> Drifted(outcome)
    ensures outcome.end.failure.None? <==> NoFailure(outcome.moves, outcome.first.lastUpdated)
  {
    hide Interleaving;
    FirstErrorDecides(Start(outcome.first, outcome.totalPages, maxParallelPages), outcome.moves, outcome.end);
  }

  datatype Result = Summary(totalPages: nat, lastUpdated: int, totalAuctions: nat) | UpstreamError

  class AuctionClient {
    const snapshotRetries: nat
    const maxParallelPages: nat
    /** What the page consumer holds. */
    var consumerPages: seq<Page>
    var attemptsMade: nat

    constructor (snapshotRetries: nat, maxParallelPages: nat)
      ensures this.snapshotRetries == snapshotRetries && this.maxParallelPages == maxParallelPages
    {
      this.snapshotRetries, this.maxParallelPages := snapshotRetries, maxParallelPages;
      consumerPages, attemptsMade := [], 0;
    }

    /** `outcomes` says how each attempt would go. Only drift is retried, the consumer is reset before
        every attempt, and a summary describes exactly the pages the consumer is left with. */
    method StreamSnapshot(outcomes: seq<Outcome>) returns (r: Result)
      requires |outcomes| >= snapshotRetries
      requires forall o <- outcomes :: Possible(o, maxParallelPages)
      modifies this
      ensures attemptsMade <= snapshotRetries
      ensures forall i :: 0 <= i < attemptsMade - 1 ==> Drifted(outcomes[i])
      ensures attemptsMade < snapshotRetries ==> attemptsMade > 0 && !Drifted(outcomes[attemptsMade - 1])
      ensures r.Summary? <==>
        attemptsMade > 0 && outcomes[attemptsMade - 1].Ran?
        && NoFailure(outcomes[attemptsMade - 1].moves, outcomes[attemptsMade - 1].first.lastUpdated)
      ensures attemptsMade > 0 ==> consumerPages == PagesOf(outcomes[attemptsMade - 1])
      ensures r.Summary? ==>
        var last := outcomes[attemptsMade - 1];
        r == Summary(last.totalPages, last.first.lastUpdated, Lengths(consumerPages))
      ensures r.Summary? && maxParallelPages >= 1 ==>
        && (forall number: nat :: Copies(consumerPages, number) == if number < r.totalPages then 1 else 0)
        && forall page <- consumerPages :: page.lastUpdated == r.lastUpdated
    {
      attemptsMade := 0;
      while attemptsMade < snapshotRetries
        invariant attemptsMade <= snapshotRetries
        invariant forall i :: 0 <= i < attemptsMade ==> Drifted(outcomes[i])
        invariant attemptsMade > 0 ==> consumerPages == PagesOf(outcomes[attemptsMade - 1])
      {
        var outcome := outcomes[attemptsMade];
        assert outcome in outcomes;
        attemptsMade := attemptsMade + 1;
        consumerPages := [];
        if outcome.NoFirstPage? {
          return UpstreamError;
        }
        hide FailsFirst, NoFailure;
        OutcomeFailure(outcome, maxParallelPages);
        var end := outcome.end;
        consumerPages := consumerPages + end.consumed;
        if end.failure.None? {
          OverIsReturned(outcome, maxParallelPages);
          ReturnedIsComplete(outcome.first, outcome.totalPages, maxParallelPages, outcome.moves, end);
          forall number: nat | maxParallelPages >= 1
            ensures Copies(end.consumed, number) == if number < end.totalPages then 1 else 0
          {
            assert EachOnce(end, number);
          }
          return Summary(end.totalPages, end.lastUpdated, end.totalAuctions);
        }
        if end.failure != Some(Drift) {
          return UpstreamError;
        }
      }
      r := UpstreamError;
    }
  }
}
