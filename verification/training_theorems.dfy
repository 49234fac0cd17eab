/** Incremental maintenance of the case table equals a replay of the surviving uploads. */
module TrainingTheorems {
  import opened Options
  import opened Sets
  import opened TrainingTables

  // ------------------------------------------------------------------ framing

  lemma EarliestIsUnique(uploads: map<int, Upload>, s: set<int>, u: int)
    requires s != {} && s <= uploads.Keys && IsEarliest(uploads, s, u)
    ensures Earliest(uploads, s) == u
  {
  }

  lemma LatestIsUnique(uploads: map<int, Upload>, s: set<int>, u: int)
    requires s != {} && s <= uploads.Keys && IsLatest(uploads, s, u)
    ensures Latest(uploads, s) == u
  {
  }

  /** A case is derived the same way as long as its holders and what they say stay the same. */
  lemma SameDerived(t: Tables, t': Tables, c: string)
    requires Holders(t, c) == Holders(t', c) != {}
    requires forall u <- Holders(t, c) ::
      t.uploads[u].(duplicateOf := None) == t'.uploads[u].(duplicateOf := None) && t.index[(u, c)] == t'.index[(u, c)]
    ensures Derived(t, c) == Derived(t', c)
  {
    EarliestIsUnique(t'.uploads, Holders(t, c), Earliest(t.uploads, Holders(t, c)));
    LatestIsUnique(t'.uploads, Holders(t, c), Latest(t.uploads, Holders(t, c)));
  }

  lemma SameAgreement(t: Tables, t': Tables, c: string)
    requires Agrees(t, c)
    requires Holders(t, c) == Holders(t', c)
    requires forall u <- Holders(t, c) ::
      t.uploads[u].(duplicateOf := None) == t'.uploads[u].(duplicateOf := None) && t.index[(u, c)] == t'.index[(u, c)]
    requires c in t'.cases <==> c in t.cases
    requires c in t.cases ==> t'.cases[c] == t.cases[c].(status := t'.cases[c].status)
    ensures Agrees(t', c)
  {
    if Holders(t, c) != {} { SameDerived(t, t', c); }
  }

  // --------------------------------------------------- facts kept by every run

  /** Every stored source is a surviving upload. */
  ghost predicate SourcesValid(t: Tables) {
    forall c <- t.cases :: t.cases[c].source.Some? ==> t.cases[c].source.value in t.uploads
  }

  /** What holds whatever the order of ingests. */
  ghost predicate Base(t: Tables) {
    IndexValid(t) && TombstonesValid(t) && DuplicatesValid(t) && SourcesValid(t)
  }

  lemma InsertKeepsBase(t: Tables, owner: Owner, createdAt: int, path: string, hash: int)
    requires Base(t)
    ensures Base(Insert(t, owner, createdAt, path, hash))
  {
    var t' := Insert(t, owner, createdAt, path, hash);
    forall u <- t'.uploads | t'.uploads[u].duplicateOf.Some?
      ensures t'.uploads[u].duplicateOf == Smallest(WithHash(t'.uploads, t'.uploads[u].payloadHash))
    {
      var h := t'.uploads[u].payloadHash;
      var before := WithHash(t.uploads, h);
      assert t'.uploads[u].duplicateOf == Smallest(before);
      assert WithHash(t'.uploads, h) == before + (if h == hash then {t.nextId} else {});
    }
  }

  lemma {:induction false} KeptIsKept(t: Tables, ps: seq<Payload>)
    ensures forall p <- Kept(t, ps) :: !Skipped(t, p.caseId) && p in ps
    ensures forall p <- ps :: !Skipped(t, p.caseId) ==> p in Kept(t, ps)
  {
    if ps != [] {
      KeptIsKept(t, ps[..|ps| - 1]);
      assert ps == ps[..|ps| - 1] + [ps[|ps| - 1]];
    }
  }

  lemma IngestKeepsBase(t: Tables, t': Tables, owner: Owner, id: int, ps: seq<Payload>)
    requires Base(t) && (ps != [] ==> id in t.uploads)
    requires forall c <- CaseIds(ps) :: !Skipped(t, c)
    requires IngestedAs(t, t', owner, id, ps)
    ensures Base(t')
  {
  }

  /** A tombstone is nobody's case: no purge touches it. */
  lemma TombstoneIsUnaffected(t: Tables, userId: int, ids: set<int>, c: string)
    requires TombstonesValid(t) && c in t.cases && t.cases[c].contentDeleted
    ensures c !in Affected(t, userId, ids)
  {
    assert Unindexed(t, c);
  }

  lemma RepointedPointsToSmallest(t: Tables, ids: set<int>, u: int)
    requires DuplicatesValid(t) && ids <= t.uploads.Keys && u in t.uploads && u !in ids
    ensures var t' := WithoutUploads(t, ids);
            t'.uploads[u].duplicateOf.Some? ==>
              t'.uploads[u].duplicateOf == Smallest(WithHash(t'.uploads, t'.uploads[u].payloadHash))
  {
    var t' := WithoutUploads(t, ids);
    var h := t.uploads[u].payloadHash;
    assert WithHash(t'.uploads, h) == WithHash(t.uploads, h) - ids;
    var was := t.uploads[u].duplicateOf;
    if was.Some? {
      assert was.value in WithHash(t.uploads, h);
      assert was.value !in ids ==> IsSmallest(WithHash(t.uploads, h) - ids, was.value);
    }
  }

  lemma PurgeKeepsBase(t: Tables, userId: int, ids: set<int>)
    requires Base(t) && ids <= t.uploads.Keys
    ensures Base(Purged(t, userId, ids))
  {
    var t1 := WithoutUploads(t, ids);
    var t' := Purged(t, userId, ids);
    forall u | u in t'.uploads && t'.uploads[u].duplicateOf.Some?
      ensures t'.uploads[u].duplicateOf == Smallest(WithHash(t'.uploads, t'.uploads[u].payloadHash))
    {
      RepointedPointsToSmallest(t, ids, u);
    }
    assert DuplicatesValid(t');
    var affected := Affected(t, userId, ids);
    forall c <- t'.cases
      ensures t'.cases[c].source.Some? ==> t'.cases[c].source.value in t'.uploads
      ensures t'.cases[c].contentDeleted ==> IsTombstone(t'.cases[c]) && Unindexed(t', c)
    {
      if c in t.cases && t.cases[c].contentDeleted {
        TombstoneIsUnaffected(t, userId, ids, c);
      }
    }
  }

  lemma ContentDeletedKeepsBase(t: Tables)
    requires Base(t)
    ensures Base(ContentDeleted(t))
  {
  }

  // ---------------------------------------------- agreement with the replay

  ghost predicate AllAgree(t: Tables) {
    forall c: string :: Agrees(t, c)
  }

  lemma InsertKeepsAgreement(t: Tables, owner: Owner, createdAt: int, path: string, hash: int)
    requires Base(t) && AllAgree(t)
    ensures AllAgree(Insert(t, owner, createdAt, path, hash))
  {
    var t' := Insert(t, owner, createdAt, path, hash);
    forall c: string ensures Agrees(t', c) {
      assert Agrees(t, c);
      assert Holders(t', c) == Holders(t, c);
      SameAgreement(t, t', c);
    }
  }

  /** No surviving upload that comes later in `(created_at, id)` order holds one of the cases. */
  predicate InOrder(t: Tables, id: int, ps: seq<Payload>)
    requires id in t.uploads
  {
    forall c <- CaseIds(ps) :: forall u <- Holders(t, c) :: u == id || Before(t.uploads, u, id)
  }

  lemma IngestHolders(t: Tables, t': Tables, owner: Owner, id: int, ps: seq<Payload>, c: string)
    requires IngestedAs(t, t', owner, id, ps) && id in t.uploads
    ensures Holders(t', c) == Holders(t, c) + (if c in CaseIds(ps) then {id} else {})
  {
  }

  lemma IngestedCaseAgrees(t: Tables, t': Tables, owner: Owner, id: int, ps: seq<Payload>, c: string)
    requires Base(t) && Agrees(t, c) && id in t.uploads && t.uploads[id].owner == owner
    requires c in CaseIds(ps) && !Skipped(t, c)
    requires IngestedAs(t, t', owner, id, ps)
    ensures Agrees(t', c) <==> forall u <- Holders(t, c) :: u == id || Before(t.uploads, u, id)
  {
    IngestHolders(t, t', owner, id, ps, c);
    var before, after := Holders(t, c), Holders(t', c);
    assert id in after;
    var last := Latest(t'.uploads, after);
    if before == {} {
      assert after == {id};
    } else {
      assert c in t.cases && !t.cases[c].contentDeleted;
      var first, first' := Earliest(t.uploads, before), Earliest(t'.uploads, after);
      if forall u <- before :: u == id || Before(t.uploads, u, id) {
        assert last == id;
        assert first' == first;
      } else {
        assert last != id;
        assert t'.cases[c].source == Some(id);
      }
    }
  }

  /** An ingest keeps the case table equal to the replay if and only if it is in order: no later
      surviving upload already holds one of the cases it brings. */
  lemma IngestAgreesExactlyInOrder(t: Tables, t': Tables, owner: Owner, id: int, ps: seq<Payload>)
    requires Base(t) && AllAgree(t) && id in t.uploads && t.uploads[id].owner == owner
    requires forall c <- CaseIds(ps) :: !Skipped(t, c)
    requires IngestedAs(t, t', owner, id, ps)
    ensures AllAgree(t') <==> InOrder(t, id, ps)
  {
    forall c: string
      ensures c in CaseIds(ps) ==> (Agrees(t', c) <==> forall u <- Holders(t, c) :: u == id || Before(t.uploads, u, id))
      ensures c !in CaseIds(ps) ==> Agrees(t', c)
    {
      assert Agrees(t, c);
      if c in CaseIds(ps) {
        IngestedCaseAgrees(t, t', owner, id, ps, c);
      } else {
        IngestHolders(t, t', owner, id, ps, c);
        SameAgreement(t, t', c);
      }
    }
  }

  lemma PurgeHolders(t: Tables, userId: int, ids: set<int>, c: string)
    requires ids <= t.uploads.Keys
    ensures Holders(Purged(t, userId, ids), c) == Holders(t, c) - ids
  {
  }

  lemma PurgedCaseAgrees(t: Tables, userId: int, ids: set<int>, c: string)
    requires Base(t) && ids <= t.uploads.Keys && Agrees(t, c)
    ensures Agrees(Purged(t, userId, ids), c)
  {
    var affected := Affected(t, userId, ids);
    var t1, t' := WithoutUploads(t, ids), Purged(t, userId, ids);
    PurgeHolders(t, userId, ids, c);
    if c in affected {
      if Holders(t1, c) != {} {
        SameDerived(t1, t', c);
        if c in t.cases && t.cases[c].contentDeleted {
          TombstoneIsUnaffected(t, userId, ids, c);
          assert false;
        }
      }
    } else {
      assert forall u <- Holders(t, c) :: u !in ids by {
        forall u <- Holders(t, c) ensures u !in ids {
          assert (u, c) in t.index;
        }
      }
      SameAgreement(t, t', c);
    }
  }

  /** Rebuilding only the affected cases is as good as rebuilding all of them. */
  lemma PurgeKeepsAgreement(t: Tables, userId: int, ids: set<int>)
    requires Base(t) && AllAgree(t) && ids <= t.uploads.Keys
    ensures AllAgree(Purged(t, userId, ids))
  {
    forall c: string ensures Agrees(Purged(t, userId, ids), c) {
      assert Agrees(t, c);
      PurgedCaseAgrees(t, userId, ids, c);
    }
  }

  /** A row, or its absence, is as before. */
  predicate Same<K, V(==)>(before: map<K, V>, after: map<K, V>, key: K) {
    if key in before then key in after && after[key] == before[key] else key !in after
  }

  /** The cases that a purge of a user's uploads concerns: a purged upload holds them, their source is
      purged, or the user or a client identity linked to the user created them. */
  predicate Concerned(t: Tables, userId: int, ids: set<int>, c: string) {
    || (exists u <- ids :: (u, c) in t.index)
    || (c in t.cases &&
          var row := t.cases[c];
          || (row.source.Some? && row.source.value in ids)
          || row.creator.userId == Some(userId)
          || (row.creator.clientId.Some? && row.creator.clientId.value in t.linkedUser
              && t.linkedUser[row.creator.clientId.value] == userId))
  }

  lemma AffectedIsConcerned(t: Tables, userId: int, ids: set<int>, c: string)
    ensures c in Affected(t, userId, ids) <==> Concerned(t, userId, ids, c)
  {
    if u :| u in ids && (u, c) in t.index {
      assert (u, c).0 in ids && (u, c).1 == c;
    }
    if k :| k in t.index && k.0 in ids && k.1 == c {
      var u := k.0;
      assert k == (u, c) && u in ids;
    }
    assert c in CreatedBy(t, userId) <==> c in t.cases && OwnedBy(t, t.cases[c].creator, userId);
  }

  /** A purge leaves every other case alone, status included. */
  lemma PurgeLeavesOthers(t: Tables, userId: int, ids: set<int>, c: string)
    requires ids <= t.uploads.Keys && !Concerned(t, userId, ids, c)
    ensures Same(t.cases, Purged(t, userId, ids).cases, c)
  {
    AffectedIsConcerned(t, userId, ids, c);
    hide Affected, OwnedBy, Derived, Repointed, CreatedBy;
    assert Concerned(t, userId, ids, c) || c !in t.cases || t.cases[c].source.None? || t.cases[c].source.value !in ids;
  }

  /** A concerned case is gone if no surviving upload holds it, and otherwise submitted again. */
  lemma PurgeRemovesOrResubmits(t: Tables, userId: int, ids: set<int>, c: string)
    requires ids <= t.uploads.Keys && Concerned(t, userId, ids, c)
    ensures var t' := Purged(t, userId, ids);
      && (c in t'.cases <==> exists v <- t.uploads :: v !in ids && (v, c) in t.index)
      && (c in t'.cases ==> t'.cases[c].status == Submitted)
  {
    AffectedIsConcerned(t, userId, ids, c);
    hide Affected, OwnedBy, Derived, Repointed, Concerned;
    var t1 := WithoutUploads(t, ids);
    assert forall v: int :: v in Holders(t1, c) <==> v in t.uploads && v !in ids && (v, c) in t.index;
    assert Holders(t1, c) != {} <==> exists v <- t.uploads :: v !in ids && (v, c) in t.index by {
      if Holders(t1, c) != {} { var v := AnElement(Holders(t1, c)); }
    }
  }

  /** It is created by the owner of the first surviving upload that holds it, with the content and
      source of the last. */
  lemma PurgeRederives(t: Tables, userId: int, ids: set<int>, c: string, first: int, last: int)
    requires ids <= t.uploads.Keys && Concerned(t, userId, ids, c)
    requires first in t.uploads && first !in ids && (first, c) in t.index
    requires last in t.uploads && last !in ids && (last, c) in t.index
    requires forall v <- t.uploads :: v !in ids && (v, c) in t.index && v != first ==>
      t.uploads[first].createdAt < t.uploads[v].createdAt || (t.uploads[first].createdAt == t.uploads[v].createdAt && first < v)
    requires forall v <- t.uploads :: v !in ids && (v, c) in t.index && v != last ==>
      t.uploads[v].createdAt < t.uploads[last].createdAt || (t.uploads[v].createdAt == t.uploads[last].createdAt && v < last)
    ensures c in Purged(t, userId, ids).cases
    ensures Purged(t, userId, ids).cases[c]
         == CaseRow(t.uploads[first].owner, Some(last), Submitted, t.index[(last, c)],
                    c in t.cases && t.cases[c].contentDeleted)
  {
    AffectedIsConcerned(t, userId, ids, c);
    hide Affected, OwnedBy, Repointed, Earliest, Latest, Concerned;
    var t1 := WithoutUploads(t, ids);
    assert forall v: int :: v in Holders(t1, c) <==> v in t.uploads && v !in ids && (v, c) in t.index;
    EarliestIsUnique(t1.uploads, Holders(t1, c), first);
    LatestIsUnique(t1.uploads, Holders(t1, c), last);
  }

  lemma ContentDeletedKeepsAgreement(t: Tables)
    requires Base(t) && AllAgree(t)
    ensures AllAgree(ContentDeleted(t))
  {
    var t' := ContentDeleted(t);
    forall c: string ensures Agrees(t', c) {
      assert Agrees(t, c);
      if c in t.cases && Doomed(t.cases[c]) {
        assert Holders(t', c) == {};
      } else {
        assert Holders(t', c) == Holders(t, c);
        SameAgreement(t, t', c);
      }
    }
  }

  lemma StatusSetKeepsAgreement(t: Tables, c: string, status: Status)
    requires Base(t) && AllAgree(t)
    ensures AllAgree(StatusSet(t, c, status))
  {
    var t' := StatusSet(t, c, status);
    forall d: string ensures Agrees(t', d) {
      assert Agrees(t, d);
      assert Holders(t', d) == Holders(t, d);
      SameAgreement(t, t', d);
    }
  }

  // ------------------------------------------------------------------- runs

  datatype Step =
    | Accept(owner: Owner, createdAt: int, path: string, hash: int)
    | IngestCases(uploadOwner: Owner, id: int, payloads: seq<Payload>)
    | Purge(userId: int, ids: set<int>)
    | DeleteContent
    | SetStatus(caseId: string, status: Status)
    | Link(clientId: int, linkedTo: Option<int>)

  /** One committed transaction, or one that changed nothing. */
  ghost predicate Next(t: Tables, step: Step, t': Tables) {
    match step
    case Accept(owner, createdAt, path, hash) =>
      t' == if OwnExisting(t, owner, hash) != {} then t else Insert(t, owner, createdAt, path, hash)
    case IngestCases(owner, id, ps) =>
      && (id in t.uploads ==> t.uploads[id].owner == owner)
      && if IngestFails(t, id, ps) then t' == t else IngestedAs(t, t', owner, id, Kept(t, ps))
    case Purge(userId, ids) =>
      ids <= t.uploads.Keys && t' == Purged(t, userId, ids)
    case DeleteContent =>
      t' == ContentDeleted(t)
    case SetStatus(c, status) =>
      t' == StatusSet(t, c, status)
    case Link(client, user) =>
      t' == t.(linkedUser := if user.Some? then t.linkedUser[client := user.value] else t.linkedUser - {client})
  }

  ghost predicate Run(states: seq<Tables>, steps: seq<Step>) {
    && |states| == |steps| + 1
    && (forall i :: 0 <= i < |steps| ==> Next(states[i], steps[i], states[i + 1]))
  }

  /** Every ingest of the run is in order when it happens. */
  ghost predicate IngestsInOrder(states: seq<Tables>, steps: seq<Step>)
    requires Run(states, steps)
  {
    forall i :: 0 <= i < |steps| ==> StepInOrder(states[i], steps[i])
  }

  ghost predicate StepInOrder(t: Tables, step: Step) {
    step.IngestCases? && !IngestFails(t, step.id, step.payloads) && Kept(t, step.payloads) != [] ==>
      InOrder(t, step.id, Kept(t, step.payloads))
  }

  const EMPTY := Tables(map[], map[], map[], 1, map[])

  lemma EmptyIsValid()
    ensures Base(EMPTY) && AllAgree(EMPTY)
  {
    forall c: string ensures Agrees(EMPTY, c) {
      assert Holders(EMPTY, c) == {};
    }
  }

  lemma NextKeepsBase(t: Tables, step: Step, t': Tables)
    requires Base(t) && Next(t, step, t')
    ensures Base(t')
  {
    match step
    case Accept(owner, createdAt, path, hash) => InsertKeepsBase(t, owner, createdAt, path, hash);
    case IngestCases(owner, id, ps) =>
      if !IngestFails(t, id, ps) {
        KeptIsKept(t, ps);
        IngestKeepsBase(t, t', owner, id, Kept(t, ps));
      }
    case Purge(userId, ids) => PurgeKeepsBase(t, userId, ids);
    case DeleteContent => ContentDeletedKeepsBase(t);
    case SetStatus(_, _) =>
    case Link(_, _) =>
  }

  lemma NothingIngested(t: Tables, t': Tables, owner: Owner, id: int)
    requires IngestedAs(t, t', owner, id, [])
    ensures t' == t
  {
    assert t'.index == t.index && t'.cases == t.cases;
  }

  /** From a table that equals the replay, a step leads to one that does exactly if it is in order. */
  lemma NextAgreesExactlyInOrder(t: Tables, step: Step, t': Tables)
    requires Base(t) && AllAgree(t) && Next(t, step, t')
    ensures AllAgree(t') <==> StepInOrder(t, step)
  {
    hide Derived, Insert, IngestedAs, Purged, ContentDeleted, StatusSet, InOrder;
    match step
    case Accept(owner, createdAt, path, hash) => InsertKeepsAgreement(t, owner, createdAt, path, hash);
    case IngestCases(owner, id, ps) =>
      if !IngestFails(t, id, ps) {
        KeptIsKept(t, ps);
        if Kept(t, ps) == [] {
          NothingIngested(t, t', owner, id);
        } else {
          IngestAgreesExactlyInOrder(t, t', owner, id, Kept(t, ps));
        }
      }
    case Purge(userId, ids) => PurgeKeepsAgreement(t, userId, ids);
    case DeleteContent => ContentDeletedKeepsAgreement(t);
    case SetStatus(c, status) => StatusSetKeepsAgreement(t, c, status);
    case Link(_, _) =>
      forall c: string ensures Agrees(t', c) {
        assert Agrees(t, c);
        assert Holders(t', c) == Holders(t, c);
        SameAgreement(t, t', c);
      }
  }

  /** No run leaves an index row, a case or a duplicate reference that points to a deleted upload,
      every duplicate reference is the smallest surviving upload with the same payload, and every
      tombstone is blank, rejected, sourceless and held by no upload. */
  lemma {:induction false} EveryRunKeepsReferences(states: seq<Tables>, steps: seq<Step>, i: nat)
    requires Run(states, steps) && Base(states[0]) && i < |states|
    ensures Base(states[i])
  {
    if i > 0 {
      EveryRunKeepsReferences(states, steps, i - 1);
      NextKeepsBase(states[i - 1], steps[i - 1], states[i]);
    }
  }

  /** Over any run of uploads, ingests, purges and content deletions whose ingests are in order, the
      case table is at every moment what the surviving uploads derive. */
  lemma {:induction false} EveryRunEqualsReplay(states: seq<Tables>, steps: seq<Step>, i: nat)
    requires Run(states, steps) && Base(states[0]) && AllAgree(states[0]) && IngestsInOrder(states, steps)
    requires i < |states|
    ensures Base(states[i]) && AllAgree(states[i])
  {
    if i > 0 {
      EveryRunEqualsReplay(states, steps, i - 1);
      NextKeepsBase(states[i - 1], steps[i - 1], states[i]);
      assert StepInOrder(states[i - 1], steps[i - 1]);
      NextAgreesExactlyInOrder(states[i - 1], steps[i - 1], states[i]);
    }
  }

  /** A run agrees with the replay at every moment if and only if all of its ingests are in order. */
  lemma RunAgreesExactlyInOrder(states: seq<Tables>, steps: seq<Step>)
    requires Run(states, steps) && Base(states[0]) && AllAgree(states[0])
    ensures (forall i :: 0 <= i < |states| ==> AllAgree(states[i])) <==> IngestsInOrder(states, steps)
  {
    hide Base, AllAgree, Next, StepInOrder;
    if IngestsInOrder(states, steps) {
      forall i | 0 <= i < |states| ensures AllAgree(states[i]) {
        EveryRunEqualsReplay(states, steps, i);
      }
    }
    if forall i :: 0 <= i < |states| ==> AllAgree(states[i]) {
      forall i | 0 <= i < |steps| ensures StepInOrder(states[i], steps[i]) {
        EveryRunKeepsReferences(states, steps, i);
        NextAgreesExactlyInOrder(states[i], steps[i], states[i + 1]);
      }
    }
  }

  lemma NextKeepsTombstone(t: Tables, step: Step, t': Tables, c: string)
    requires Base(t) && Next(t, step, t')
    requires c in t.cases && t.cases[c].contentDeleted
    ensures c in t'.cases && t'.cases[c] == t.cases[c]
  {
    match step
    case IngestCases(owner, id, ps) =>
      KeptIsKept(t, ps);
      assert Skipped(t, c);
    case Purge(userId, ids) => TombstoneIsUnaffected(t, userId, ids, c);
    case _ =>
  }

  lemma UnindexedIsUnheld(t: Tables, c: string)
    requires Unindexed(t, c)
    ensures Holders(t, c) == {}
  {
    forall u <- t.uploads ensures (u, c) !in t.index {
      assert (u, c).1 == c;
    }
  }

  /** A case whose content was deleted stays deleted through the rest of any run. */
  lemma {:induction false} TombstonesStay(states: seq<Tables>, steps: seq<Step>, i: nat, j: nat, c: string)
    requires Run(states, steps) && Base(states[0]) && i <= j < |states|
    requires c in states[i].cases && states[i].cases[c].contentDeleted
    ensures c in states[j].cases && IsTombstone(states[j].cases[c]) && Holders(states[j], c) == {}
  {
    hide Base, Next, IsTombstone, Holders;
    EveryRunKeepsReferences(states, steps, j);
    if i < j {
      TombstonesStay(states, steps, i, j - 1, c);
      TombstoneIsDeleted(states[j - 1].cases[c]);
      EveryRunKeepsReferences(states, steps, j - 1);
      NextKeepsTombstone(states[j - 1], steps[j - 1], states[j], c);
    }
    TombstoneIsBlank(states[j], c);
  }

  lemma TombstoneIsDeleted(row: CaseRow)
    requires IsTombstone(row)
    ensures row.contentDeleted
  {
  }

  lemma TombstoneIsBlank(t: Tables, c: string)
    requires Base(t) && c in t.cases && t.cases[c].contentDeleted
    ensures IsTombstone(t.cases[c]) && Holders(t, c) == {}
  {
    UnindexedIsUnheld(t, c);
  }

  /** An upload whose cases are ingested before a later one is accepted is always in order. */
  lemma NewestUploadIsInOrder(t: Tables, owner: Owner, createdAt: int, path: string, hash: int, ps: seq<Payload>)
    requires Base(t) && forall u <- t.uploads :: t.uploads[u].createdAt <= createdAt
    ensures InOrder(Insert(t, owner, createdAt, path, hash), t.nextId, ps)
  {
  }

  lemma SingleIngest(t: Tables, owner: Owner, id: int, c: string, content: Content)
    requires id in t.uploads && t.uploads[id].owner == owner && c != "" && !Skipped(t, c)
    ensures var row := if c in t.cases then t.cases[c].(source := Some(id), content := content)
                       else CaseRow(owner, Some(id), Submitted, content, false);
            Next(t, IngestCases(owner, id, [Payload(c, content)]),
                 t.(index := t.index[(id, c) := content], cases := t.cases[c := row]))
  {
    SinglePayload(t, c, content);
    hide Kept, CaseIds, LastContent, RepeatsNewCase;
  }

  lemma SinglePayload(t: Tables, c: string, content: Content)
    requires !Skipped(t, c)
    ensures var ps := [Payload(c, content)];
            Kept(t, ps) == ps && CaseIds(ps) == {c} && LastContent(ps, c) == content && !RepeatsNewCase(t, ps)
  {
    var ps := [Payload(c, content)];
    assert ps[..0] == [] && Kept(t, ps) == [] + ps;
    assert ps[0] in ps && CaseIds(ps) == {c};
  }

  lemma FreshAccept(t: Tables, owner: Owner, createdAt: int, path: string, hash: int)
    requires WithHash(t.uploads, hash) == {}
    ensures Next(t, Accept(owner, createdAt, path, hash), Insert(t, owner, createdAt, path, hash))
  {
    assert OwnExisting(t, owner, hash) <= WithHash(t.uploads, hash);
  }

  lemma AgreedSourceIsLatest(t: Tables, c: string, u: int)
    requires Agrees(t, c) && u in Holders(t, c) && IsLatest(t.uploads, Holders(t, c), u)
    ensures c in t.cases && t.cases[c].source == Some(u)
  {
    LatestIsUnique(t.uploads, Holders(t, c), u);
  }

  /** Two uploads of a case are accepted one after the other, and ingested the other way round. */
  predicate Crossed(steps: seq<Step>, c: string, first: Content, second: Content) {
    && |steps| == 4
    && steps[0].Accept? && steps[1].Accept? && steps[0].createdAt < steps[1].createdAt
    && steps[2] == IngestCases(steps[1].owner, 2, [Payload(c, second)])
    && steps[3] == IngestCases(steps[0].owner, 1, [Payload(c, first)])
  }

  lemma CrossedStart(owner: Owner) returns (t1: Tables, t2: Tables)
    ensures t1 == Insert(EMPTY, owner, 1, "a", 1) && t2 == Insert(t1, owner, 2, "b", 2)
    ensures Next(EMPTY, Accept(owner, 1, "a", 1), t1) && Next(t1, Accept(owner, 2, "b", 2), t2)
    ensures Base(t2) && AllAgree(t2)
    ensures t2.uploads.Keys == {1, 2} && t2.uploads[1].createdAt == 1 && t2.uploads[2].createdAt == 2
    ensures t2.uploads[1].owner == t2.uploads[2].owner == owner && t2.index == map[] && t2.cases == map[]
  {
    t1 := Insert(EMPTY, owner, 1, "a", 1);
    t2 := Insert(t1, owner, 2, "b", 2);
    EmptyIsValid();
    FreshAccept(EMPTY, owner, 1, "a", 1);
    FreshAccept(t1, owner, 2, "b", 2);
    InsertKeepsBase(EMPTY, owner, 1, "a", 1);
    InsertKeepsBase(t1, owner, 2, "b", 2);
    InsertKeepsAgreement(EMPTY, owner, 1, "a", 1);
    InsertKeepsAgreement(t1, owner, 2, "b", 2);
  }

  /** Two uploads whose ingests cross: up to the second ingest the tables agree, and after it the case
      keeps the first upload's content and source although the second upload is the latest holder. */
  lemma CrossedIngestsDisagree(c: string, first: Content, second: Content, owner: Owner)
      returns (states: seq<Tables>, steps: seq<Step>)
    requires c != ""
    ensures Run(states, steps) && Crossed(steps, c, first, second)
    ensures states[0] == EMPTY && AllAgree(states[3]) && !AllAgree(states[4])
    ensures var t := states[4];
      && Holders(t, c) == {1, 2} && Latest(t.uploads, Holders(t, c)) == 2 && t.index[(2, c)] == second
      && c in t.cases && t.cases[c].source == Some(1) && t.cases[c].content == first
  {
    hide Next, Agrees, Insert, Base;
    var t1, t2 := CrossedStart(owner);
    var t3 := t2.(index := map[(2, c) := second], cases := map[c := CaseRow(owner, Some(2), Submitted, second, false)]);
    var t4 := t3.(index := t3.index[(1, c) := first], cases := map[c := CaseRow(owner, Some(1), Submitted, first, false)]);
    states := [EMPTY, t1, t2, t3, t4];
    steps := [Accept(owner, 1, "a", 1), Accept(owner, 2, "b", 2),
              IngestCases(owner, 2, [Payload(c, second)]), IngestCases(owner, 1, [Payload(c, first)])];
    assert t3.index == t2.index[(2, c) := second] && t3.cases == t2.cases[c := t3.cases[c]];
    assert t4.cases == t3.cases[c := t4.cases[c]];
    SingleIngest(t2, owner, 2, c, second);
    SingleIngest(t3, owner, 1, c, first);
    SecondIsInOrder(t2, c, second);
    NextAgreesExactlyInOrder(t2, steps[2], t3);
    assert Holders(t4, c) == {1, 2};
    LatestIsUnique(t4.uploads, {1, 2}, 2);
    if Agrees(t4, c) {
      AgreedSourceIsLatest(t4, c, 2);
      assert false;
    }
  }

  /** Nobody holds the case yet. */
  lemma SecondIsInOrder(t: Tables, c: string, content: Content)
    requires 2 in t.uploads && t.index == map[]
    ensures StepInOrder(t, IngestCases(t.uploads[2].owner, 2, [Payload(c, content)]))
  {
  }

  // --------------------------------------------------- replay from scratch

  /** Inserting or updating one upload's cases, as ingest does, in a table of decided cases. */
  function ReplayUpload(t: Tables, u: int, table: map<string, Core>): map<string, Core>
    requires u in t.uploads
  {
    map c <- table.Keys + (set k <- t.index :: k.1) | (u, c) in t.index || c in table ::
      if (u, c) !in t.index then table[c]
      else if c in table then table[c].(source := u, content := t.index[(u, c)])
      else Core(t.uploads[u].owner, u, t.index[(u, c)])
  }

  function Replay(t: Tables, order: seq<int>): map<string, Core>
    requires forall u <- order :: u in t.uploads
  {
    if order == [] then map[]
    else ReplayUpload(t, order[|order| - 1], Replay(t, order[..|order| - 1]))
  }

  ghost predicate Sorted(t: Tables, order: seq<int>) {
    && (forall u <- order :: u in t.uploads)
    && (forall i, j :: 0 <= i < j < |order| ==> Before(t.uploads, order[i], order[j]))
  }

  function HeldIn(t: Tables, order: seq<int>, c: string): set<int> {
    set u <- order | (u, c) in t.index
  }

  lemma ReplayUploadDecides(t: Tables, u: int, table: map<string, Core>, c: string)
    requires u in t.uploads
    ensures c in ReplayUpload(t, u, table) <==> c in table || (u, c) in t.index
    ensures (u, c) !in t.index && c in table ==> ReplayUpload(t, u, table)[c] == table[c]
    ensures (u, c) in t.index ==>
      ReplayUpload(t, u, table)[c]
        == Core(if c in table then table[c].creator else t.uploads[u].owner, u, t.index[(u, c)])
  {
    assert (u, c) in t.index ==> c in set k <- t.index :: k.1 by {
      if (u, c) in t.index { assert (u, c).1 == c; }
    }
  }

  lemma LaterHolder(uploads: map<int, Upload>, before: set<int>, last: int)
    requires before <= uploads.Keys && last in uploads && forall u <- before :: Before(uploads, u, last)
    ensures Latest(uploads, before + {last}) == last
    ensures Earliest(uploads, before + {last}) == if before == {} then last else Earliest(uploads, before)
  {
    LatestIsUnique(uploads, before + {last}, last);
    EarliestIsUnique(uploads, before + {last}, if before == {} then last else Earliest(uploads, before));
  }

  /** Replaying a sorted list of uploads decides each case by its earliest and latest holder. */
  lemma {:induction false} ReplayDerives(t: Tables, order: seq<int>, c: string)
    requires Sorted(t, order)
    ensures HeldIn(t, order, c) <= t.uploads.Keys
    ensures c in Replay(t, order) <==> HeldIn(t, order, c) != {}
    ensures var held := HeldIn(t, order, c);
            held != {} ==>
              Replay(t, order)[c] == Core(t.uploads[Earliest(t.uploads, held)].owner,
                                          Latest(t.uploads, held),
                                          t.index[(Latest(t.uploads, held), c)])
  {
    if order != [] {
      hide Earliest, Latest, IsEarliest, IsLatest, Before, ReplayUpload;
      var last, rest := order[|order| - 1], order[..|order| - 1];
      ReplayDerives(t, rest, c);
      ReplayUploadDecides(t, last, Replay(t, rest), c);
      var before := HeldIn(t, rest, c);
      assert order == rest + [last];
      assert forall u <- rest :: Before(t.uploads, u, last);
      if (last, c) in t.index {
        assert HeldIn(t, order, c) == before + {last};
        LaterHolder(t.uploads, before, last);
      } else {
        assert HeldIn(t, order, c) == before;
      }
    }
  }

  function Live(t: Tables): set<string> {
    set c <- t.cases | !t.cases[c].contentDeleted
  }

  /** The part of the case table that is not tombstoned is exactly the replay, from an empty table,
      of the surviving uploads in `(created_at, id)` order. */
  lemma CaseTableIsReplay(t: Tables, order: seq<int>)
    requires Base(t) && AllAgree(t)
    requires Sorted(t, order) && (set u <- order) == t.uploads.Keys
    ensures Replay(t, order).Keys == Live(t)
    ensures forall c <- Live(t) :: RowIs(t.cases[c], Replay(t, order)[c])
  {
    forall c: string
      ensures c in Replay(t, order) <==> c in Live(t)
      ensures c in Live(t) ==> c in Replay(t, order) && RowIs(t.cases[c], Replay(t, order)[c])
    {
      assert Agrees(t, c);
      ReplayDerives(t, order, c);
      assert Holders(t, c) == HeldIn(t, order, c);
    }
  }

  lemma SmallestIs(s: set<int>, u: int)
    requires u in s
    ensures Smallest(s) == Some(u) <==> IsSmallest(s, u)
  {
  }

  lemma RepointedSurvivor(t: Tables, ids: set<int>, u: int)
    requires DuplicatesValid(t) && ids <= t.uploads.Keys && u in t.uploads
    requires t.uploads[u].duplicateOf.Some? && t.uploads[u].duplicateOf.value in ids
    ensures Repointed(t.uploads, ids, ids)[u].duplicateOf == Replacement(t.uploads, ids, t.uploads[u].payloadHash)
  {
    hide Replacement;
    assert t.uploads[u].duplicateOf.value in WithHash(t.uploads, t.uploads[u].payloadHash);
  }

  lemma PurgedUpload(t: Tables, userId: int, ids: set<int>, u: int)
    requires ids <= t.uploads.Keys && u in t.uploads && u !in ids
    ensures u in Purged(t, userId, ids).uploads
    ensures Purged(t, userId, ids).uploads[u] == Repointed(t.uploads, ids, ids)[u]
  {
    hide Repointed, Affected, Rebuilt, WithoutSources;
  }

  /** A purge may turn the first survivor of a payload into its own duplicate. */
  lemma PurgeMakesSelfReference(t: Tables, userId: int, ids: set<int>, u: int)
    requires Base(t) && ids <= t.uploads.Keys && u in t.uploads && u !in ids
    requires t.uploads[u].duplicateOf.Some? && t.uploads[u].duplicateOf.value in ids
    ensures u in Purged(t, userId, ids).uploads
    ensures Purged(t, userId, ids).uploads[u].duplicateOf == Some(u)
       <==> IsSmallest(WithHash(t.uploads, t.uploads[u].payloadHash) - ids, u)
  {
    PurgedUpload(t, userId, ids, u);
    RepointedSurvivor(t, ids, u);
    hide Purged, Repointed, Base, IsSmallest;
    var survivors := WithHash(t.uploads, t.uploads[u].payloadHash) - ids;
    assert u in survivors;
    SmallestIs(survivors, u);
  }
}
