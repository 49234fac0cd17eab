/** The Training Hub's upload tables, what each transaction does to them, and the case table that a
    replay of the surviving uploads would give. */
module TrainingTables {
  import opened Options
  import opened Sets

  datatype Content = Content(labelText: string, outcome: string, tagIdsJson: string, payloadJson: string)

  const BLANK := Content("", "", "[]", "{}")

  datatype Status = Submitted | Approved | Rejected

  datatype Owner = Owner(userId: Option<int>, clientId: Option<int>)

  const NOBODY := Owner(None, None)

  datatype Upload = Upload(createdAt: int, owner: Owner, storedPath: string, payloadHash: int, duplicateOf: Option<int>)

  datatype CaseRow = CaseRow(creator: Owner, source: Option<int>, status: Status, content: Content, contentDeleted: bool)

  /** One parsed case of an upload. */
  datatype Payload = Payload(caseId: string, content: Content)

  /** `index` is `upload_cases`; `linkedUser` is the user a client identity is linked to. */
  datatype Tables = Tables(
    uploads: map<int, Upload>,
    index: map<(int, string), Content>,
    cases: map<string, CaseRow>,
    nextId: int,
    linkedUser: map<int, int>)

  // ------------------------------------------------------- order of uploads

  /** `(created_at, id)` order. */
  predicate Before(uploads: map<int, Upload>, u: int, v: int)
    requires u in uploads && v in uploads
  {
    uploads[u].createdAt < uploads[v].createdAt || (uploads[u].createdAt == uploads[v].createdAt && u < v)
  }

  predicate IsEarliest(uploads: map<int, Upload>, s: set<int>, u: int)
    requires s <= uploads.Keys
  {
    u in s && forall v <- s :: v == u || Before(uploads, u, v)
  }

  predicate IsLatest(uploads: map<int, Upload>, s: set<int>, u: int)
    requires s <= uploads.Keys
  {
    u in s && forall v <- s :: v == u || Before(uploads, v, u)
  }

  predicate IsSmallest(s: set<int>, u: int) {
    u in s && forall v <- s :: u <= v
  }

  lemma {:induction false} EarliestExists(uploads: map<int, Upload>, s: set<int>)
    requires s != {} && s <= uploads.Keys
    ensures exists u :: IsEarliest(uploads, s, u)
  {
    var x := AnElement(s);
    if s == {x} {
      assert IsEarliest(uploads, s, x);
    } else {
      assert forall v <- s :: v == x || v in s - {x};
      EarliestExists(uploads, s - {x});
      var y :| IsEarliest(uploads, s - {x}, y);
      assert IsEarliest(uploads, s, if Before(uploads, x, y) then x else y);
    }
  }

  lemma {:induction false} LatestExists(uploads: map<int, Upload>, s: set<int>)
    requires s != {} && s <= uploads.Keys
    ensures exists u :: IsLatest(uploads, s, u)
  {
    var x := AnElement(s);
    if s == {x} {
      assert IsLatest(uploads, s, x);
    } else {
      assert forall v <- s :: v == x || v in s - {x};
      LatestExists(uploads, s - {x});
      var y :| IsLatest(uploads, s - {x}, y);
      assert IsLatest(uploads, s, if Before(uploads, y, x) then x else y);
    }
  }

  lemma {:induction false} SmallestExists(s: set<int>)
    requires s != {}
    ensures exists u :: IsSmallest(s, u)
  {
    var x := AnElement(s);
    if s == {x} {
      assert IsSmallest(s, x);
    } else {
      assert forall v <- s :: v == x || v in s - {x};
      SmallestExists(s - {x});
      var y :| IsSmallest(s - {x}, y);
      assert IsSmallest(s, if x < y then x else y);
    }
  }

  function Earliest(uploads: map<int, Upload>, s: set<int>): (u: int)
    requires s != {} && s <= uploads.Keys
    ensures IsEarliest(uploads, s, u)
  {
    EarliestExists(uploads, s);
    var u :| u in s && IsEarliest(uploads, s, u);
    u
  }

  function Latest(uploads: map<int, Upload>, s: set<int>): (u: int)
    requires s != {} && s <= uploads.Keys
    ensures IsLatest(uploads, s, u)
  {
    LatestExists(uploads, s);
    var u :| u in s && IsLatest(uploads, s, u);
    u
  }

  /** `ORDER BY id ASC LIMIT 1`. */
  function Smallest(s: set<int>): (r: Option<int>)
    ensures s == {} <==> r == None
    ensures r.Some? ==> IsSmallest(s, r.value)
  {
    if s == {} then None
    else
      SmallestExists(s);
      var u :| u in s && IsSmallest(s, u);
      Some(u)
  }

  // --------------------------------------------------- what a replay gives

  /** The uploads that hold a case: the join of `upload_cases` and `uploads`. */
  function Holders(t: Tables, c: string): set<int> {
    set u <- t.uploads | (u, c) in t.index
  }

  /** What a replay decides about a case: its creator, its source upload and its content. */
  datatype Core = Core(creator: Owner, source: int, content: Content)

  function Derived(t: Tables, c: string): Core
    requires Holders(t, c) != {}
  {
    var last := Latest(t.uploads, Holders(t, c));
    Core(t.uploads[Earliest(t.uploads, Holders(t, c))].owner, last, t.index[(last, c)])
  }

  ghost predicate RowIs(row: CaseRow, core: Core) {
    row.creator == core.creator && row.source == Some(core.source) && row.content == core.content
  }

  /** The stored row of a case, tombstones aside, is the one derived from the surviving uploads. */
  ghost predicate Agrees(t: Tables, c: string) {
    if Holders(t, c) == {} then c in t.cases ==> t.cases[c].contentDeleted
    else c in t.cases && !t.cases[c].contentDeleted && RowIs(t.cases[c], Derived(t, c))
  }

  predicate IsTombstone(row: CaseRow) {
    row == CaseRow(NOBODY, None, Rejected, BLANK, true)
  }

  function WithHash(uploads: map<int, Upload>, hash: int): set<int> {
    set u <- uploads | uploads[u].payloadHash == hash
  }

  ghost predicate IndexValid(t: Tables) {
    && (forall k <- t.index :: k.0 in t.uploads)
    && (forall u <- t.uploads :: u < t.nextId)
  }

  ghost predicate Unindexed(t: Tables, c: string) {
    forall k <- t.index :: k.1 != c
  }

  ghost predicate TombstonesValid(t: Tables) {
    forall c <- t.cases :: t.cases[c].contentDeleted ==> IsTombstone(t.cases[c]) && Unindexed(t, c)
  }

  ghost predicate DuplicatesValid(t: Tables) {
    forall u <- t.uploads ::
      t.uploads[u].duplicateOf.Some? ==>
        t.uploads[u].duplicateOf == Smallest(WithHash(t.uploads, t.uploads[u].payloadHash))
  }

  // ------------------------------------------------------- accepting uploads

  datatype Acceptance = Duplicate(uploadId: int) | Accepted(newId: int)

  /** The uploads of the same owner with the same payload. */
  function OwnExisting(t: Tables, owner: Owner, hash: int): set<int> {
    set u <- t.uploads |
      && t.uploads[u].payloadHash == hash
      && if owner.userId.Some? then t.uploads[u].owner.userId == owner.userId
         else t.uploads[u].owner.clientId == (if owner.clientId.Some? then owner.clientId else Some(0))
  }

  function Insert(t: Tables, owner: Owner, createdAt: int, path: string, hash: int): Tables {
    t.(uploads := t.uploads[t.nextId := Upload(createdAt, owner, path, hash, Smallest(WithHash(t.uploads, hash)))],
       nextId := t.nextId + 1)
  }

  // --------------------------------------------------------------- ingesting

  datatype IngestError = MissingCaseId | UploadGone | RepeatedNewCase

  datatype Ingest = Ingested(inserted: nat, updated: nat, skipped: nat) | IngestFailed(error: IngestError)

  /** The test by which ingest skips a case whose content was deleted. */
  predicate Skipped(t: Tables, c: string) {
    c in t.cases && t.cases[c].status == Rejected && t.cases[c].contentDeleted
  }

  function Kept(t: Tables, ps: seq<Payload>): seq<Payload> {
    if ps == [] then []
    else
      var last := ps[|ps| - 1];
      Kept(t, ps[..|ps| - 1]) + (if Skipped(t, last.caseId) then [] else [last])
  }

  function CaseIds(ps: seq<Payload>): set<string> {
    set p <- ps :: p.caseId
  }

  /** The content of the last payload for a case. */
  function LastContent(ps: seq<Payload>, c: string): Content
    requires c in CaseIds(ps)
  {
    var last := ps[|ps| - 1];
    if last.caseId == c then last.content
    else
      assert ps == ps[..|ps| - 1] + [last];
      LastContent(ps[..|ps| - 1], c)
  }

  /** A case that is not in the table yet and occurs twice: its second insert breaks the unique key. */
  ghost predicate RepeatsNewCase(t: Tables, ps: seq<Payload>) {
    exists i, j :: 0 <= i < j < |ps| && ps[i].caseId == ps[j].caseId && ps[i].caseId !in t.cases
  }

  ghost predicate IngestFails(t: Tables, id: int, ps: seq<Payload>) {
    || "" in CaseIds(ps)
    || (Kept(t, ps) != [] && id !in t.uploads)
    || RepeatsNewCase(t, Kept(t, ps))
  }

  /** The upload holds exactly its cases, each with its last content. */
  ghost predicate IndexApplied(index: map<(int, string), Content>, index': map<(int, string), Content>,
                               id: int, ps: seq<Payload>)
  {
    && (forall k: (int, string) :: k in index' <==> k in index || (k.0 == id && k.1 in CaseIds(ps)))
    && (forall k <- index' :: index'[k] == if k.0 == id && k.1 in CaseIds(ps) then LastContent(ps, k.1) else index[k])
  }

  /** A new case is created by the owner, a known one changes content and source only. */
  ghost predicate CasesApplied(cases: map<string, CaseRow>, cases': map<string, CaseRow>,
                               owner: Owner, id: int, ps: seq<Payload>)
  {
    && cases'.Keys == cases.Keys + CaseIds(ps)
    && (forall c <- cases' ::
          cases'[c] ==
            if c !in CaseIds(ps) then cases[c]
            else if c in cases then cases[c].(source := Some(id), content := LastContent(ps, c))
            else CaseRow(owner, Some(id), Submitted, LastContent(ps, c), false))
  }

  /** What an upload's kept payloads change. */
  ghost predicate IngestedAs(t: Tables, t': Tables, owner: Owner, id: int, ps: seq<Payload>) {
    && t' == t.(index := t'.index, cases := t'.cases)
    && IndexApplied(t.index, t'.index, id, ps)
    && CasesApplied(t.cases, t'.cases, owner, id, ps)
  }

  // ----------------------------------------------------------------- purging

  predicate OwnedBy(t: Tables, owner: Owner, userId: int) {
    || owner.userId == Some(userId)
    || (owner.clientId.Some? && owner.clientId.value in t.linkedUser && t.linkedUser[owner.clientId.value] == userId)
  }

  function CreatedBy(t: Tables, userId: int): set<string> {
    set c <- t.cases | OwnedBy(t, t.cases[c].creator, userId)
  }

  /** The cases a purge rebuilds. */
  function Affected(t: Tables, userId: int, ids: set<int>): set<string> {
    if ids == {} then CreatedBy(t, userId)
    else
      (set k <- t.index | k.0 in ids :: k.1)
      + CreatedBy(t, userId)
      + (set c <- t.cases | t.cases[c].source.Some? && t.cases[c].source.value in ids)
  }

  function WithoutSources(cases: map<string, CaseRow>, ids: set<int>): map<string, CaseRow> {
    map c <- cases ::
      if cases[c].source.Some? && cases[c].source.value in ids then cases[c].(source := None) else cases[c]
  }

  /** The smallest upload that survives the purge with the given payload. */
  function Replacement(uploads: map<int, Upload>, ids: set<int>, hash: int): Option<int> {
    Smallest(WithHash(uploads, hash) - ids)
  }

  /** References to the uploads in `done` are moved to the replacement for the payload. */
  function Repointed(uploads: map<int, Upload>, ids: set<int>, done: set<int>): (r: map<int, Upload>)
    requires done <= uploads.Keys
    ensures r.Keys == uploads.Keys
    ensures forall u <- r :: r[u] == uploads[u].(duplicateOf := r[u].duplicateOf)
  {
    map u <- uploads ::
      if uploads[u].duplicateOf.Some? && uploads[u].duplicateOf.value in done
      then uploads[u].(duplicateOf := Replacement(uploads, ids, uploads[uploads[u].duplicateOf.value].payloadHash))
      else uploads[u]
  }

  function WithoutUploads(t: Tables, ids: set<int>): Tables
    requires ids <= t.uploads.Keys
  {
    t.(uploads := Repointed(t.uploads, ids, ids) - ids,
       index := map k <- t.index | k.0 !in ids :: t.index[k],
       cases := WithoutSources(t.cases, ids))
  }

  function RebuiltRow(t: Tables, c: string): CaseRow
    requires Holders(t, c) != {}
  {
    var core := Derived(t, c);
    CaseRow(core.creator, Some(core.source), Submitted, core.content, c in t.cases && t.cases[c].contentDeleted)
  }

  /** The affected rows are derived again; an affected case nobody holds any more goes. */
  function Rebuilt(t: Tables, affected: set<string>): map<string, CaseRow> {
    map c <- t.cases.Keys + affected | c !in affected || Holders(t, c) != {} ::
      if c !in affected then t.cases[c] else RebuiltRow(t, c)
  }

  function Purged(t: Tables, userId: int, ids: set<int>): Tables
    requires ids <= t.uploads.Keys
  {
    var t' := WithoutUploads(t, ids);
    t'.(cases := Rebuilt(t', Affected(t, userId, ids)))
  }

  /** The paths a purge may delete: used by a purged upload, by no surviving one, and inside the
      upload directory. */
  function Unreferenced(t: Tables, ids: set<int>, inside: string -> bool): set<string>
    requires ids <= t.uploads.Keys
  {
    set u <- ids |
      && t.uploads[u].storedPath != "" && inside(t.uploads[u].storedPath)
      && (forall v <- t.uploads :: v !in ids ==> t.uploads[v].storedPath != t.uploads[u].storedPath)
      :: t.uploads[u].storedPath
  }

  // ------------------------------------------------------- admin maintenance

  predicate Doomed(row: CaseRow) {
    row.status == Rejected && !row.contentDeleted
  }

  function ContentDeleted(t: Tables): Tables {
    var doomed := set c <- t.cases | Doomed(t.cases[c]);
    t.(cases := map c <- t.cases :: if c in doomed then CaseRow(NOBODY, None, Rejected, BLANK, true) else t.cases[c],
       index := map k <- t.index | k.1 !in doomed :: t.index[k])
  }

  /** Only a submitted case can be approved or rejected. */
  function StatusSet(t: Tables, c: string, status: Status): Tables {
    if c in t.cases && t.cases[c].status == Submitted
    then t.(cases := t.cases[c := t.cases[c].(status := status)])
    else t
  }
}
