/** The transactions themselves, statement by statement, proved against what they should do. */
module TrainingHub {
  import opened Options
  import opened Sets
  import opened TrainingTables
  import opened TrainingTheorems

  lemma CaseIdsNext(ps: seq<Payload>, i: nat)
    requires i < |ps|
    ensures CaseIds(ps[..i + 1]) == CaseIds(ps[..i]) + {ps[i].caseId}
    ensures forall c <- CaseIds(ps[..i + 1]) ::
      LastContent(ps[..i + 1], c) == if c == ps[i].caseId then ps[i].content else LastContent(ps[..i], c)
  {
    var next := ps[..i + 1];
    assert next == ps[..i] + [ps[i]];
    assert next[..i] == ps[..i];
    forall c <- CaseIds(next)
      ensures LastContent(next, c) == if c == ps[i].caseId then ps[i].content else LastContent(ps[..i], c)
    {
      assert next[|next| - 1] == ps[i];
    }
  }

  lemma KeptCaseIds(t: Tables, ps: seq<Payload>)
    ensures CaseIds(Kept(t, ps)) <= CaseIds(ps)
  {
    KeptIsKept(t, ps);
  }

  /** No later payload is for the same case. */
  predicate LastOf(ps: seq<Payload>, j: nat)
    requires j < |ps|
  {
    forall k | j < k < |ps| :: ps[k].caseId != ps[j].caseId
  }

  /** The last payload of a case that is not a tombstone is kept, and it is the last one kept. */
  lemma {:induction false} LastIsKept(t: Tables, ps: seq<Payload>, j: nat)
    requires j < |ps| && !Skipped(t, ps[j].caseId) && LastOf(ps, j)
    ensures ps[j].caseId in CaseIds(Kept(t, ps)) && LastContent(Kept(t, ps), ps[j].caseId) == ps[j].content
  {
    hide Skipped, CaseIds, LastContent;
    var n := |ps| - 1;
    var kept, last := Kept(t, ps[..n]), ps[n];
    AppendContent(kept, last);
    if j < n {
      assert last.caseId != ps[j].caseId;
      LastIsKept(t, ps[..n], j);
      assert kept + [] == kept;
    }
  }

  lemma AppendContent(ps: seq<Payload>, p: Payload)
    ensures CaseIds(ps + [p]) == CaseIds(ps) + {p.caseId}
    ensures forall c <- CaseIds(ps + [p]) ::
      LastContent(ps + [p], c) == if c == p.caseId then p.content else LastContent(ps, c)
  {
    assert (ps + [p])[..|ps|] == ps && (ps + [p])[..|ps| + 1] == ps + [p];
    CaseIdsNext(ps + [p], |ps|);
  }

  function SkippedAt(t: Tables, ps: seq<Payload>): set<int> {
    set i | 0 <= i < |ps| && Skipped(t, ps[i].caseId)
  }

  lemma {:induction false} SkippedAreTheRest(t: Tables, ps: seq<Payload>)
    ensures |ps| - |Kept(t, ps)| == |SkippedAt(t, ps)|
  {
    hide Skipped;
    if ps == [] {
      assert SkippedAt(t, ps) == {};
    } else {
      var n := |ps| - 1;
      SkippedAreTheRest(t, ps[..n]);
      assert SkippedAt(t, ps) == SkippedAt(t, ps[..n]) + (if Skipped(t, ps[n].caseId) then {n} else {});
    }
  }

  lemma SkippedInWords(t: Tables, ps: seq<Payload>)
    ensures SkippedAt(t, ps)
         == set i | 0 <= i < |ps| && ps[i].caseId in t.cases && t.cases[ps[i].caseId].status == Rejected
                 && t.cases[ps[i].caseId].contentDeleted
  {
  }

  /** An upload brings a case: some payload has it, and the case is not a tombstone. */
  predicate Brings(cases: map<string, CaseRow>, parsed: seq<Payload>, c: string) {
    && (exists p <- parsed :: p.caseId == c)
    && !(c in cases && cases[c].status == Rejected && cases[c].contentDeleted)
  }

  lemma BringsIsKept(t: Tables, ps: seq<Payload>, c: string)
    ensures Brings(t.cases, ps, c) <==> c in CaseIds(Kept(t, ps))
  {
    KeptIsKept(t, ps);
    hide Kept;
    if Brings(t.cases, ps, c) {
      var p :| p in ps && p.caseId == c;
      assert p in Kept(t, ps);
    }
  }

  lemma IngestInWords(t: Tables, t': Tables, owner: Owner, id: int, ps: seq<Payload>)
    requires IngestedAs(t, t', owner, id, Kept(t, ps))
    ensures t'.uploads == t.uploads
    ensures forall j | 0 <= j < |ps| && Brings(t.cases, ps, ps[j].caseId) && LastOf(ps, j) ::
      BroughtRight(t, t', owner, id, ps[j])
    ensures forall u: int, c: string | u != id || !Brings(t.cases, ps, c) :: Same(t.index, t'.index, (u, c))
    ensures forall c: string | !Brings(t.cases, ps, c) :: Same(t.cases, t'.cases, c)
  {
    hide IngestedAs, Brings, BroughtRight, Kept, LastOf, Same;
    forall j | 0 <= j < |ps| && Brings(t.cases, ps, ps[j].caseId) && LastOf(ps, j)
      ensures BroughtRight(t, t', owner, id, ps[j])
    {
      IngestBrings(t, t', owner, id, ps, j);
    }
    IngestLeaves(t, t', owner, id, ps, 0, "");
    forall u: int, c: string | u != id || !Brings(t.cases, ps, c)
      ensures Same(t.index, t'.index, (u, c))
    {
      IngestLeaves(t, t', owner, id, ps, u, c);
    }
    forall c: string | !Brings(t.cases, ps, c)
      ensures Same(t.cases, t'.cases, c)
    {
      IngestLeaves(t, t', owner, id, ps, 0, c);
    }
  }

  /** When an ingest fails, and why. */
  lemma FailsInWords(t: Tables, id: int, ps: seq<Payload>)
    ensures "" in CaseIds(ps) <==> exists p <- ps :: p.caseId == ""
    ensures Kept(t, ps) != [] <==> exists p <- ps :: Brings(t.cases, ps, p.caseId)
    ensures RepeatsNewCase(t, Kept(t, ps)) <==>
      exists i, j :: 0 <= i < j < |ps| && ps[i].caseId == ps[j].caseId && ps[i].caseId !in t.cases
  {
    KeptIsKept(t, ps);
    if Kept(t, ps) != [] {
      assert Kept(t, ps)[0] in Kept(t, ps);
      BringsIsKept(t, ps, Kept(t, ps)[0].caseId);
    }
    if p :| p in ps && Brings(t.cases, ps, p.caseId) {
      assert p in Kept(t, ps);
    }
    RepeatsIsKept(t, ps);
  }

  /** New cases are never skipped, so the kept payloads repeat one exactly if the payloads do. */
  lemma {:induction false} RepeatsIsKept(t: Tables, ps: seq<Payload>)
    ensures RepeatsNewCase(t, Kept(t, ps)) <==> RepeatsNewCase(t, ps)
  {
    hide RepeatsNewCase, CaseIds, Skipped, Brings;
    if ps != [] {
      var init, last := ps[..|ps| - 1], ps[|ps| - 1];
      var kept := Kept(t, init);
      RepeatsIsKept(t, init);
      RepeatsOneMore(t, init, last);
      RepeatsOneMore(t, kept, last);
      assert ps == init + [last];
      NewCaseIsKept(t, init, last.caseId);
      assert kept + [] == kept;
    }
  }

  lemma NewCaseIsKept(t: Tables, ps: seq<Payload>, c: string)
    ensures c !in t.cases ==> !Skipped(t, c) && (c in CaseIds(Kept(t, ps)) <==> c in CaseIds(ps))
  {
    BringsIsKept(t, ps, c);
  }

  lemma RepeatsOneMore(t: Tables, ps: seq<Payload>, p: Payload)
    ensures RepeatsNewCase(t, ps + [p]) <==> RepeatsNewCase(t, ps) || (p.caseId !in t.cases && p.caseId in CaseIds(ps))
  {
    var next := ps + [p];
    if RepeatsNewCase(t, ps) {
      var i, j :| 0 <= i < j < |ps| && ps[i].caseId == ps[j].caseId && ps[i].caseId !in t.cases;
      assert next[i].caseId == next[j].caseId;
    }
    if p.caseId !in t.cases && p.caseId in CaseIds(ps) {
      var i :| 0 <= i < |ps| && ps[i].caseId == p.caseId;
      assert next[i].caseId == next[|ps|].caseId;
    }
    if RepeatsNewCase(t, next) {
      var i, j :| 0 <= i < j < |next| && next[i].caseId == next[j].caseId && next[i].caseId !in t.cases;
      assert next[i] in ps;
      if j < |ps| { assert ps[i].caseId == ps[j].caseId; }
    }
  }

  /** The case has the content of its last payload, in the index and in its row. A new case is the
      uploader's and submitted; a known one keeps its creator, its status and its deletion mark. */
  predicate BroughtRight(before: Tables, after: Tables, owner: Owner, id: int, p: Payload) {
    && (id, p.caseId) in after.index && after.index[(id, p.caseId)] == p.content
    && p.caseId in after.cases
    && after.cases[p.caseId]
       == if p.caseId in before.cases then before.cases[p.caseId].(source := Some(id), content := p.content)
          else CaseRow(owner, Some(id), Submitted, p.content, false)
  }

  lemma IngestBrings(t: Tables, t': Tables, owner: Owner, id: int, ps: seq<Payload>, j: nat)
    requires IngestedAs(t, t', owner, id, Kept(t, ps))
    requires j < |ps| && Brings(t.cases, ps, ps[j].caseId) && LastOf(ps, j)
    ensures BroughtRight(t, t', owner, id, ps[j])
  {
    LastIsKept(t, ps, j);
    hide Kept, CaseIds, LastContent, Brings;
    assert t'.index[(id, ps[j].caseId)] == LastContent(Kept(t, ps), (id, ps[j].caseId).1);
  }

  lemma IngestLeaves(t: Tables, t': Tables, owner: Owner, id: int, ps: seq<Payload>, u: int, c: string)
    requires IngestedAs(t, t', owner, id, Kept(t, ps))
    ensures t'.uploads == t.uploads
    ensures u != id || !Brings(t.cases, ps, c) ==> Same(t.index, t'.index, (u, c))
    ensures !Brings(t.cases, ps, c) ==> Same(t.cases, t'.cases, c)
  {
    BringsIsKept(t, ps, c);
    hide Kept, CaseIds, LastContent, Brings;
    assert (u, c).0 == u && (u, c).1 == c;
  }

  /** The row a payload leaves behind, given the table before its upload and the row so far. */
  function AppliedRow(cases: map<string, CaseRow>, current: map<string, CaseRow>, owner: Owner, id: int, p: Payload): CaseRow
    requires p.caseId in cases ==> p.caseId in current
  {
    if p.caseId in cases then current[p.caseId].(source := Some(id), content := p.content)
    else CaseRow(owner, Some(id), Submitted, p.content, false)
  }

  lemma CasesAppliedNext(cases: map<string, CaseRow>, current: map<string, CaseRow>, owner: Owner, id: int,
                         ps: seq<Payload>, i: nat)
    requires i < |ps| && CasesApplied(cases, current, owner, id, ps[..i])
    ensures CasesApplied(cases, current[ps[i].caseId := AppliedRow(cases, current, owner, id, ps[i])], owner, id, ps[..i + 1])
  {
    CaseIdsNext(ps, i);
  }

  lemma RepeatsNext(t: Tables, ps: seq<Payload>, i: nat)
    requires i < |ps| && !RepeatsNewCase(t, ps[..i])
    ensures RepeatsNewCase(t, ps[..i + 1]) <==> ps[i].caseId !in t.cases && ps[i].caseId in CaseIds(ps[..i])
    ensures RepeatsNewCase(t, ps[..i + 1]) ==> RepeatsNewCase(t, ps)
  {
    var next := ps[..i + 1];
    assert forall k :: 0 <= k < i ==> next[k] == ps[..i][k];
    if ps[i].caseId !in t.cases && ps[i].caseId in CaseIds(ps[..i]) {
      var j :| 0 <= j < i && ps[j].caseId == ps[i].caseId;
      assert next[j].caseId == next[i].caseId;
    }
  }

  /** The rows of a join, as (case, upload) pairs. */
  function HeldRows(rows: seq<(string, int)>, c: string): set<int> {
    set row <- rows | row.0 == c :: row.1
  }

  lemma HeldRowsNext(rows: seq<(string, int)>, i: nat, c: string)
    requires i < |rows|
    ensures HeldRows(rows[..i + 1], c) == HeldRows(rows[..i], c) + (if rows[i].0 == c then {rows[i].1} else {})
  {
    assert rows[..i + 1] == rows[..i] + [rows[i]];
  }

  function Ids(rows: seq<int>): set<int> {
    set id <- rows
  }

  lemma IdsNext(rows: seq<int>, i: nat)
    requires i < |rows|
    ensures Ids(rows[..i + 1]) == Ids(rows[..i]) + {rows[i]}
  {
    assert rows[..i + 1] == rows[..i] + [rows[i]];
  }

  /** Rows of one case come in upload order. */
  ghost predicate RowsSorted(uploads: map<int, Upload>, rows: seq<(string, int)>) {
    && (forall row <- rows :: row.1 in uploads)
    && (forall i, j :: 0 <= i < j < |rows| && rows[i].0 == rows[j].0 ==> Before(uploads, rows[i].1, rows[j].1))
  }

  lemma HeldRowsConcat(a: seq<(string, int)>, b: seq<(string, int)>, c: string)
    ensures HeldRows(a + b, c) == HeldRows(a, c) + HeldRows(b, c)
  {
  }

  /** `core` is what the uploads in `held` say about a case. */
  ghost predicate VersionOf(t: Tables, held: set<int>, c: string, core: Core) {
    && held != {} && held <= t.uploads.Keys
    && (Latest(t.uploads, held), c) in t.index
    && core == Core(t.uploads[Earliest(t.uploads, held)].owner,
                    Latest(t.uploads, held),
                    t.index[(Latest(t.uploads, held), c)])
  }

  /** What is known of a case after the rows in `prefix`. */
  ghost predicate VersionFor(t: Tables, prefix: seq<(string, int)>, versions: map<string, Core>, c: string) {
    if c in versions then VersionOf(t, HeldRows(prefix, c), c, versions[c]) else HeldRows(prefix, c) == {}
  }

  ghost predicate VersionsFor(t: Tables, prefix: seq<(string, int)>, versions: map<string, Core>) {
    forall c: string :: VersionFor(t, prefix, versions, c)
  }

  /** One row of the join: the first one of a case creates its version, later ones overwrite the
      source and the content. */
  function NextVersion(t: Tables, versions: map<string, Core>, row: (string, int)): Core
    requires row.1 in t.uploads && (row.1, row.0) in t.index
  {
    var content := t.index[(row.1, row.0)];
    if row.0 in versions then versions[row.0].(source := row.1, content := content)
    else Core(t.uploads[row.1].owner, row.1, content)
  }

  lemma EarlierRowsBefore(uploads: map<int, Upload>, rows: seq<(string, int)>, i: nat)
    requires i < |rows| && RowsSorted(uploads, rows)
    ensures forall v <- HeldRows(rows[..i], rows[i].0) :: v in uploads && Before(uploads, v, rows[i].1)
  {
    forall v <- HeldRows(rows[..i], rows[i].0) ensures v in uploads && Before(uploads, v, rows[i].1) {
      var j :| 0 <= j < i && rows[..i][j] == (rows[i].0, v);
      assert rows[j] in rows;
    }
  }

  lemma VersionsNext(t: Tables, rows: seq<(string, int)>, i: nat, versions: map<string, Core>)
    requires i < |rows| && RowsSorted(t.uploads, rows)
    requires rows[i].1 in t.uploads && (rows[i].1, rows[i].0) in t.index
    requires VersionsFor(t, rows[..i], versions)
    ensures VersionsFor(t, rows[..i + 1], versions[rows[i].0 := NextVersion(t, versions, rows[i])])
  {
    var (c, u) := rows[i];
    var held := HeldRows(rows[..i], c);
    EarlierRowsBefore(t.uploads, rows, i);
    hide HeldRows, Before;
    var prefix, next := rows[..i + 1], versions[c := NextVersion(t, versions, rows[i])];
    forall d: string
      ensures VersionFor(t, prefix, next, d)
    {
      assert VersionFor(t, rows[..i], versions, d);
      HeldRowsNext(rows, i, d);
      if d == c { LaterHolder(t.uploads, held, u); }
    }
  }

  /** Cases a rebuild removes. */
  function Gone(t: Tables, affected: set<string>): set<string> {
    set c <- affected | c in t.cases && Holders(t, c) == {}
  }

  /** Cases a rebuild derives again. */
  function Remade(t: Tables, affected: set<string>): set<string> {
    set c <- affected | Holders(t, c) != {}
  }

  lemma RebuiltNext(t: Tables, done: set<string>, c: string)
    requires c !in done
    ensures Rebuilt(t, done + {c})
         == if Holders(t, c) == {} then Rebuilt(t, done) - {c} else Rebuilt(t, done)[c := RebuiltRow(t, c)]
    ensures c in Rebuilt(t, done) <==> c in t.cases
    ensures c in t.cases ==> Rebuilt(t, done)[c] == t.cases[c]
  {
    hide Holders, RebuiltRow;
  }

  lemma RebuiltNothing(t: Tables)
    ensures Rebuilt(t, {}) == t.cases && Gone(t, {}) == {} && Remade(t, {}) == {}
  {
    hide Holders, RebuiltRow;
  }

  lemma GoneNext(t: Tables, done: set<string>, c: string)
    requires c !in done
    ensures |Gone(t, done + {c})| == |Gone(t, done)| + (if c in t.cases && Holders(t, c) == {} then 1 else 0)
  {
    hide Holders;
    assert Gone(t, done + {c}) == Gone(t, done) + (if c in t.cases && Holders(t, c) == {} then {c} else {});
  }

  lemma RemadeNext(t: Tables, done: set<string>, c: string)
    requires c !in done
    ensures |Remade(t, done + {c})| == |Remade(t, done)| + (if Holders(t, c) != {} then 1 else 0)
  {
    hide Holders;
    assert Remade(t, done + {c}) == Remade(t, done) + (if Holders(t, c) != {} then {c} else {});
  }

  lemma RepointedNext(uploads: map<int, Upload>, ids: set<int>, done: set<int>, row: int)
    requires done <= ids <= uploads.Keys && row in ids
    ensures var now := Repointed(uploads, ids, done);
            Repointed(uploads, ids, done + {row})
              == map u <- now ::
                   if now[u].duplicateOf == Some(row)
                   then now[u].(duplicateOf := Replacement(uploads, ids, uploads[row].payloadHash))
                   else now[u]
  {
    var now := Repointed(uploads, ids, done);
    forall u <- uploads
      ensures now[u].duplicateOf == Some(row) <==> uploads[u].duplicateOf == Some(row) && row !in done
    {
    }
  }

  lemma RepointedNothing(uploads: map<int, Upload>, ids: set<int>)
    ensures Repointed(uploads, ids, {}) == uploads
  {
  }

  lemma SameReplacement(before: map<int, Upload>, now: map<int, Upload>, ids: set<int>, hash: int)
    requires before.Keys == now.Keys && forall u <- now :: now[u].payloadHash == before[u].payloadHash
    ensures Replacement(now, ids, hash) == Replacement(before, ids, hash)
  {
    forall u: int ensures u in WithHash(now, hash) <==> u in WithHash(before, hash) {
      assert u in now.Keys <==> u in before.Keys;
    }
    assert WithHash(now, hash) == WithHash(before, hash);
  }

  lemma PurgeOfNothing(t: Tables, inside: string -> bool)
    ensures WithoutUploads(t, {}) == t && Unreferenced(t, {}, inside) == {}
  {
    assert Repointed(t.uploads, {}, {}) == t.uploads;
    assert (map k <- t.index | k.0 !in {} :: t.index[k]) == t.index;
  }

  /** An upload that survives a purge changes its duplicate reference only if that named a purged upload;
      then it names the smallest survivor with that upload's payload, if there is one. */
  predicate RepointedRight(before: map<int, Upload>, after: map<int, Upload>, rows: seq<int>, v: int)
    requires v in after && v in before && Ids(rows) <= before.Keys
  {
    var was, now := before[v].duplicateOf, after[v].duplicateOf;
    && after[v] == before[v].(duplicateOf := now)
    && if was.None? || was.value !in rows then now == was
       else if now.None? then forall w <- after :: after[w].payloadHash != before[was.value].payloadHash
       else
         && now.value in after && after[now.value].payloadHash == before[was.value].payloadHash
         && forall w <- after :: after[w].payloadHash == before[was.value].payloadHash ==> now.value <= w
  }

  lemma PurgedUploads(t: Tables, userId: int, ids: set<int>)
    requires ids <= t.uploads.Keys
    ensures var t' := Purged(t, userId, ids);
      && t'.uploads == Repointed(t.uploads, ids, ids) - ids && t'.uploads.Keys == t.uploads.Keys - ids
      && t'.index == map k <- t.index | k.0 !in ids :: t.index[k]
  {
    hide Repointed, Affected, Rebuilt, WithoutSources;
  }

  lemma PurgeRepoints(t: Tables, userId: int, rows: seq<int>, v: int)
    requires Ids(rows) <= t.uploads.Keys && v in t.uploads && v !in rows
    ensures v in Purged(t, userId, Ids(rows)).uploads
    ensures RepointedRight(t.uploads, Purged(t, userId, Ids(rows)).uploads, rows, v)
  {
    var ids := Ids(rows);
    PurgedUploads(t, userId, ids);
    hide Purged;
    var was, after := t.uploads[v].duplicateOf, Repointed(t.uploads, ids, ids) - ids;
    if was.Some? && was.value in rows {
      var hash := t.uploads[was.value].payloadHash;
      assert forall w: int :: w in WithHash(t.uploads, hash) - ids <==> w in after && after[w].payloadHash == hash;
    }
  }

  lemma SameGone(t: Tables, userId: int, rows: seq<int>)
    requires Ids(rows) <= t.uploads.Keys
    ensures Gone(WithoutUploads(t, Ids(rows)), Affected(t, userId, Ids(rows)))
         == t.cases.Keys - Purged(t, userId, Ids(rows)).cases.Keys
  {
    hide Holders, RebuiltRow, Repointed, Affected;
  }

  lemma SameRemade(t: Tables, userId: int, rows: seq<int>)
    requires Ids(rows) <= t.uploads.Keys
    ensures Remade(WithoutUploads(t, Ids(rows)), Affected(t, userId, Ids(rows)))
         == set c <- Purged(t, userId, Ids(rows)).cases | Concerned(t, userId, Ids(rows), c)
  {
    hide Holders, RebuiltRow, Repointed, Affected, Concerned;
    forall c: string ensures c in Affected(t, userId, Ids(rows)) <==> Concerned(t, userId, Ids(rows), c) {
      AffectedIsConcerned(t, userId, Ids(rows), c);
    }
  }

  lemma PurgeCleans(t: Tables, userId: int, rows: seq<int>, inside: string -> bool, path: string)
    requires Ids(rows) <= t.uploads.Keys
    ensures var after := Purged(t, userId, Ids(rows)).uploads;
      path in Unreferenced(t, Ids(rows), inside) <==>
        && path != "" && inside(path)
        && (exists u <- rows :: t.uploads[u].storedPath == path)
        && (forall v <- after :: after[v].storedPath != path)
  {
    PurgedUploads(t, userId, Ids(rows));
    hide Purged;
    var after := Repointed(t.uploads, Ids(rows), Ids(rows)) - Ids(rows);
    assert forall v <- after :: after[v].storedPath == t.uploads[v].storedPath;
    if exists u <- rows :: t.uploads[u].storedPath == path {
      var u :| u in rows && t.uploads[u].storedPath == path;
      assert u in Ids(rows);
    }
  }

  function Paths(paths: seq<string>): set<string> {
    set path <- paths
  }

  function PathsOf(t: Tables, rows: seq<int>): set<string> {
    set id <- rows | id in t.uploads :: t.uploads[id].storedPath
  }

  lemma UnreferencedWhenUnused(t: Tables, ids: set<int>, inside: string -> bool, row: int, remaining: set<int>)
    requires ids <= t.uploads.Keys && row in ids && t.uploads[row].storedPath != ""
    requires forall u: int ::
      u in remaining <==> u in t.uploads && u !in ids && t.uploads[u].storedPath == t.uploads[row].storedPath
    ensures t.uploads[row].storedPath in Unreferenced(t, ids, inside)
       <==> remaining == {} && inside(t.uploads[row].storedPath)
  {
    if remaining != {} {
      var v := AnElement(remaining);
    }
  }

  predicate HasRejectedContent(cases: map<string, CaseRow>, c: string) {
    c in cases && cases[c].status == Rejected && !cases[c].contentDeleted
  }

  lemma ContentDeletedInWords(t: Tables)
    ensures var t' := ContentDeleted(t);
      && t'.cases.Keys == t.cases.Keys
      && (forall c <- t'.cases :: t'.cases[c] ==
            if HasRejectedContent(t.cases, c)
            then CaseRow(Owner(None, None), None, Rejected, Content("", "", "[]", "{}"), true) else t.cases[c])
      && (forall k: (int, string) ::
            && (k in t'.index <==> k in t.index && !HasRejectedContent(t.cases, k.1))
            && (k in t'.index ==> t'.index[k] == t.index[k]))
    ensures (set c <- t.cases | Doomed(t.cases[c]))
         == set c <- t.cases | HasRejectedContent(t.cases, c)
  {
  }

  /** An upload of the same payload by the same user, or, for an owner without a user, by the same client
      identity, where 0 stands for a missing one. */
  predicate AlreadyUploaded(upload: Upload, owner: Owner, hash: int) {
    && upload.payloadHash == hash
    && match owner.userId
       case Some(_) => upload.owner.userId == owner.userId
       case None => upload.owner.clientId == match owner.clientId case Some(id) => Some(id) case None => Some(0)
  }

  class HubDatabase {
    var uploads: map<int, Upload>
    var uploadCases: map<(int, string), Content>
    var trainingCases: map<string, CaseRow>
    var nextUploadId: int
    var linkedUsers: map<int, int>

    ghost function State(): Tables
      reads this
    {
      Tables(uploads, uploadCases, trainingCases, nextUploadId, linkedUsers)
    }

    constructor ()
      ensures State() == EMPTY
    {
      uploads, uploadCases, trainingCases, nextUploadId, linkedUsers := map[], map[], map[], 1, map[];
    }

    /** The duplicate lookup and the insert of an accepted upload: refused exactly if the same owner has
        the same payload already, where an upload without a user is matched by its client identity, and
        otherwise stored with the smallest upload of that payload as its duplicate reference. */
    method AcceptTrainingUpload(owner: Owner, createdAt: int, storedPath: string, hash: int)
      returns (r: Acceptance)
      modifies this
      ensures Next(old(State()), Accept(owner, createdAt, storedPath, hash), State())
      ensures r.Duplicate? <==> exists u <- old(uploads) :: AlreadyUploaded(old(uploads)[u], owner, hash)
      ensures r.Duplicate? ==> State() == old(State())
      ensures r.Duplicate? ==>
        && r.uploadId in uploads && AlreadyUploaded(uploads[r.uploadId], owner, hash)
        && forall u <- uploads :: AlreadyUploaded(uploads[u], owner, hash) ==> r.uploadId <= u
      ensures r.Accepted? ==>
        && r.newId == old(nextUploadId) && nextUploadId == r.newId + 1 && r.newId in uploads
        && var duplicateOf := uploads[r.newId].duplicateOf;
        && uploads == old(uploads)[r.newId := Upload(createdAt, owner, storedPath, hash, duplicateOf)]
        && (duplicateOf.None? ==> forall w <- old(uploads) :: old(uploads)[w].payloadHash != hash)
        && (duplicateOf.Some? ==>
              && duplicateOf.value in old(uploads) && old(uploads)[duplicateOf.value].payloadHash == hash
              && forall w <- old(uploads) :: old(uploads)[w].payloadHash == hash ==> duplicateOf.value <= w)
      ensures trainingCases == old(trainingCases) && uploadCases == old(uploadCases) && linkedUsers == old(linkedUsers)
    {
      var ownExisting := OwnExisting(Tables(uploads, uploadCases, trainingCases, nextUploadId, linkedUsers), owner, hash);
      assert forall u: int :: u in ownExisting <==> u in uploads && AlreadyUploaded(uploads[u], owner, hash);
      if ownExisting != {} {
        return Duplicate(Smallest(ownExisting).value);
      }
      assert forall w: int :: w in WithHash(uploads, hash) <==> w in uploads && uploads[w].payloadHash == hash;
      var duplicateRow := Smallest(WithHash(uploads, hash));
      uploads := uploads[nextUploadId := Upload(createdAt, owner, storedPath, hash, duplicateRow)];
      r := Accepted(nextUploadId);
      nextUploadId := nextUploadId + 1;
    }

    /** One transaction: nothing is kept of an ingest that fails, which it does exactly for a payload
        without a case id, for a vanished upload that brings a case, and for a new case that occurs
        twice. Otherwise every case that the upload brings has its last content from there, and
        everything else is as before. */
    method IngestCasesFromUpload(owner: Owner, uploadId: int, parsed: seq<Payload>) returns (r: Ingest)
      modifies this
      ensures r.IngestFailed? ==> State() == old(State())
      ensures r == IngestFailed(MissingCaseId) <==> exists p <- parsed :: p.caseId == ""
      ensures r == IngestFailed(UploadGone) <==>
        && (forall p <- parsed :: p.caseId != "") && uploadId !in old(uploads)
        && (exists p <- parsed :: Brings(old(trainingCases), parsed, p.caseId))
      ensures r == IngestFailed(RepeatedNewCase) <==>
        && (forall p <- parsed :: p.caseId != "")
        && (uploadId in old(uploads) || forall p <- parsed :: !Brings(old(trainingCases), parsed, p.caseId))
        && (exists i, j :: 0 <= i < j < |parsed| && parsed[i].caseId == parsed[j].caseId
                        && parsed[i].caseId !in old(trainingCases))
      ensures (uploadId in old(uploads) ==> old(uploads)[uploadId].owner == owner) ==>
        Next(old(State()), IngestCases(owner, uploadId, parsed), State())
      ensures r.Ingested? ==> uploads == old(uploads)
      ensures r.Ingested? ==>
        forall j | 0 <= j < |parsed| && Brings(old(trainingCases), parsed, parsed[j].caseId) && LastOf(parsed, j) ::
          BroughtRight(old(State()), State(), owner, uploadId, parsed[j])
      ensures r.Ingested? ==>
        forall u: int, c: string | u != uploadId || !Brings(old(trainingCases), parsed, c) ::
          Same(old(uploadCases), uploadCases, (u, c))
      ensures r.Ingested? ==>
        forall c: string | !Brings(old(trainingCases), parsed, c) :: Same(old(trainingCases), trainingCases, c)
      ensures r.Ingested? ==>
        && r.inserted == |trainingCases| - |old(trainingCases)|
        && r.skipped == |set i | 0 <= i < |parsed| && parsed[i].caseId in old(trainingCases)
                              && old(trainingCases)[parsed[i].caseId].status == Rejected
                              && old(trainingCases)[parsed[i].caseId].contentDeleted|
        && r.inserted + r.updated + r.skipped == |parsed|
    {
      hide Kept, CaseIds, IngestedAs, RepeatsNewCase, Skipped, Brings, BroughtRight, LastOf, Same;
      ghost var t := State();
      r := IngestRows(owner, uploadId, parsed);
      SkippedAreTheRest(t, parsed);
      SkippedInWords(t, parsed);
      FailsInWords(t, uploadId, parsed);
      if r.Ingested? { IngestInWords(t, State(), owner, uploadId, parsed); }
    }

    /** The statements of an ingest. */
    method IngestRows(owner: Owner, uploadId: int, parsed: seq<Payload>) returns (r: Ingest)
      modifies this
      ensures r.IngestFailed? <==> IngestFails(old(State()), uploadId, parsed)
      ensures r.IngestFailed? ==> State() == old(State())
      ensures r.IngestFailed? ==>
        && (r.error.MissingCaseId? <==> "" in CaseIds(parsed))
        && (r.error.UploadGone? <==>
              "" !in CaseIds(parsed) && Kept(old(State()), parsed) != [] && uploadId !in old(uploads))
      ensures r.Ingested? ==>
        && IngestedAs(old(State()), State(), owner, uploadId, Kept(old(State()), parsed))
        && r.inserted == |trainingCases| - |old(trainingCases)|
        && r.updated == |Kept(old(State()), parsed)| - r.inserted
        && r.skipped == |parsed| - |Kept(old(State()), parsed)|
    {
      hide Kept, CaseIds, IndexApplied, CasesApplied, RepeatsNewCase, Skipped;
      var t := Tables(uploads, uploadCases, trainingCases, nextUploadId, linkedUsers);
      var missing, accepted, existing := SplitTombstoned(t, parsed);
      if missing {
        return IngestFailed(MissingCaseId);
      }
      KeptCaseIds(t, parsed);
      if accepted != [] && uploadId !in uploads {
        return IngestFailed(UploadGone);
      }
      var index := UpsertUploadCaseEntries(uploadId, accepted);
      var failed, cases, inserted := ApplyCases(owner, uploadId, accepted, existing);
      if failed {
        return IngestFailed(RepeatedNewCase);
      }
      uploadCases, trainingCases := index, cases;
      r := Ingested(inserted, |accepted| - inserted, |parsed| - |accepted|);
    }

    /** Which payloads are kept, and which cases the table already has. */
    static method SplitTombstoned(t: Tables, parsed: seq<Payload>)
      returns (missing: bool, accepted: seq<Payload>, existing: set<string>)
      ensures missing <==> "" in CaseIds(parsed)
      ensures !missing ==> accepted == Kept(t, parsed) && |accepted| <= |parsed|
      ensures !missing ==> forall p :: p in accepted <==>
        p in parsed && !(p.caseId in t.cases && t.cases[p.caseId].status == Rejected && t.cases[p.caseId].contentDeleted)
      ensures !missing ==> existing == CaseIds(parsed) * t.cases.Keys
    {
      accepted, existing := [], {};
      for i := 0 to |parsed|
        invariant accepted == Kept(t, parsed[..i]) && |accepted| <= i
        invariant "" !in CaseIds(parsed[..i])
        invariant existing == CaseIds(parsed[..i]) * t.cases.Keys
      {
        CaseIdsNext(parsed, i);
        assert parsed[..i + 1][..i] == parsed[..i];
        var p := parsed[i];
        if p.caseId == "" {
          assert p in parsed;
          return true, accepted, existing;
        }
        if p.caseId in t.cases {
          existing := existing + {p.caseId};
        }
        if !Skipped(t, p.caseId) {
          accepted := accepted + [p];
        }
      }
      assert parsed[..|parsed|] == parsed;
      KeptIsKept(t, parsed);
      missing := false;
    }

    method UpsertUploadCaseEntries(uploadId: int, ps: seq<Payload>) returns (index: map<(int, string), Content>)
      ensures IndexApplied(uploadCases, index, uploadId, ps)
    {
      index := uploadCases;
      for i := 0 to |ps|
        invariant IndexApplied(uploadCases, index, uploadId, ps[..i])
      {
        CaseIdsNext(ps, i);
        index := index[(uploadId, ps[i].caseId) := ps[i].content];
      }
      assert ps[..|ps|] == ps;
    }

    method ApplyCases(owner: Owner, uploadId: int, ps: seq<Payload>, existing: set<string>)
      returns (failed: bool, cases: map<string, CaseRow>, inserted: nat)
      requires forall c <- CaseIds(ps) :: c in existing <==> c in trainingCases
      ensures failed <==> RepeatsNewCase(State(), ps)
      ensures !failed ==>
        CasesApplied(trainingCases, cases, owner, uploadId, ps) && inserted == |cases| - |trainingCases|
        && inserted <= |ps|
    {
      cases, inserted := trainingCases, 0;
      for i := 0 to |ps|
        invariant CasesApplied(trainingCases, cases, owner, uploadId, ps[..i])
        invariant inserted == |cases| - |trainingCases| && inserted <= i
        invariant !RepeatsNewCase(State(), ps[..i])
      {
        RepeatsNext(State(), ps, i);
        CasesAppliedNext(trainingCases, cases, owner, uploadId, ps, i);
        var p := ps[i];
        assert p in ps && p.caseId in CaseIds(ps);
        if p.caseId !in existing {
          if p.caseId in cases {
            // The unique key on case_id rejects the second insert.
            return true, cases, inserted;
          }
          cases := cases[p.caseId := CaseRow(owner, Some(uploadId), Submitted, p.content, false)];
          inserted := inserted + 1;
        } else {
          cases := cases[p.caseId := cases[p.caseId].(source := Some(uploadId), content := p.content)];
        }
      }
      assert ps[..|ps|] == ps;
      failed := false;
    }

    // --------------------------------------------------------------- purging

    /** Removes uploads, repoints what referred to them, and rebuilds only the affected cases: those that
        a purged upload held, that have a purged source, or that the user or one of the user's client
        identities created. They are gone if nobody holds them any more, and otherwise submitted again;
        all others keep their rows. */
    method PurgeUploads(userId: int, rows: seq<int>, inside: string -> bool)
      returns (deletedCases: nat, rebuiltCases: nat, cleanup: seq<string>)
      requires Ids(rows) <= uploads.Keys
      modifies this
      ensures Next(old(State()), Purge(userId, Ids(rows)), State())
      ensures uploads.Keys == old(uploads).Keys - Ids(rows)
      ensures forall v <- uploads :: RepointedRight(old(uploads), uploads, rows, v)
      ensures forall k: (int, string) ::
        && (k in uploadCases <==> k in old(uploadCases) && k.0 !in rows)
        && (k in uploadCases ==> uploadCases[k] == old(uploadCases)[k])
      ensures forall c: string | !Concerned(old(State()), userId, Ids(rows), c) :: Same(old(trainingCases), trainingCases, c)
      ensures forall c: string :: Concerned(old(State()), userId, Ids(rows), c) ==>
        && (c in trainingCases <==> exists v <- uploads :: (v, c) in old(uploadCases))
        && (c in trainingCases ==> trainingCases[c].status == Submitted)
      ensures deletedCases == |old(trainingCases).Keys - trainingCases.Keys|
      ensures rebuiltCases == |set c <- trainingCases | Concerned(old(State()), userId, Ids(rows), c)|
      ensures forall i, j :: 0 <= i < j < |cleanup| ==> cleanup[i] != cleanup[j]
      ensures forall path: string ::
        path in cleanup <==>
          && path != "" && inside(path)
          && (exists u <- rows :: old(uploads)[u].storedPath == path)
          && (forall v <- uploads :: uploads[v].storedPath != path)
    {
      hide Affected, Rebuilt, Unreferenced, Holders, Gone, Remade, Purged, Concerned, RepointedRight, WithoutUploads;
      ghost var t := State();
      deletedCases, rebuiltCases, cleanup := PurgeUploadRows(userId, rows, inside);
      PurgedUploads(t, userId, Ids(rows));
      forall c: string | Concerned(t, userId, Ids(rows), c)
        ensures c in trainingCases <==> exists v <- uploads :: (v, c) in t.index
        ensures c in trainingCases ==> trainingCases[c].status == Submitted
      {
        PurgeRemovesOrResubmits(t, userId, Ids(rows), c);
      }
      forall c: string | !Concerned(t, userId, Ids(rows), c)
        ensures Same(t.cases, trainingCases, c)
      {
        PurgeLeavesOthers(t, userId, Ids(rows), c);
      }
      forall v <- uploads ensures RepointedRight(t.uploads, uploads, rows, v) {
        PurgeRepoints(t, userId, rows, v);
      }
      SameGone(t, userId, rows);
      SameRemade(t, userId, rows);
      forall path: string
        ensures path in cleanup <==>
          && path != "" && inside(path)
          && (exists u <- rows :: t.uploads[u].storedPath == path)
          && (forall v <- uploads :: uploads[v].storedPath != path)
      {
        PurgeCleans(t, userId, rows, inside, path);
        assert path in cleanup <==> path in Paths(cleanup);
      }
    }

    /** The statements of a purge. */
    method PurgeUploadRows(userId: int, rows: seq<int>, inside: string -> bool)
      returns (deletedCases: nat, rebuiltCases: nat, cleanup: seq<string>)
      requires Ids(rows) <= uploads.Keys
      modifies this
      ensures State() == Purged(old(State()), userId, Ids(rows))
      ensures Paths(cleanup) == Unreferenced(old(State()), Ids(rows), inside)
      ensures forall i, j :: 0 <= i < j < |cleanup| ==> cleanup[i] != cleanup[j]
      ensures deletedCases == |Gone(WithoutUploads(old(State()), Ids(rows)), Affected(old(State()), userId, Ids(rows)))|
      ensures rebuiltCases == |Remade(WithoutUploads(old(State()), Ids(rows)), Affected(old(State()), userId, Ids(rows)))|
    {
      hide Affected, Rebuilt, Unreferenced, Repointed, WithoutSources, Holders, Gone, Remade;
      var ids := Ids(rows);
      var t := Tables(uploads, uploadCases, trainingCases, nextUploadId, linkedUsers);
      var affected := Affected(t, userId, ids);
      if rows == [] {
        assert ids == {};
        PurgeOfNothing(t, inside);
        deletedCases, rebuiltCases := RebuildTrainingCases(affected);
        cleanup := [];
        return;
      }
      RemoveUploads(rows, ids);
      deletedCases, rebuiltCases := RebuildTrainingCases(affected);
      cleanup := CollectUnreferencedPaths(t, rows, ids, inside);
    }

    method RemoveUploads(rows: seq<int>, ids: set<int>)
      requires ids == Ids(rows) && ids <= uploads.Keys
      modifies this
      ensures State() == WithoutUploads(old(State()), ids)
    {
      hide Repointed, WithoutSources;
      trainingCases := WithoutSources(trainingCases, ids);
      RepointDuplicateReferences(rows, ids);
      uploadCases := map k <- uploadCases | k.0 !in ids :: uploadCases[k];
      uploads := uploads - ids;
    }

    method RepointDuplicateReferences(rows: seq<int>, ids: set<int>)
      requires ids == Ids(rows) && ids <= uploads.Keys
      modifies this`uploads
      ensures uploads == Repointed(old(uploads), ids, ids)
    {
      hide Repointed, Replacement;
      ghost var before := uploads;
      var replacements: map<int, Option<int>> := map[];
      RepointedNothing(before, ids);
      assert Ids(rows[..0]) == {};
      for i := 0 to |rows|
        invariant Ids(rows[..i]) <= ids
        invariant uploads == Repointed(before, ids, Ids(rows[..i]))
        invariant forall h <- replacements :: replacements[h] == Replacement(before, ids, h)
      {
        var row := rows[i];
        assert row in ids;
        var payloadSha := uploads[row].payloadHash;
        var replacementId: Option<int>;
        if payloadSha in replacements {
          replacementId := replacements[payloadSha];
        } else {
          SameReplacement(before, uploads, ids, payloadSha);
          replacementId := Replacement(uploads, ids, payloadSha);
          replacements := replacements[payloadSha := replacementId];
        }
        RepointedNext(before, ids, Ids(rows[..i]), row);
        IdsNext(rows, i);
        uploads := map u <- uploads ::
          if uploads[u].duplicateOf == Some(row) then uploads[u].(duplicateOf := replacementId) else uploads[u];
      }
      assert rows[..|rows|] == rows;
    }

    /** `ORDER BY case_id, created_at, id` over the join of the index and the uploads. */
    method SelectVersionRows(affected: set<string>) returns (rows: seq<(string, int)>)
      ensures forall row <- rows :: row.0 in affected && row.1 in Holders(State(), row.0)
      ensures forall c <- affected :: HeldRows(rows, c) == Holders(State(), c)
      ensures RowsSorted(uploads, rows)
    {
      var t := Tables(uploads, uploadCases, trainingCases, nextUploadId, linkedUsers);
      rows := [];
      var todo := affected;
      while todo != {}
        invariant todo <= affected
        invariant forall row <- rows :: row.0 in affected - todo && row.1 in Holders(t, row.0)
        invariant forall c <- affected - todo :: HeldRows(rows, c) == Holders(t, c)
        invariant RowsSorted(uploads, rows)
      {
        ghost var any := AnElement(todo);
        var c :| c in todo;
        var more := SelectHolders(t, c);
        ghost var before := rows;
        rows := rows + more;
        forall d <- affected - todo + {c} ensures HeldRows(rows, d) == Holders(t, d) {
          HeldRowsConcat(before, more, d);
        }
        todo := todo - {c};
      }
    }

    static method SelectHolders(t: Tables, c: string) returns (rows: seq<(string, int)>)
      ensures forall row <- rows :: row.0 == c && row.1 in Holders(t, c)
      ensures HeldRows(rows, c) == Holders(t, c)
      ensures forall i, j :: 0 <= i < j < |rows| ==> Before(t.uploads, rows[i].1, rows[j].1)
    {
      rows := [];
      var todo := Holders(t, c);
      while todo != {}
        invariant todo <= Holders(t, c)
        invariant forall row <- rows :: row.0 == c && row.1 in Holders(t, c) - todo
        invariant HeldRows(rows, c) == Holders(t, c) - todo
        invariant forall i, j :: 0 <= i < j < |rows| ==> Before(t.uploads, rows[i].1, rows[j].1)
        invariant forall row <- rows :: forall u <- todo :: Before(t.uploads, row.1, u)
      {
        var u := Earliest(t.uploads, todo);
        HeldRowsConcat(rows, [(c, u)], c);
        assert HeldRows([(c, u)], c) == {u};
        rows := rows + [(c, u)];
        todo := todo - {u};
      }
    }

    /** What the surviving uploads say about the affected cases: the first row of a case decides its
        creator, the last one its source and content. */
    method RemainingCaseVersions(affected: set<string>) returns (versions: map<string, Core>)
      ensures forall c <- affected :: c in versions <==> Holders(State(), c) != {}
      ensures forall c <- versions :: c in affected && Holders(State(), c) != {} && versions[c] == Derived(State(), c)
    {
      var rows := SelectVersionRows(affected);
      ghost var t := State();
      versions := map[];
      for i := 0 to |rows|
        invariant VersionsFor(t, rows[..i], versions)
      {
        var (c, u) := rows[i];
        assert rows[i] in rows;
        VersionsNext(t, rows, i, versions);
        if c !in versions {
          versions := versions[c := Core(uploads[u].owner, u, uploadCases[(u, c)])];
        } else {
          versions := versions[c := versions[c].(source := u, content := uploadCases[(u, c)])];
        }
      }
      assert rows[..|rows|] == rows;
      forall c: string
        ensures c in versions <==> c in affected && Holders(t, c) != {}
        ensures c in versions ==> versions[c] == Derived(t, c)
      {
        assert VersionFor(t, rows, versions, c);
        if c !in affected && HeldRows(rows, c) != {} {
          var u := AnElement(HeldRows(rows, c));
          assert false;
        }
      }
    }

    method RebuildTrainingCases(affected: set<string>) returns (deleted: nat, rebuilt: nat)
      modifies this`trainingCases
      ensures trainingCases == Rebuilt(old(State()), affected)
      ensures deleted == |Gone(old(State()), affected)| && rebuilt == |Remade(old(State()), affected)|
    {
      hide Holders, Derived, Rebuilt, Gone, Remade;
      ghost var t := State();
      var versions := RemainingCaseVersions(affected);
      var todo := affected;
      deleted, rebuilt := 0, 0;
      RebuiltNothing(t);
      assert affected - todo == {};
      while todo != {}
        invariant todo <= affected
        invariant trainingCases == Rebuilt(t, affected - todo)
        invariant deleted == |Gone(t, affected - todo)| && rebuilt == |Remade(t, affected - todo)|
      {
        ghost var any := AnElement(todo);
        var c :| c in todo;
        assert affected - (todo - {c}) == (affected - todo) + {c};
        RebuiltNext(t, affected - todo, c);
        GoneNext(t, affected - todo, c);
        RemadeNext(t, affected - todo, c);
        if c !in versions {
          if c in trainingCases {
            deleted := deleted + 1;
          }
          trainingCases := trainingCases - {c};
        } else {
          var v := versions[c];
          trainingCases := trainingCases[c :=
            CaseRow(v.creator, Some(v.source), Submitted, v.content,
                    c in trainingCases && trainingCases[c].contentDeleted)];
          rebuilt := rebuilt + 1;
        }
        todo := todo - {c};
      }
      assert affected - todo == affected;
    }

    /** Called after the uploads were removed; `t` is the state before, where the rows were read. */
    method CollectUnreferencedPaths(t: Tables, rows: seq<int>, ids: set<int>, inside: string -> bool)
      returns (cleanup: seq<string>)
      requires ids == Ids(rows) && ids <= t.uploads.Keys
      requires forall u: int :: u in uploads <==> u in t.uploads && u !in ids
      requires forall u <- uploads :: uploads[u].storedPath == t.uploads[u].storedPath
      ensures Paths(cleanup) == Unreferenced(t, ids, inside)
      ensures forall i, j :: 0 <= i < j < |cleanup| ==> cleanup[i] != cleanup[j]
    {
      cleanup := [];
      var seen: set<string> := {};
      for i := 0 to |rows|
        invariant seen == PathsOf(t, rows[..i]) - {""}
        invariant Paths(cleanup) == Unreferenced(t, ids, inside) * seen
        invariant forall k, j :: 0 <= k < j < |cleanup| ==> cleanup[k] != cleanup[j]
      {
        var row := rows[i];
        assert row in ids;
        var path := t.uploads[row].storedPath;
        assert PathsOf(t, rows[..i + 1]) == PathsOf(t, rows[..i]) + {path} by {
          assert rows[..i + 1] == rows[..i] + [row];
        }
        if path != "" && path !in seen {
          var remaining := set u <- uploads | uploads[u].storedPath == path;
          UnreferencedWhenUnused(t, ids, inside, row, remaining);
          assert path !in Paths(cleanup);
          if remaining == {} && inside(path) {
            assert Paths(cleanup + [path]) == Paths(cleanup) + {path};
            assert forall k :: 0 <= k < |cleanup| ==> cleanup[k] in Paths(cleanup);
            cleanup := cleanup + [path];
          }
          seen := seen + {path};
        }
      }
      assert rows[..|rows|] == rows;
      assert Unreferenced(t, ids, inside) <= PathsOf(t, rows) - {""};
    }

    // --------------------------------------------------- admin maintenance

    /** Exactly the rejected cases that still have content are blanked, and nobody holds them any more. */
    method DeleteRejectedContent() returns (deletedCases: nat)
      modifies this
      ensures Next(old(State()), DeleteContent, State())
      ensures trainingCases.Keys == old(trainingCases).Keys && uploads == old(uploads)
      ensures forall c <- trainingCases ::
        trainingCases[c] ==
          if HasRejectedContent(old(trainingCases), c)
          then CaseRow(Owner(None, None), None, Rejected, Content("", "", "[]", "{}"), true) else old(trainingCases)[c]
      ensures forall k: (int, string) ::
        && (k in uploadCases <==> k in old(uploadCases) && !HasRejectedContent(old(trainingCases), k.1))
        && (k in uploadCases ==> uploadCases[k] == old(uploadCases)[k])
      ensures deletedCases == |set c <- old(trainingCases) | HasRejectedContent(old(trainingCases), c)|
    {
      ghost var t := State();
      deletedCases := BlankRejectedRows();
      ContentDeletedInWords(t);
    }

    /** The statements of a content deletion. */
    method BlankRejectedRows() returns (deletedCases: nat)
      modifies this
      ensures State() == ContentDeleted(old(State()))
      ensures deletedCases == |set c <- old(trainingCases) | Doomed(old(trainingCases)[c])|
    {
      var rows := set c <- trainingCases | Doomed(trainingCases[c]);
      if rows == {} {
        assert ContentDeleted(State()).index == uploadCases;
        assert ContentDeleted(State()).cases == trainingCases;
        return 0;
      }
      var todo := rows;
      while todo != {}
        invariant todo <= rows && State() == old(State()).(cases := trainingCases)
        invariant trainingCases
               == map c <- old(trainingCases) ::
                    if c in rows - todo then CaseRow(NOBODY, None, Rejected, BLANK, true) else old(trainingCases)[c]
      {
        ghost var any := AnElement(todo);
        var c :| c in todo;
        var row := trainingCases[c];
        trainingCases := trainingCases[c := row.(creator := NOBODY, source := None, content := BLANK, contentDeleted := true)];
        todo := todo - {c};
      }
      assert rows - todo == rows;
      assert trainingCases == ContentDeleted(old(State())).cases;
      uploadCases := map k <- uploadCases | k.1 !in rows :: uploadCases[k];
      assert uploadCases == ContentDeleted(old(State())).index;
      deletedCases := |rows|;
    }

    method UpdateCaseStatus(caseId: string, status: Status) returns (changed: bool)
      requires status != Submitted
      modifies this
      ensures Next(old(State()), SetStatus(caseId, status), State())
      ensures changed <==> caseId in old(trainingCases) && old(trainingCases)[caseId].status == Submitted
      ensures State() == old(State()).(cases := trainingCases)
      ensures trainingCases == if changed then old(trainingCases)[caseId := old(trainingCases)[caseId].(status := status)]
                               else old(trainingCases)
    {
      if caseId !in trainingCases || trainingCases[caseId].status != Submitted {
        return false;
      }
      trainingCases := trainingCases[caseId := trainingCases[caseId].(status := status)];
      changed := true;
    }
  }
}
