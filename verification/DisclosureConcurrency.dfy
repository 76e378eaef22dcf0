/** `verify_all` beside writers: it reads through one connection after another, and any transaction may commit
  * between two of its reads.
  */
module DisclosureConcurrency {
  import opened Foundations
  import opened DisclosureModels
  import opened DisclosureComposition
  import opened DisclosureRuns
  import opened DisclosureTheorems
  import opened DisclosureAudit
  import T = DisclosureTables

  /** After how many actions of a run each read of one verification happens: the distinct scopes; of each scope
    * its first row and its history; the claims, and the record of each; the records, and of each its state,
    * its claim and its transitions.
    */
  datatype Schedule = Schedule(
    scopes: nat, first: string -> nat, listed: string -> nat,
    claims: nat, claimed: string -> nat,
    records: nat, state: string -> nat, claim: string -> nat, journal: string -> nat)

  predicate ScopeInOrder(s: Schedule, n: nat, h: string) {
    s.scopes <= s.first(h) <= s.listed(h) <= n
  }

  predicate RecordInOrder(s: Schedule, n: nat, id: string) {
    s.claims <= s.claimed(id) <= n && s.records <= s.state(id) <= s.claim(id) <= s.journal(id) <= n
  }

  /** The reads come in the program's order. */
  ghost predicate InOrder(s: Schedule, n: nat) {
    && s.scopes <= n && s.claims <= n && s.records <= n
    && (forall h :: ScopeInOrder(s, n, h)) && (forall id :: RecordInOrder(s, n, id))
  }

  /** The tables after `k` actions of the run. */
  function At(c: Config, actions: seq<Action>, k: nat): Tables {
    if k <= |actions| then Run(c, actions[..k]).tables else Run(c, actions).tables
  }

  /** One round of the scope loop: the first row as read then, the history as read later. */
  function CountAcross(c: Config, rows: seq<T.Row>, later: seq<T.Row>, hash: string): Result<nat, T.LedgerError> {
    var selected := T.RowsOfScope(rows, hash);
    if selected == [] then Ok(0)
    else
      match T.RowToRecord(c, selected[0])
      case Err(e) => Err(e)
      case Ok(first) =>
        match T.RecordsForScope(c, later, first.event.scope)
        case Err(e) => Err(e)
        case Ok(records) => Ok(|records|)
  }

  function Counter(c: Config, actions: seq<Action>, s: Schedule): string -> Result<nat, T.LedgerError> {
    h => CountAcross(c, At(c, actions, s.first(h)).records, At(c, actions, s.listed(h)).records, h)
  }

  /** A claim as read then against its record as read later. */
  predicate ClaimStands(c: Config, t: Tables, later: Tables, id: string)
    requires id in t.claims
  {
    T.ClaimIsSound(c, later.(claims := t.claims), id)
  }

  /** The state, then the claim, then the transitions of a record. */
  predicate ReleaseStands(state: Tables, claim: Tables, journal: Tables, id: string) {
    && T.StateOf(state.journal, id).Ok?
    && (T.StateOf(state.journal, id).value == T.Released && T.StatesOf(journal.journal, id) != [] ==> id in claim.claims)
  }

  predicate ClaimsStand(c: Config, actions: seq<Action>, s: Schedule) {
    var t := At(c, actions, s.claims);
    forall id <- t.claims :: ClaimStands(c, t, At(c, actions, s.claimed(id)), id)
  }

  predicate ReleasesStand(c: Config, actions: seq<Action>, s: Schedule) {
    var rows := At(c, actions, s.records).records;
    forall i | 0 <= i < |rows| ::
      var id := rows[i].recordId;
      ReleaseStands(At(c, actions, s.state(id)), At(c, actions, s.claim(id)), At(c, actions, s.journal(id)), id)
  }

  function VerifyAcross(c: Config, actions: seq<Action>, s: Schedule): Result<nat, T.LedgerError> {
    match T.Total(T.DistinctScopes(At(c, actions, s.scopes).records), Counter(c, actions, s))
    case Err(e) => Err(e)
    case Ok(count) => if ClaimsStand(c, actions, s) && ReleasesStand(c, actions, s) then Ok(count) else Err(T.Integrity)
  }

  // ---------------------------------------------------------------- one run, read at several points

  lemma {:induction false} LaterExtends(c: Config, actions: seq<Action>, k: nat, n: nat)
    requires ValidActions(c, actions) && k <= n <= |actions|
    ensures Extends(At(c, actions, k), At(c, actions, n))
    decreases n
  {
    hide Step;
    if k < n {
      LaterExtends(c, actions, k, n - 1);
      assert actions[..n][..n - 1] == actions[..n - 1];
      StepExtends(c, Run(c, actions[..n - 1]), actions[n - 1]);
    }
  }

  lemma PointKeepsInv(c: Config, actions: seq<Action>, k: nat)
    requires CollisionFree(c) && ValidActions(c, actions) && k <= |actions|
    ensures Inv(c, At(c, actions, k))
  {
    RunKeepsInv(c, actions[..k]);
  }

  /** A record that was never journalled never is. */
  predicate IsUnjournalled(t: Tables, id: string) {
    T.FindRecordId(t.records, id).Some? && T.StatesOf(t.journal, id) == []
  }

  lemma StepKeepsUnjournalled(c: Config, w: World, a: Action, id: string)
    requires CollisionFree(c) && Inv(c, w.tables) && ValidAction(c, a) && IsUnjournalled(w.tables, id)
    ensures IsUnjournalled(Step(c, w, a).tables, id)
  {
    hide Inv, T.EvaluateAndCommit, T.Append;
    match a
    case Evaluate(event, sql, dialect, evaluatedAt, createdAt, recordId) =>
      EvaluateWrites(c, w.tables, event, sql, dialect, evaluatedAt, createdAt, recordId);
      var t' := Step(c, w, a).tables;
      if t' != w.tables {
        InsertKeepsUnjournalled(w.tables, t', t'.records[|w.tables.records|], recordId, id);
      }
    case Append(event, createdAt, recordId) =>
      AppendWrites(c, w.tables, event, createdAt, recordId);
      var t' := Step(c, w, a).tables;
      if t' != w.tables {
        FindAfterInsert(w.tables.records, t'.records[|w.tables.records|], id);
      }
    case _ => FinishKeepsUnjournalled(c, w, a, id);
  }

  lemma InsertKeepsUnjournalled(t: Tables, t': Tables, row: T.Row, recordId: string, id: string)
    requires IsUnjournalled(t, id) && T.FindRecordId(t.records, recordId).None?
    requires t'.records == t.records + [row] && t'.journal == t.journal + [T.Transition(recordId, T.Pending)]
    ensures IsUnjournalled(t', id)
  {
    FindAfterInsert(t.records, row, id);
    StatesAfterInsert(t.journal, recordId, T.Pending, id);
  }

  lemma FinishKeepsUnjournalled(c: Config, w: World, a: Action, id: string)
    requires !a.Evaluate? && !a.Append? && IsUnjournalled(w.tables, id)
    ensures IsUnjournalled(Step(c, w, a).tables, id)
  {
    hide T.RowIsSound, T.RecordForCommitment, T.EvaluateAndCommit, T.Append;
    OthersKeepRecords(c, w, a);
    if a.MarkReleased? {
      StatesAfterInsert(w.tables.journal, a.commitment.recordId, T.Released, id);
    } else if a.MarkAborted? {
      StatesAfterInsert(w.tables.journal, a.commitment.recordId, T.Aborted, id);
    }
  }

  lemma {:induction false} UnjournalledStays(c: Config, actions: seq<Action>, k: nat, n: nat, id: string)
    requires CollisionFree(c) && ValidActions(c, actions) && k <= n <= |actions|
    requires IsUnjournalled(At(c, actions, k), id)
    ensures IsUnjournalled(At(c, actions, n), id)
    decreases n
  {
    hide Step, IsUnjournalled, Inv;
    if k < n {
      UnjournalledStays(c, actions, k, n - 1, id);
      assert actions[..n][..n - 1] == actions[..n - 1];
      RunKeepsInv(c, actions[..n - 1]);
      StepKeepsUnjournalled(c, Run(c, actions[..n - 1]), actions[n - 1], id);
    }
  }

  // ---------------------------------------------------------------- counts

  lemma {:induction false} ScopesGrow(rows: seq<T.Row>, later: seq<T.Row>, h: string)
    requires rows <= later
    ensures |T.RowsOfScope(rows, h)| <= |T.RowsOfScope(later, h)|
  {
    if |rows| == |later| {
      assert rows == later;
    } else {
      var n := |later| - 1;
      ScopesGrow(rows, later[..n], h);
      ScopeAfterInsert(later[..n], later[n], h);
      assert later == later[..n] + [later[n]];
    }
  }

  /** A scope whose first row was read counts its history as of the later read. */
  lemma RoundCounts(c: Config, rows: seq<T.Row>, later: seq<T.Row>, h: string)
    requires CollisionFree(c) && RecordsInv(c, rows) && RecordsInv(c, later) && rows <= later
    requires exists i | 0 <= i < |rows| :: rows[i].scopeSha256 == h
    ensures CountAcross(c, rows, later, h) == Ok(|T.RowsOfScope(later, h)|)
  {
    hide ValidRecord, T.RecordsForScope, ChainedScopes;
    var i :| 0 <= i < |rows| && rows[i].scopeSha256 == h;
    T.SelectedExactly(rows, h);
    var selected := T.RowsOfScope(rows, h);
    assert rows[i] in rows && rows[i] in selected;
    assert selected[0] in selected && selected[0] in rows;
    var k :| 0 <= k < |rows| && rows[k] == selected[0];
    assert T.RowIsSound(c, rows[k]);
    RecordScopeIsValid(c, rows[k].payload);
    ScopeReads(c, later, rows[k].payload.event.scope);
  }

  lemma RecordScopeIsValid(c: Config, r: Record)
    requires ValidRecord(c, r)
    ensures ValidScope(c, r.event.scope)
  {
  }

  predicate HasCount(count: string -> Result<nat, T.LedgerError>, early: seq<T.Row>, late: seq<T.Row>, h: string) {
    count(h).Ok? && |T.RowsOfScope(early, h)| <= count(h).value <= |T.RowsOfScope(late, h)|
  }

  lemma {:induction false} TotalIsBetween(
    hashes: seq<string>, count: string -> Result<nat, T.LedgerError>, early: seq<T.Row>, late: seq<T.Row>)
    requires forall i | 0 <= i < |hashes| :: HasCount(count, early, late, hashes[i])
    ensures T.Total(hashes, count).Ok?
    ensures ListedRows(early, hashes) <= T.Total(hashes, count).value <= ListedRows(late, hashes)
  {
    if hashes != [] {
      var n := |hashes| - 1;
      TotalIsBetween(hashes[..n], count, early, late);
      assert HasCount(count, early, late, hashes[n]);
    }
  }

  /** Distinct scopes list no row twice. */
  lemma {:induction false} ListedAtMostOnce(rows: seq<T.Row>, hashes: seq<string>)
    requires Distinct(hashes)
    ensures ListedRows(rows, hashes) <= |rows|
  {
    if rows == [] {
      NothingListed(hashes);
    } else {
      var n := |rows| - 1;
      ListedAtMostOnce(rows[..n], hashes);
      ListedAfterInsert(rows[..n], rows[n], hashes);
      assert rows == rows[..n] + [rows[n]];
    }
  }

  lemma {:induction false} NothingListed(hashes: seq<string>)
    ensures ListedRows([], hashes) == 0
  {
    if hashes != [] {
      NothingListed(hashes[..|hashes| - 1]);
    }
  }

  lemma {:induction false} ListedScopesOccur(rows: seq<T.Row>, h: string)
    requires h in T.DistinctScopes(rows)
    ensures exists i | 0 <= i < |rows| :: rows[i].scopeSha256 == h
  {
    var n := |rows| - 1;
    if rows[n].scopeSha256 != h {
      ListedScopesOccur(rows[..n], h);
      var i :| 0 <= i < n && rows[..n][i].scopeSha256 == h;
      assert rows[i].scopeSha256 == h;
    }
  }

  lemma CountsAreBetween(c: Config, actions: seq<Action>, s: Schedule)
    requires CollisionFree(c) && ValidActions(c, actions) && InOrder(s, |actions|)
    ensures var hashes := T.DistinctScopes(At(c, actions, s.scopes).records);
            var total := T.Total(hashes, Counter(c, actions, s));
            && total.Ok?
            && |At(c, actions, s.scopes).records| <= total.value <= |At(c, actions, |actions|).records|
  {
    hide Run, RunFrom, ValidActions, T.Total, T.DistinctScopes, ListedRows, CountAcross;
    var early, late := At(c, actions, s.scopes).records, At(c, actions, |actions|).records;
    var hashes := T.DistinctScopes(early);
    forall i | 0 <= i < |hashes| ensures HasCount(Counter(c, actions, s), early, late, hashes[i]) {
      ScopeHasCount(c, actions, s, hashes[i]);
    }
    TotalIsBetween(hashes, Counter(c, actions, s), early, late);
    ScopesAreDistinct(early);
    ScopesPartitionRows(early);
    ListedAtMostOnce(late, hashes);
  }

  lemma ScopeHasCount(c: Config, actions: seq<Action>, s: Schedule, h: string)
    requires CollisionFree(c) && ValidActions(c, actions) && InOrder(s, |actions|)
    requires h in T.DistinctScopes(At(c, actions, s.scopes).records)
    ensures HasCount(Counter(c, actions, s), At(c, actions, s.scopes).records, At(c, actions, |actions|).records, h)
  {
    hide At, ValidActions, CountAcross, RecordsInv, T.DistinctScopes;
    assert ScopeInOrder(s, |actions|, h);
    var early, first := At(c, actions, s.scopes).records, At(c, actions, s.first(h)).records;
    var listed, late := At(c, actions, s.listed(h)).records, At(c, actions, |actions|).records;
    LaterExtends(c, actions, s.scopes, s.first(h));
    LaterExtends(c, actions, s.first(h), s.listed(h));
    LaterExtends(c, actions, s.listed(h), |actions|);
    PointKeepsInv(c, actions, s.first(h));
    PointKeepsInv(c, actions, s.listed(h));
    ListedScopesOccur(early, h);
    var i :| 0 <= i < |early| && early[i].scopeSha256 == h;
    assert first[i] == early[i];
    RoundCounts(c, first, listed, h);
    ScopesGrow(early, listed, h);
    ScopesGrow(listed, late, h);
  }

  // ---------------------------------------------------------------- claims and releases

  lemma {:induction false} FoundStays(rows: seq<T.Row>, later: seq<T.Row>, id: string)
    requires rows <= later && T.FindRecordId(rows, id).Some?
    ensures T.FindRecordId(later, id) == T.FindRecordId(rows, id)
  {
    if |rows| == |later| {
      assert rows == later;
    } else {
      var n := |later| - 1;
      FoundStays(rows, later[..n], id);
      FindAfterInsert(later[..n], later[n], id);
      assert later == later[..n] + [later[n]];
    }
  }

  lemma ClaimsStandAcross(c: Config, actions: seq<Action>, s: Schedule)
    requires CollisionFree(c) && ValidActions(c, actions) && InOrder(s, |actions|)
    ensures ClaimsStand(c, actions, s)
  {
    hide At, T.RowIsSound, RecordsInv, JournalInv;
    PointKeepsInv(c, actions, s.claims);
    var t := At(c, actions, s.claims);
    forall id | id in t.claims ensures ClaimStands(c, t, At(c, actions, s.claimed(id)), id) {
      assert RecordInOrder(s, |actions|, id) && T.ClaimIsSound(c, t, id);
      LaterExtends(c, actions, s.claims, s.claimed(id));
      FoundStays(t.records, At(c, actions, s.claimed(id)).records, id);
    }
  }

  lemma ReleasesStandAcross(c: Config, actions: seq<Action>, s: Schedule)
    requires CollisionFree(c) && ValidActions(c, actions) && InOrder(s, |actions|)
    ensures ReleasesStand(c, actions, s)
  {
    hide At, ValidActions, Inv, ReleaseStands;
    var rows := At(c, actions, s.records).records;
    forall i | 0 <= i < |rows|
      ensures var id := rows[i].recordId;
              ReleaseStands(At(c, actions, s.state(id)), At(c, actions, s.claim(id)), At(c, actions, s.journal(id)), id)
    {
      ReleaseStandsAcross(c, actions, s, rows[i].recordId, i);
    }
  }

  lemma ReleaseStandsAcross(c: Config, actions: seq<Action>, s: Schedule, id: string, i: nat)
    requires CollisionFree(c) && ValidActions(c, actions) && InOrder(s, |actions|)
    requires var rows := At(c, actions, s.records).records; i < |rows| && rows[i].recordId == id
    ensures ReleaseStands(At(c, actions, s.state(id)), At(c, actions, s.claim(id)), At(c, actions, s.journal(id)), id)
  {
    hide At, ValidActions, RecordsInv, ClaimsInv;
    assert RecordInOrder(s, |actions|, id);
    var t := At(c, actions, s.state(id));
    PointKeepsInv(c, actions, s.state(id));
    assert JournalEntryInv(t, id);
    LaterExtends(c, actions, s.records, s.state(id));
    LaterExtends(c, actions, s.state(id), s.claim(id));
    if T.StatesOf(t.journal, id) == [] {
      assert t.records[i].recordId == id && t.records[i] in t.records;
      UnjournalledStays(c, actions, s.state(id), s.journal(id), id);
    }
  }

  /** Whatever commits between its reads, verification of a ledger raises no error, and it returns a number
    * between the records there were when it started and those there are when it ends.
    */
  lemma ConcurrentVerificationSucceeds(c: Config, actions: seq<Action>, s: Schedule)
    requires CollisionFree(c) && ValidActions(c, actions) && InOrder(s, |actions|)
    ensures var result := VerifyAcross(c, actions, s);
            && result.Ok?
            && |At(c, actions, s.scopes).records| <= result.value <= |At(c, actions, |actions|).records|
  {
    hide At, ClaimsStand, ReleasesStand, T.Total, T.DistinctScopes, InOrder, ValidActions;
    CountsAreBetween(c, actions, s);
    ClaimsStandAcross(c, actions, s);
    ReleasesStandAcross(c, actions, s);
  }

  /** All reads at one point of the run. */
  function AtOnce(k: nat): Schedule {
    Schedule(k, h => k, h => k, k, id => k, k, id => k, id => k, id => k)
  }

  /** Without writers in between, this is verification of one state. */
  lemma QuietVerificationReadsOneState(c: Config, actions: seq<Action>, k: nat)
    ensures VerifyAcross(c, actions, AtOnce(k)) == T.VerifyAll(c, At(c, actions, k))
  {
    hide At, T.RowIsSound, T.RecordsForScope, T.RowsOfScope, T.StatesOf, T.FindRecordId;
    var t := At(c, actions, k);
    var s := AtOnce(k);
    forall h ensures Counter(c, actions, s)(h) == T.ScopeCounter(c, t.records)(h) {
      SameRound(c, t.records, h);
    }
    SameTotal(T.DistinctScopes(t.records), Counter(c, actions, s), T.ScopeCounter(c, t.records));
    forall id | id in t.claims ensures ClaimStands(c, t, t, id) <==> T.ClaimIsSound(c, t, id) {
    }
    forall id ensures ReleaseStands(t, t, t, id) <==> T.ReleaseIsClaimed(t, id) {
    }
    assert ClaimsStand(c, actions, s) <==> T.AllClaimsSound(c, t);
    assert ReleasesStand(c, actions, s) <==> T.AllReleasesClaimed(t);
  }

  lemma SameRound(c: Config, rows: seq<T.Row>, h: string)
    ensures CountAcross(c, rows, rows, h) == T.CountScope(c, rows, h)
  {
    hide T.RowIsSound, T.RecordsForScope, T.RowsOfScope;
  }

  lemma {:induction false} SameTotal(
    hashes: seq<string>, count: string -> Result<nat, T.LedgerError>, other: string -> Result<nat, T.LedgerError>)
    requires forall h :: count(h) == other(h)
    ensures T.Total(hashes, count) == T.Total(hashes, other)
  {
    if hashes != [] {
      SameTotal(hashes[..|hashes| - 1], count, other);
    }
  }
}
