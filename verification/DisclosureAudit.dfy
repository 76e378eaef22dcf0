/** The audit side of the ledger: verification, tamper evidence, the release journal, claims, replays
  * and the block on legacy history.
  */
module DisclosureAudit {
  import opened Foundations
  import opened DisclosureModels
  import opened DisclosureComposition
  import opened DisclosureRuns
  import opened DisclosureTheorems
  import T = DisclosureTables

  // ---------------------------------------------------------------- verify_all

  function ListedRows(rows: seq<T.Row>, hashes: seq<string>): nat {
    if hashes == [] then 0
    else ListedRows(rows, hashes[..|hashes| - 1]) + |T.RowsOfScope(rows, hashes[|hashes| - 1])|
  }

  predicate Distinct(hashes: seq<string>) {
    forall i, j | 0 <= i < j < |hashes| :: hashes[i] != hashes[j]
  }

  lemma {:induction false} ScopesAreDistinct(rows: seq<T.Row>)
    ensures Distinct(T.DistinctScopes(rows))
    ensures forall row | row in rows :: row.scopeSha256 in T.DistinctScopes(rows)
  {
    if rows != [] {
      ScopesAreDistinct(rows[..|rows| - 1]);
      assert rows == rows[..|rows| - 1] + [rows[|rows| - 1]];
    }
  }

  lemma {:induction false} ListedAfterInsert(rows: seq<T.Row>, row: T.Row, hashes: seq<string>)
    requires Distinct(hashes)
    ensures ListedRows(rows + [row], hashes)
         == ListedRows(rows, hashes) + if row.scopeSha256 in hashes then 1 else 0
  {
    if hashes != [] {
      var init, last := hashes[..|hashes| - 1], hashes[|hashes| - 1];
      assert hashes == init + [last];
      ListedAfterInsert(rows, row, init);
      ScopeAfterInsert(rows, row, last);
    }
  }

  lemma {:induction false} UnknownScopeIsEmpty(rows: seq<T.Row>, h: string)
    requires forall row | row in rows :: row.scopeSha256 != h
    ensures T.RowsOfScope(rows, h) == []
  {
    if rows != [] {
      UnknownScopeIsEmpty(rows[..|rows| - 1], h);
    }
  }

  /** Listing every distinct scope once lists every row once. */
  lemma {:induction false} ScopesPartitionRows(rows: seq<T.Row>)
    ensures ListedRows(rows, T.DistinctScopes(rows)) == |rows|
  {
    if rows != [] {
      var init, last := rows[..|rows| - 1], rows[|rows| - 1];
      var hashes := T.DistinctScopes(init);
      assert rows == init + [last];
      ScopesPartitionRows(init);
      ScopesAreDistinct(init);
      ListedAfterInsert(init, last, hashes);
      if last.scopeSha256 !in hashes {
        var longer := hashes + [last.scopeSha256];
        assert longer[..|hashes|] == hashes;
        UnknownScopeIsEmpty(init, last.scopeSha256);
        ScopeAfterInsert(init, last, last.scopeSha256);
      }
    }
  }

  lemma ScopeCounts(c: Config, rows: seq<T.Row>, hash: string)
    requires CollisionFree(c) && RecordsInv(c, rows)
    ensures T.CountScope(c, rows, hash) == Ok(|T.RowsOfScope(rows, hash)|)
  {
    var selected := T.RowsOfScope(rows, hash);
    if selected != [] {
      T.SelectedExactly(rows, hash);
      assert selected[0] in selected;
      assert T.RowIsSound(c, selected[0]);
      ScopeReads(c, rows, selected[0].payload.event.scope);
    }
  }

  lemma {:induction false} TotalIsListed(
    rows: seq<T.Row>, hashes: seq<string>, count: string -> Result<nat, T.LedgerError>)
    requires forall h: string :: count(h) == Ok(|T.RowsOfScope(rows, h)|)
    ensures T.Total(hashes, count) == Ok(ListedRows(rows, hashes))
  {
    if hashes != [] {
      TotalIsListed(rows, hashes[..|hashes| - 1], count);
    }
  }

  /** Every reachable ledger verifies, and verification counts every record exactly once. */
  lemma ReachableLedgerVerifies(c: Config, actions: seq<Action>)
    requires CollisionFree(c) && ValidActions(c, actions)
    ensures var t := Run(c, actions).tables; T.VerifyAll(c, t) == Ok(|t.records|)
  {
    RunKeepsInv(c, actions);
    SoundLedgerVerifies(c, Run(c, actions).tables);
  }

  lemma SoundLedgerVerifies(c: Config, t: T.Tables)
    requires CollisionFree(c) && Inv(c, t)
    ensures T.VerifyAll(c, t) == Ok(|t.records|)
  {
    hide T.RowIsSound, T.RowsOfScope, T.DistinctScopes, T.Total, ListedRows, RecordsInv, T.StatesOf, T.FindRecordId;
    forall h: string
      ensures T.ScopeCounter(c, t.records)(h) == Ok(|T.RowsOfScope(t.records, h)|)
    {
      ScopeCounts(c, t.records, h);
    }
    TotalIsListed(t.records, T.DistinctScopes(t.records), T.ScopeCounter(c, t.records));
    ScopesPartitionRows(t.records);
    forall i | 0 <= i < |t.records|
      ensures T.ReleaseIsClaimed(t, t.records[i].recordId)
    {
      assert JournalEntryInv(t, t.records[i].recordId);
    }
  }

  // ---------------------------------------------------------------- tamper evidence

  /** Whatever was done to the tables: two ledgers in which a scope reads without error and ends in
    * the same content hash hold the same history for it, record for record.
    */
  lemma HeadHashFixesScope(c: Config, left: seq<T.Row>, right: seq<T.Row>, scope: Scope)
    requires CollisionFree(c)
    requires T.RecordsForScope(c, left, scope).Ok? && T.RecordsForScope(c, right, scope).Ok?
    requires var l, r := T.RecordsForScope(c, left, scope).value, T.RecordsForScope(c, right, scope).value;
             l != [] && r != [] && l[|l| - 1].contentSha256 == r[|r| - 1].contentSha256
    ensures T.RecordsForScope(c, left, scope) == T.RecordsForScope(c, right, scope)
  {
    hide T.RecordsForScope;
    ReadChain(c, left, scope);
    ReadChain(c, right, scope);
    HeadCommitsToHistory(
      c, T.RecordsForScope(c, left, scope).value, T.RecordsForScope(c, right, scope).value);
  }

  lemma ReadChain(c: Config, rows: seq<T.Row>, scope: Scope)
    requires T.RecordsForScope(c, rows, scope).Ok?
    ensures Sealed(c, T.RecordsForScope(c, rows, scope).value) && Linked(T.RecordsForScope(c, rows, scope).value)
  {
    hide ValidEvent, CompositionIsConsistent;
    var selected := T.RowsOfScope(rows, scope.scopeSha256);
    forall i | 0 <= i < |selected|
      ensures selected[i].payload.contentSha256 == RecordSha256(c, selected[i].payload)
    {
      assert T.RowIsSound(c, selected[i]);
    }
    var records := T.Payloads(selected);
    forall i | 0 <= i < |records|
      ensures LinkedAt(records, i)
    {
      assert T.ContinuesChain(c, records, scope, i);
    }
  }

  // ---------------------------------------------------------------- release journal and claims

  /** In every interleaving each record's journal is empty, pending, released or aborted, so reading
    * a release state never fails; and a journalled release has an authorization claim.
    */
  lemma JournalIsLegal(c: Config, actions: seq<Action>, id: string)
    requires CollisionFree(c) && ValidActions(c, actions)
    ensures var t := Run(c, actions).tables;
            && T.StateOf(t.journal, id).Ok?
            && T.StatesOf(t.journal, id)
               in {[], [T.Pending], [T.Pending, T.Released], [T.Pending, T.Aborted]}
            && (T.StatesOf(t.journal, id) == [T.Pending, T.Released] ==> id in t.claims)
  {
    RunKeepsInv(c, actions);
    assert JournalEntryInv(Run(c, actions).tables, id);
  }

  /** A terminal state never changes, whatever happens afterwards. */
  lemma TerminalStatesStay(c: Config, before: seq<Action>, after: seq<Action>, id: string)
    requires CollisionFree(c) && ValidActions(c, before) && ValidActions(c, after)
    ensures var earlier := T.StatesOf(Run(c, before).tables.journal, id);
            var later := T.StatesOf(RunFrom(c, Run(c, before), after).tables.journal, id);
            |earlier| == 2 ==> later == earlier
  {
    var w := Run(c, before);
    RunKeepsInv(c, before);
    RunFromKeepsInv(c, w, after);
    RunExtends(c, w, after);
    StatesExtend(w.tables.journal, RunFrom(c, w, after).tables.journal, id);
    assert JournalEntryInv(w.tables, id) && JournalEntryInv(RunFrom(c, w, after).tables, id);
  }

  /** Claims bind records and authorizations one to one, each to an existing record it agrees with. */
  lemma ClaimsAreOneToOne(c: Config, actions: seq<Action>, id1: string, id2: string)
    requires CollisionFree(c) && ValidActions(c, actions)
    requires var t := Run(c, actions).tables; id1 in t.claims && id2 in t.claims
    ensures var t := Run(c, actions).tables;
            && T.FindRecordId(t.records, id1).Some?
            && t.claims[id1].contentSha256 == T.FindRecordId(t.records, id1).value.contentSha256
            && (t.claims[id1].authorizationId == t.claims[id2].authorizationId <==> id1 == id2)
  {
    RunKeepsInv(c, actions);
    assert T.ClaimIsSound(c, Run(c, actions).tables, id1);
  }

  /** The pending check and the insert of a claim are separate transactions, so an abort may land in
    * between: the claim is then recorded for an aborted record. It is inert: the record stays aborted
    * and can not be released.
    */
  lemma ClaimMayLandAfterAbort(
    c: Config, w: World, caller: nat, commitment: Commitment, authorizationId: string)
    requires Inv(c, w.tables)
    requires T.RequirePending(c, w.tables, commitment).Ok?
    requires IsAuthorizationId(authorizationId)
    requires commitment.recordId !in w.tables.claims
    requires forall id | id in w.tables.claims :: w.tables.claims[id].authorizationId != authorizationId
    ensures var w1 := Step(c, w, CheckClaim(caller, commitment, authorizationId));
            var w2 := Step(c, w1, MarkAborted(commitment));
            var w3 := Step(c, w2, InsertClaim(caller));
            && commitment.recordId in w3.tables.claims
            && IsAborted(w3.tables.journal, commitment.recordId)
            && T.MarkReleased(c, w3.tables, commitment) == T.Outcome(w3.tables, Err(T.Integrity))
  {
    hide T.MarkAborted, T.InsertClaim, T.RecordForCommitment, RecordsInv, ClaimsInv;
    var id := commitment.recordId;
    assert JournalEntryInv(w.tables, id);
    PendingAborts(c, w.tables, commitment);
    ClaimIsInserted(c, T.MarkAborted(c, w.tables, commitment).tables, commitment, authorizationId);
  }

  lemma PendingAborts(c: Config, t: T.Tables, commitment: Commitment)
    requires T.RequirePending(c, t, commitment).Ok? && JournalEntryInv(t, commitment.recordId)
    ensures var t' := T.MarkAborted(c, t, commitment).tables;
            && t'.records == t.records && t'.claims == t.claims && IsAborted(t'.journal, commitment.recordId)
  {
    hide T.RecordForCommitment;
    var id := commitment.recordId;
    assert T.StatesOf(t.journal, id) == [T.Pending];
    StatesAfterInsert(t.journal, id, T.Aborted, id);
  }

  lemma ClaimIsInserted(c: Config, t: T.Tables, commitment: Commitment, authorizationId: string)
    requires T.RecordForCommitment(c, t.records, commitment).Ok? && IsAuthorizationId(authorizationId)
    requires commitment.recordId !in t.claims
    requires forall id | id in t.claims :: t.claims[id].authorizationId != authorizationId
    ensures var t' := T.InsertClaim(c, t, commitment, authorizationId).tables;
            t'.records == t.records && t'.journal == t.journal && commitment.recordId in t'.claims
  {
    hide T.RowIsSound;
  }

  /** Exactly when that happens: inserting a claim leaves it on an aborted record when the insert succeeds and
    * the journal already reads ABORTED at that moment. It succeeds for a valid authorization that no claim
    * uses, on a record that matches the commitment and has no claim.
    */
  lemma ClaimLandsOnAbortedExactly(c: Config, t: T.Tables, commitment: Commitment, authorizationId: string)
    ensures var o := T.InsertClaim(c, t, commitment, authorizationId);
            var id := commitment.recordId;
            && (id !in t.claims && id in o.tables.claims && IsAborted(o.tables.journal, id)
                <==> o.result.Ok? && IsAborted(t.journal, id))
            && (o.result.Ok?
                <==> && IsAuthorizationId(authorizationId) && T.RecordForCommitment(c, t.records, commitment).Ok?
                     && id !in t.claims
                     && forall other | other in t.claims :: t.claims[other].authorizationId != authorizationId)
            && (o.result.Ok? && IsAborted(t.journal, id) ==>
                  T.MarkReleased(c, o.tables, commitment) == T.Outcome(o.tables, Err(T.Integrity)))
  {
    hide T.RowIsSound;
  }

  // ---------------------------------------------------------------- replay

  lemma {:induction false} FindExistingReceipt(rows: seq<T.Row>, i: nat)
    requires i < |rows| && UniqueRows(rows)
    ensures T.FindReceipt(rows, rows[i].receiptId) == Some(rows[i])
  {
    if i > 0 {
      FindExistingReceipt(rows[1..], i - 1);
    }
  }

  /** Offering a recorded receipt again never writes. It returns the original commitment exactly when the record
    * is of the same release under the same keyed cohort identity and is not aborted; otherwise it is a conflict.
    */
  lemma ReplayOfRow(
    c: Config, t: T.Tables, i: nat, event: Event, sql: string, dialect: string,
    evaluatedAt: int, createdAt: int, recordId: string)
    requires CollisionFree(c) && Inv(c, t) && ValidEvent(c, event) && c.canonicalize(sql, dialect).Some?
    requires i < |t.records| && t.records[i].receiptId == event.receiptId
    ensures var o := T.EvaluateAndCommit(c, t, event, sql, dialect, evaluatedAt, createdAt, recordId);
            var r := t.records[i].payload;
            && o.tables == t
            && if && Records(r.event, event, c.hmac(c.canonicalize(sql, dialect).value))
                  && !IsAborted(t.journal, r.recordId)
               then && o.result.Ok? && o.result.value.allowed && o.result.value.rule == IdempotentReplay
                    && o.result.value.commitment.Some?
                    && Identifies(t.records[i], o.result.value.commitment.value)
               else o.result == Err(T.Conflict)
  {
    hide T.EvaluateAndCommit, ValidRecord;
    var bound := BindEvent(c, event, sql, dialect).value;
    var r := t.records[i].payload;
    FindExistingReceipt(t.records, i);
    EvaluationSplits(c, t, event, sql, dialect, evaluatedAt, createdAt, recordId);
    assert T.RowIsSound(c, t.records[i]);
    BindsExactly(c, r.event, event, sql, dialect);
    assert JournalEntryInv(t, r.recordId);
    if r.event == bound {
      RowIsListed(c, t.records, i);
    }
  }

  lemma RowIsListed(c: Config, rows: seq<T.Row>, i: nat)
    requires i < |rows| && T.IndexMatches(rows[i])
    ensures rows[i].payload in T.Payloads(T.RowsOfScope(rows, rows[i].payload.event.scope.scopeSha256))
  {
    var h := rows[i].scopeSha256;
    T.SelectedExactly(rows, h);
    assert rows[i] in rows;
    var k :| 0 <= k < |T.RowsOfScope(rows, h)| && T.RowsOfScope(rows, h)[k] == rows[i];
    assert T.Payloads(T.RowsOfScope(rows, h))[k] == rows[i].payload;
  }

  function Decide(c: Config, t: T.Tables, a: Action): T.Outcome<T.Decision>
    requires a.Evaluate?
  {
    T.EvaluateAndCommit(c, t, a.event, a.sql, a.dialect, a.evaluatedAt, a.createdAt, a.recordId)
  }

  /** Replay is idempotent at any later point of any run: once an evaluation has been allowed, the same release
    * with SQL of the same keyed cohort identity returns the first commitment and writes nothing, until the
    * record is aborted; from then on, and for any other release or cohort, the receipt is a conflict.
    */
  lemma ReplayIsIdempotent(
    c: Config, before: seq<Action>, first: Action, after: seq<Action>, again: Action)
    requires CollisionFree(c) && ValidActions(c, before) && ValidActions(c, after)
    requires first.Evaluate? && ValidAction(c, first) && again.Evaluate? && ValidAction(c, again)
    requires c.canonicalize(again.sql, again.dialect).Some? && again.event.receiptId == first.event.receiptId
    requires Decide(c, Run(c, before).tables, first).result.Ok?
    requires Decide(c, Run(c, before).tables, first).result.value.allowed
    ensures var commitment := Decide(c, Run(c, before).tables, first).result.value.commitment;
            var t := RunFrom(c, Step(c, Run(c, before), first), after).tables;
            var o := Decide(c, t, again);
            && commitment.Some?
            && o.tables == t
            && c.canonicalize(first.sql, first.dialect).Some?
            && if && SameRelease(again.event, first.event)
                  && c.hmac(c.canonicalize(again.sql, again.dialect).value)
                     == c.hmac(c.canonicalize(first.sql, first.dialect).value)
                  && !IsAborted(t.journal, commitment.value.recordId)
               then && o.result.Ok? && o.result.value.allowed && o.result.value.rule == IdempotentReplay
                    && o.result.value.commitment == commitment
               else o.result == Err(T.Conflict)
  {
    var w0 := Run(c, before);
    RunKeepsInv(c, before);
    var i := AllowedIsRecorded(c, w0, first);
    var w1 := Step(c, w0, first);
    StepKeepsInv(c, w0, first);
    RunFromKeepsInv(c, w1, after);
    RunExtends(c, w1, after);
    var t := RunFrom(c, w1, after).tables;
    assert t.records[i] == w1.tables.records[i];
    assert BindEvent(c, first.event, first.sql, first.dialect).Some?;
    ReplayOfRow(c, t, i, again.event, again.sql, again.dialect, again.evaluatedAt, again.createdAt, again.recordId);
  }

  /** So one reservation covers one query: a receipt replays exactly for its own canonical SQL. */
  lemma ReservationCoversOneQuery(
    c: Config, before: seq<Action>, first: Action, after: seq<Action>, again: Action)
    requires CollisionFree(c) && TellsCohortsApart(c) && ValidActions(c, before) && ValidActions(c, after)
    requires first.Evaluate? && ValidAction(c, first) && again.Evaluate? && ValidAction(c, again)
    requires c.canonicalize(again.sql, again.dialect).Some? && again.event == first.event
    requires Decide(c, Run(c, before).tables, first).result.Ok?
    requires Decide(c, Run(c, before).tables, first).result.value.allowed
    ensures var commitment := Decide(c, Run(c, before).tables, first).result.value.commitment;
            var t := RunFrom(c, Step(c, Run(c, before), first), after).tables;
            var result := Decide(c, t, again).result;
            && commitment.Some?
            && (result.Ok? <==>
                  && c.canonicalize(again.sql, again.dialect) == c.canonicalize(first.sql, first.dialect)
                  && !IsAborted(t.journal, commitment.value.recordId))
            && (result.Err? ==> result == Err(T.Conflict) && Decide(c, t, again).tables == t)
  {
    hide T.EvaluateAndCommit;
    ReplayIsIdempotent(c, before, first, after, again);
  }

  /** An allowed evaluation leaves a row with the bound event and returns that row's commitment. */
  lemma AllowedIsRecorded(c: Config, w: World, a: Action) returns (i: nat)
    requires CollisionFree(c) && Inv(c, w.tables) && a.Evaluate? && ValidAction(c, a)
    requires Decide(c, w.tables, a).result.Ok? && Decide(c, w.tables, a).result.value.allowed
    ensures var rows := Step(c, w, a).tables.records;
            && i < |rows|
            && c.canonicalize(a.sql, a.dialect).Some?
            && Records(rows[i].payload.event, a.event, c.hmac(c.canonicalize(a.sql, a.dialect).value))
            && rows[i].receiptId == a.event.receiptId
            && Decide(c, w.tables, a).result.value.commitment.Some?
            && Identifies(rows[i], Decide(c, w.tables, a).result.value.commitment.value)
  {
    hide ValidRecord, Inv, JournalInv, ClaimsInv, ChainedScopes;
    var t := w.tables;
    var bound := BindEvent(c, a.event, a.sql, a.dialect).value;
    BindsExactly(c, bound, a.event, a.sql, a.dialect);
    EvaluationSplits(c, t, a.event, a.sql, a.dialect, a.evaluatedAt, a.createdAt, a.recordId);
    match T.FindReceipt(t.records, a.event.receiptId)
    case Some(row) =>
      assert row in t.records;
      i :| 0 <= i < |t.records| && t.records[i] == row;
    case None =>
      i := |t.records|;
      AllowedIsAppended(c, t, a);
  }

  lemma AllowedIsAppended(c: Config, t: T.Tables, a: Action)
    requires CollisionFree(c) && Inv(c, t) && a.Evaluate? && ValidAction(c, a)
    requires T.FindReceipt(t.records, a.event.receiptId).None?
    requires Decide(c, t, a).result.Ok? && Decide(c, t, a).result.value.allowed
    ensures var rows := Decide(c, t, a).tables.records;
            && |rows| == |t.records| + 1
            && Some(rows[|t.records|].payload.event) == BindEvent(c, a.event, a.sql, a.dialect)
            && rows[|t.records|].receiptId == a.event.receiptId
            && Decide(c, t, a).result.value.commitment == Some(T.CommitmentOf(rows[|t.records|].payload))
  {
    var bound := BindEvent(c, a.event, a.sql, a.dialect).value;
    var audit := T.Payloads(T.RowsOfScope(t.records, a.event.scope.scopeSha256));
    EvaluationSplits(c, t, a.event, a.sql, a.dialect, a.evaluatedAt, a.createdAt, a.recordId);
    AllowedReleaseAppends(
      c, t, bound, audit, WithoutAborted(t.journal, audit), a.evaluatedAt, a.createdAt, a.recordId);
  }

  lemma AllowedReleaseAppends(
    c: Config, t: T.Tables, bound: Event, audit: seq<Record>, active: seq<Record>,
    evaluatedAt: int, createdAt: int, recordId: string)
    requires var o := T.Release(c, t, bound, audit, active, evaluatedAt, createdAt, recordId);
             o.result.Ok? && o.result.value.allowed
    ensures var o := T.Release(c, t, bound, audit, active, evaluatedAt, createdAt, recordId);
            var r := T.NewRecord(c, t.records, bound, audit, createdAt, recordId);
            o.tables.records == t.records + [T.RowOf(r)] && o.result.value.commitment == Some(T.CommitmentOf(r))
  {
  }

  // ---------------------------------------------------------------- legacy history

  /** Protected history without composition metadata blocks its scope for good: it has no journal
    * entry, so it can not be aborted, and it never ages out of the window.
    */
  lemma LegacyRowBlocks(
    c: Config, t: T.Tables, i: nat, event: Event, sql: string, dialect: string,
    evaluatedAt: int, createdAt: int, recordId: string)
    requires CollisionFree(c) && Inv(c, t) && ValidEvent(c, event) && c.canonicalize(sql, dialect).Some?
    requires i < |t.records| && IsLegacyProtected(t.records[i].payload)
    requires t.records[i].scopeSha256 == event.scope.scopeSha256
    ensures var o := T.EvaluateAndCommit(c, t, event, sql, dialect, evaluatedAt, createdAt, recordId);
            && o.tables == t
            && (T.FindReceipt(t.records, event.receiptId).None? ==>
                  o.result.Ok? && !o.result.value.allowed && o.result.value.rule == LegacyHistoryBlock)
  {
    hide ValidRecord;
    if T.FindReceipt(t.records, event.receiptId).None? {
      var h := event.scope.scopeSha256;
      var bound := BindEvent(c, event, sql, dialect).value;
      var r := t.records[i].payload;
      var audit := T.Payloads(T.RowsOfScope(t.records, h));
      var active := WithoutAborted(t.journal, audit);
      EvaluationSplits(c, t, event, sql, dialect, evaluatedAt, createdAt, recordId);
      assert T.RowIsSound(c, t.records[i]);
      RowIsListed(c, t.records, i);
      FindExisting(t.records, i);
      assert JournalEntryInv(t, r.recordId);
      ActiveExactly(t.journal, audit);
      assert r in active;
      HistoryReads(c, t, event.scope);
      LegacyStops(c, active, bound, evaluatedAt, r);
    } else {
      EvaluationSplits(c, t, event, sql, dialect, evaluatedAt, createdAt, recordId);
    }
  }

  lemma LegacyStops(c: Config, history: seq<Record>, bound: Event, evaluatedAt: int, legacy: Record)
    requires CompositionIsConsistent(bound) && bound.composition.Some?
    requires forall r | r in history :: CompositionIsConsistent(r.event)
    requires legacy in history && IsLegacyProtected(legacy)
    ensures var e := EvaluationOf(c, history, bound, evaluatedAt);
            e.Ok? && !e.value.allowed && e.value.rule == LegacyHistoryBlock
  {
    var i :| 0 <= i < |history| && history[i] == legacy;
    var k := FirstStop(history, 0);
    assert StopsAt(history[i]);
    assert history[k] in history;
  }

  /** No later evaluation of any run writes to a scope that holds such a record. */
  lemma LegacyBlockIsPermanent(
    c: Config, before: seq<Action>, i: nat, after: seq<Action>, attempt: Action)
    requires CollisionFree(c) && ValidActions(c, before) && ValidActions(c, after)
    requires attempt.Evaluate? && ValidAction(c, attempt)
    requires i < |Run(c, before).tables.records|
    requires IsLegacyProtected(Run(c, before).tables.records[i].payload)
    requires Run(c, before).tables.records[i].scopeSha256 == attempt.event.scope.scopeSha256
    ensures var w := RunFrom(c, Run(c, before), after); Step(c, w, attempt) == w
  {
    var w0 := Run(c, before);
    RunKeepsInv(c, before);
    RunFromKeepsInv(c, w0, after);
    RunExtends(c, w0, after);
    var t := RunFrom(c, w0, after).tables;
    assert t.records[i] == w0.tables.records[i];
    if c.canonicalize(attempt.sql, attempt.dialect).Some? {
      LegacyRowBlocks(c, t, i, attempt.event, attempt.sql, attempt.dialect,
                      attempt.evaluatedAt, attempt.createdAt, attempt.recordId);
    }
  }

  // ---------------------------------------------------------------- errors

  /** In a reachable state, with canonicalizable SQL and an unused random identifier, the only error an
    * evaluation can raise is a conflict on its receipt: no integrity error is reachable.
    */
  lemma OnlyConflictsAreRaised(c: Config, actions: seq<Action>, a: Action)
    requires CollisionFree(c) && ValidActions(c, actions) && a.Evaluate? && ValidAction(c, a)
    requires c.canonicalize(a.sql, a.dialect).Some?
    requires T.FindRecordId(Run(c, actions).tables.records, a.recordId).None?
    ensures var t := Run(c, actions).tables;
            var result := Decide(c, t, a).result;
            && (result.Err? ==> result.error == T.Conflict)
            && (result.Err? <==>
                  && T.FindReceipt(t.records, a.event.receiptId).Some?
                  && var r := T.FindReceipt(t.records, a.event.receiptId).value.payload;
                     || !Records(r.event, a.event, c.hmac(c.canonicalize(a.sql, a.dialect).value))
                     || IsAborted(t.journal, r.recordId))
  {
    var t := Run(c, actions).tables;
    RunKeepsInv(c, actions);
    match T.FindReceipt(t.records, a.event.receiptId)
    case Some(row) =>
      var i :| 0 <= i < |t.records| && t.records[i] == row;
      ReplayOfRow(c, t, i, a.event, a.sql, a.dialect, a.evaluatedAt, a.createdAt, a.recordId);
    case None =>
      NewReceiptNeverFails(c, t, a);
  }

  lemma NewReceiptNeverFails(c: Config, t: T.Tables, a: Action)
    requires CollisionFree(c) && Inv(c, t) && a.Evaluate? && ValidAction(c, a)
    requires c.canonicalize(a.sql, a.dialect).Some?
    requires T.FindRecordId(t.records, a.recordId).None? && T.FindReceipt(t.records, a.event.receiptId).None?
    ensures Decide(c, t, a).result.Ok?
  {
    var bound := BindEvent(c, a.event, a.sql, a.dialect).value;
    var audit := T.Payloads(T.RowsOfScope(t.records, a.event.scope.scopeSha256));
    var active := WithoutAborted(t.journal, audit);
    EvaluationSplits(c, t, a.event, a.sql, a.dialect, a.evaluatedAt, a.createdAt, a.recordId);
    HistoryReads(c, t, a.event.scope);
    ActiveExactly(t.journal, audit);
    AllowedExactlyWithinBudget(c, active, bound, a.evaluatedAt);
    if EvaluationOf(c, active, bound, a.evaluatedAt).value.allowed {
      AllowedReleaseIsWritten(c, t, bound, audit, active, a.evaluatedAt, a.createdAt, a.recordId);
    }
  }
}
