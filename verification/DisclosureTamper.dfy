/** What verification accepts, for tables of any origin: not only those some run reached, but also tables that were
  * edited behind the ledger's back. Only the unique record identifiers of the database are taken for granted.
  */
module DisclosureTamper {
  import opened Foundations
  import opened DisclosureModels
  import opened DisclosureComposition
  import opened DisclosureRuns
  import opened DisclosureTheorems
  import opened DisclosureAudit
  import opened DisclosureGate
  import opened DisclosureLifecycle
  import T = DisclosureTables

  predicate HasDistinctIds(rows: seq<T.Row>) {
    forall i, j | 0 <= i < j < |rows| :: rows[i].recordId != rows[j].recordId
  }

  // ---------------------------------------------------------------- intact tables

  /** The payload validates, its hashes are those of its content, and every index column repeats it. */
  predicate IsIntactRow(c: Config, row: T.Row) {
    var r := row.payload;
    && ValidEvent(c, r.event) && HasTrueMetadata(r.event)
    && r.eventSha256 == c.sha(EventPayload(r.event))
    && r.contentSha256
       == c.sha(RecordPayload(r.schemaVersion, r.recordId, r.sequence, r.createdAt, r.event, r.eventSha256, r.previousContentSha256))
    && row == T.Row(r.sequence, r.recordId, r.event.scope.scopeSha256, r.event.receiptId, r.eventSha256,
                    r.previousContentSha256, r.contentSha256, r)
  }

  lemma RowIsIntactExactly(c: Config, row: T.Row)
    ensures T.RowIsSound(c, row) <==> IsIntactRow(c, row)
  {
    hide ValidEvent, IsProtected, ExposesSubjects;
    MetadataExactly(row.payload.event);
  }

  /** Each row names the content hash of the last earlier row of its scope, or none. */
  predicate IsIntactChain(rows: seq<T.Row>) {
    forall i | 0 <= i < |rows| :: IsHeadOf(rows[..i], rows[i].scopeSha256, rows[i].previousContentSha256)
  }

  /** The claim is of a well-formed authorization, and agrees with its record. */
  predicate IsIntactClaim(t: Tables, id: string)
    requires id in t.claims
  {
    && IsAuthorizationId(t.claims[id].authorizationId)
    && exists i | 0 <= i < |t.records| ::
         && t.records[i].recordId == id && t.claims[id].receiptId == t.records[i].receiptId
         && t.claims[id].contentSha256 == t.records[i].contentSha256
  }

  /** The record's transitions are legal, and if they release it there is a claim. */
  predicate IsIntactRelease(t: Tables, id: string) {
    && T.StatesOf(t.journal, id) in {[], [T.Pending], [T.Pending, T.Released], [T.Pending, T.Aborted]}
    && (T.StatesOf(t.journal, id) == [T.Pending, T.Released] ==> id in t.claims)
  }

  predicate RowsAreIntact(c: Config, rows: seq<T.Row>) {
    forall i | 0 <= i < |rows| :: IsIntactRow(c, rows[i])
  }

  predicate IsIntactLedger(c: Config, t: Tables) {
    && RowsAreIntact(c, t.records) && IsIntactChain(t.records)
    && (forall id | id in t.claims :: IsIntactClaim(t, id))
    && (forall i | 0 <= i < |t.records| :: IsIntactRelease(t, t.records[i].recordId))
  }

  // ---------------------------------------------------------------- chains

  lemma HeadIsUnique(rows: seq<T.Row>, h: string, x: Option<string>, y: Option<string>)
    requires IsHeadOf(rows, h, x) && IsHeadOf(rows, h, y)
    ensures x == y
  {
    if i: nat :| i < |rows| && rows[i].scopeSha256 == h {
      var last := LastOfScope(rows, h, i);
    }
  }

  lemma {:induction false} LastOfScope(rows: seq<T.Row>, h: string, i: nat) returns (last: nat)
    requires i < |rows| && rows[i].scopeSha256 == h
    ensures i <= last < |rows| && rows[last].scopeSha256 == h
    ensures forall j | last < j < |rows| :: rows[j].scopeSha256 != h
    decreases |rows| - i
  {
    if j: nat :| i < j < |rows| && rows[j].scopeSha256 == h {
      last := LastOfScope(rows, h, j);
    } else {
      last := i;
    }
  }

  lemma LinkedOfLonger(rows: seq<T.Row>, row: T.Row, h: string)
    ensures var before := T.Payloads(T.RowsOfScope(rows, h));
            Linked(T.Payloads(T.RowsOfScope(rows + [row], h)))
            <==> && Linked(before)
                 && (row.scopeSha256 == h ==> row.payload.previousContentSha256 == HashBefore(before, |before|))
  {
    hide *;
    var selected := T.RowsOfScope(rows, h);
    ScopeAfterInsert(rows, row, h);
    if row.scopeSha256 == h {
      PayloadsOneMore(selected, row);
      LinkedOneMore(T.Payloads(selected), row.payload);
    } else {
      assert selected + [] == selected;
    }
  }

  lemma LinkedOneMore(before: seq<Record>, r: Record)
    ensures Linked(before + [r]) <==> Linked(before) && r.previousContentSha256 == HashBefore(before, |before|)
  {
    var after := before + [r];
    forall i | 0 <= i < |before| ensures LinkedAt(after, i) <==> LinkedAt(before, i) {
    }
    assert LinkedAt(after, |before|) <==> r.previousContentSha256 == HashBefore(before, |before|);
  }

  /** Every scope is one chain exactly when each row names the head of its scope. */
  lemma {:induction false} ChainIsIntactExactly(c: Config, rows: seq<T.Row>)
    requires RowsAreIntact(c, rows)
    ensures ChainedScopes(rows) <==> IsIntactChain(rows)
  {
    hide IsIntactRow, IsHeadOf, Linked;
    if rows == [] {
      EmptyIsChained();
    } else {
      var init, last := rows[..|rows| - 1], rows[|rows| - 1];
      assert forall i | 0 <= i < |init| :: IsIntactRow(c, init[i]) <==> IsIntactRow(c, rows[i]);
      ChainIsIntactExactly(c, init);
      IntactChainOfLonger(rows);
      HeadExactly(c, init, last.scopeSha256, last.previousContentSha256);
      IntactColumns(c, last);
      forall h: string
        ensures Linked(T.Payloads(T.RowsOfScope(rows, h)))
           <==> && Linked(T.Payloads(T.RowsOfScope(init, h)))
                && (last.scopeSha256 == h ==> IsHeadOf(init, h, last.previousContentSha256))
      {
        assert rows == init + [last];
        LinkedOfLonger(init, last, h);
      }
      if ChainedScopes(rows) {
        assert Linked(T.Payloads(T.RowsOfScope(rows, last.scopeSha256)));
      }
    }
  }

  lemma EmptyIsChained()
    ensures ChainedScopes([]) && IsIntactChain([])
  {
  }

  lemma IntactColumns(c: Config, row: T.Row)
    requires IsIntactRow(c, row)
    ensures row.previousContentSha256 == row.payload.previousContentSha256 && T.IndexMatches(row)
  {
  }

  lemma IntactChainOfLonger(rows: seq<T.Row>)
    requires rows != []
    ensures var init, last := rows[..|rows| - 1], rows[|rows| - 1];
            IsIntactChain(rows) <==> IsIntactChain(init) && IsHeadOf(init, last.scopeSha256, last.previousContentSha256)
  {
    hide IsHeadOf;
    var init := rows[..|rows| - 1];
    forall i | 0 <= i < |init| ensures init[..i] == rows[..i] && init[i] == rows[i] {
    }
  }

  lemma HeadExactly(c: Config, rows: seq<T.Row>, h: string, head: Option<string>)
    requires RowsAreIntact(c, rows)
    ensures var history := T.Payloads(T.RowsOfScope(rows, h));
            IsHeadOf(rows, h, head) <==> head == HashBefore(history, |history|)
  {
    hide IsIntactRow, IsHeadOf;
    forall i | 0 <= i < |rows| ensures T.IndexMatches(rows[i]) {
      IntactColumns(c, rows[i]);
    }
    HeadIsLastOfScope(rows, h);
    var history := T.Payloads(T.RowsOfScope(rows, h));
    if IsHeadOf(rows, h, head) {
      HeadIsUnique(rows, h, head, HashBefore(history, |history|));
    }
  }

  // ---------------------------------------------------------------- counting

  /** Every row of the scope is intact and they form a chain. */
  predicate ScopeIsIntact(c: Config, rows: seq<T.Row>, h: string) {
    T.RowsAreSound(c, T.RowsOfScope(rows, h)) && Linked(T.Payloads(T.RowsOfScope(rows, h)))
  }

  lemma ScopeCountsExactly(c: Config, rows: seq<T.Row>, h: string)
    requires CollisionFree(c)
    ensures T.CountScope(c, rows, h)
         == if ScopeIsIntact(c, rows, h) then Ok(|T.RowsOfScope(rows, h)|) else Err(T.Integrity)
  {
    hide ValidRecord, CompositionIsConsistent;
    var selected := T.RowsOfScope(rows, h);
    if selected != [] {
      if T.RowIsSound(c, selected[0]) {
        var scope := selected[0].payload.event.scope;
        T.SelectedExactly(rows, h);
        assert selected[0] in selected;
        assert scope.scopeSha256 == h;
        ScopeReadsExactly(c, rows, scope);
      } else {
        assert !T.RowsAreSound(c, selected);
      }
    }
  }

  lemma ScopeReadsExactly(c: Config, rows: seq<T.Row>, scope: Scope)
    requires CollisionFree(c)
    requires T.RowsOfScope(rows, scope.scopeSha256) != []
          && T.RowIsSound(c, T.RowsOfScope(rows, scope.scopeSha256)[0])
          && T.RowsOfScope(rows, scope.scopeSha256)[0].payload.event.scope == scope
    ensures T.RecordsForScope(c, rows, scope)
         == if ScopeIsIntact(c, rows, scope.scopeSha256) then Ok(T.Payloads(T.RowsOfScope(rows, scope.scopeSha256)))
            else Err(T.Integrity)
  {
    var selected := T.RowsOfScope(rows, scope.scopeSha256);
    var records := T.Payloads(selected);
    SoundScopeIsValid(c, selected[0]);
    if T.RowsAreSound(c, selected) {
      hide ValidScope, SamePrivacyScope;
      T.SelectedExactly(rows, scope.scopeSha256);
      forall i | 0 <= i < |records| ensures T.ContinuesChain(c, records, scope, i) <==> LinkedAt(records, i) {
        assert selected[i] in selected && T.RowIsSound(c, selected[i]);
        SoundScopeIsValid(c, selected[i]);
        ScopeHashIdentifiesScope(c, records[i].event.scope, scope);
      }
    }
  }

  lemma SoundScopeIsValid(c: Config, row: T.Row)
    requires T.RowIsSound(c, row)
    ensures ValidScope(c, row.payload.event.scope) && row.payload.event.scope.scopeSha256 == row.scopeSha256
  {
  }

  lemma {:induction false} TotalOfExact(hashes: seq<string>, count: string -> Result<nat, T.LedgerError>)
    requires forall i | 0 <= i < |hashes| :: count(hashes[i]).Ok? || count(hashes[i]) == Err(T.Integrity)
    ensures if forall i | 0 <= i < |hashes| :: count(hashes[i]).Ok? then T.Total(hashes, count).Ok?
            else T.Total(hashes, count) == Err(T.Integrity)
  {
    if hashes != [] {
      var init := hashes[..|hashes| - 1];
      assert forall i | 0 <= i < |init| :: init[i] == hashes[i];
      TotalOfExact(init, count);
    }
  }

  lemma ScopesAreIntactExactly(c: Config, rows: seq<T.Row>)
    ensures (forall h: string :: ScopeIsIntact(c, rows, h)) <==> RowsAreIntact(c, rows) && IsIntactChain(rows)
  {
    hide IsIntactRow, IsIntactChain, T.RowIsSound, Linked;
    if forall h: string :: ScopeIsIntact(c, rows, h) {
      forall i | 0 <= i < |rows| ensures IsIntactRow(c, rows[i]) {
        var h := rows[i].scopeSha256;
        assert ScopeIsIntact(c, rows, h);
        T.SelectedExactly(rows, h);
        assert rows[i] in rows;
        var k :| 0 <= k < |T.RowsOfScope(rows, h)| && T.RowsOfScope(rows, h)[k] == rows[i];
        RowIsIntactExactly(c, rows[i]);
      }
      assert ChainedScopes(rows) by {
        forall h: string ensures Linked(T.Payloads(T.RowsOfScope(rows, h))) {
          assert ScopeIsIntact(c, rows, h);
        }
      }
      ChainIsIntactExactly(c, rows);
    }
    if RowsAreIntact(c, rows) && IsIntactChain(rows) {
      ChainIsIntactExactly(c, rows);
      forall h: string ensures ScopeIsIntact(c, rows, h) {
        T.SelectedExactly(rows, h);
        var selected := T.RowsOfScope(rows, h);
        forall k | 0 <= k < |selected| ensures T.RowIsSound(c, selected[k]) {
          assert selected[k] in selected;
          var i :| 0 <= i < |rows| && rows[i] == selected[k];
          RowIsIntactExactly(c, rows[i]);
        }
      }
    }
  }

  /** The count of the scope loop: all rows when every scope is intact, else an integrity error. */
  lemma CountsExactly(c: Config, rows: seq<T.Row>)
    requires CollisionFree(c)
    ensures T.Total(T.DistinctScopes(rows), T.ScopeCounter(c, rows))
         == if RowsAreIntact(c, rows) && IsIntactChain(rows) then Ok(|rows|) else Err(T.Integrity)
  {
    hide T.Total, T.DistinctScopes, ScopeIsIntact, RowsAreIntact, IsIntactChain, T.CountScope, ListedRows;
    var hashes, count := T.DistinctScopes(rows), T.ScopeCounter(c, rows);
    forall h: string
      ensures count(h) == if ScopeIsIntact(c, rows, h) then Ok(|T.RowsOfScope(rows, h)|) else Err(T.Integrity)
    {
      ScopeCountsExactly(c, rows, h);
    }
    ScopesAreIntactExactly(c, rows);
    TotalOfExact(hashes, count);
    if forall h: string :: ScopeIsIntact(c, rows, h) {
      TotalIsListed(rows, hashes, count);
      ScopesPartitionRows(rows);
    } else {
      var h: string :| !ScopeIsIntact(c, rows, h);
      BrokenScopeIsListed(c, rows, h);
    }
  }

  lemma BrokenScopeIsListed(c: Config, rows: seq<T.Row>, h: string)
    requires !ScopeIsIntact(c, rows, h)
    ensures h in T.DistinctScopes(rows)
  {
    hide T.RowIsSound;
    ScopesAreDistinct(rows);
    if forall row | row in rows :: row.scopeSha256 != h {
      UnknownScopeIsEmpty(rows, h);
      assert false;
    }
  }

  // ---------------------------------------------------------------- verification

  lemma {:induction false} FindDistinct(rows: seq<T.Row>, i: nat)
    requires HasDistinctIds(rows) && i < |rows|
    ensures T.FindRecordId(rows, rows[i].recordId) == Some(rows[i])
  {
    FindExisting(rows, i);
  }

  lemma ClaimIsIntactExactly(c: Config, t: Tables, id: string)
    requires HasDistinctIds(t.records) && RowsAreIntact(c, t.records) && id in t.claims
    ensures T.ClaimIsSound(c, t, id) <==> IsIntactClaim(t, id)
  {
    hide IsIntactRow, IsAuthorizationId, T.RowIsSound;
    forall i | 0 <= i < |t.records|
      ensures T.RowIsSound(c, t.records[i]) && T.IndexMatches(t.records[i])
      ensures T.FindRecordId(t.records, t.records[i].recordId) == Some(t.records[i])
    {
      RowIsIntactExactly(c, t.records[i]);
      IntactColumns(c, t.records[i]);
      FindDistinct(t.records, i);
    }
    match T.FindRecordId(t.records, id)
    case None =>
    case Some(row) =>
      var i :| 0 <= i < |t.records| && t.records[i] == row;
  }

  lemma ReleaseIsIntactExactly(t: Tables, id: string)
    ensures T.ReleaseIsClaimed(t, id) <==> IsIntactRelease(t, id)
  {
  }

  /** Verification accepts exactly the intact ledgers, and then returns the number of records; whatever else the
    * tables hold is an integrity error.
    */
  lemma VerifiesExactly(c: Config, t: Tables)
    requires CollisionFree(c) && HasDistinctIds(t.records)
    ensures T.VerifyAll(c, t) == if IsIntactLedger(c, t) then Ok(|t.records|) else Err(T.Integrity)
  {
    hide T.Total, T.ClaimIsSound, T.ReleaseIsClaimed, IsIntactRow, IsIntactChain, IsIntactClaim, IsIntactRelease;
    CountsExactly(c, t.records);
    if RowsAreIntact(c, t.records) {
      forall id | id in t.claims ensures T.ClaimIsSound(c, t, id) <==> IsIntactClaim(t, id) {
        ClaimIsIntactExactly(c, t, id);
      }
    }
    forall i | 0 <= i < |t.records|
      ensures T.ReleaseIsClaimed(t, t.records[i].recordId) <==> IsIntactRelease(t, t.records[i].recordId)
    {
      ReleaseIsIntactExactly(t, t.records[i].recordId);
    }
  }

  // ---------------------------------------------------------------- tampering

  /** The rows of row `i`'s scope, up to row `i`. */
  function ScopeUpTo(rows: seq<T.Row>, i: nat): seq<T.Row>
    requires i < |rows|
  {
    T.RowsOfScope(rows[..i + 1], rows[i].scopeSha256)
  }

  lemma {:induction false} PrefixIsChained(rows: seq<T.Row>, h: string, n: nat)
    requires n <= |rows| && Linked(T.Payloads(T.RowsOfScope(rows, h)))
    ensures Linked(T.Payloads(T.RowsOfScope(rows[..n], h)))
    decreases |rows| - n
  {
    hide Linked;
    if n == |rows| {
      assert rows[..n] == rows;
    } else {
      PrefixIsChained(rows, h, n + 1);
      assert rows[..n + 1] == rows[..n] + [rows[n]];
      LinkedOfLonger(rows[..n], rows[n], h);
    }
  }

  lemma ScopeUpToIsChain(c: Config, rows: seq<T.Row>, i: nat)
    requires RowsAreIntact(c, rows) && IsIntactChain(rows) && i < |rows|
    ensures var selected := ScopeUpTo(rows, i);
            && selected != [] && selected[|selected| - 1] == rows[i]
            && (forall k | 0 <= k < |selected| :: IsIntactRow(c, selected[k]))
            && Sealed(c, T.Payloads(selected)) && Linked(T.Payloads(selected))
  {
    hide IsIntactRow, IsIntactChain, Linked, T.RowsOfScope, RecordSha256;
    var h := rows[i].scopeSha256;
    ChainIsIntactExactly(c, rows);
    assert Linked(T.Payloads(T.RowsOfScope(rows, h)));
    PrefixIsChained(rows, h, i + 1);
    assert rows[..i + 1] == rows[..i] + [rows[i]];
    ScopeAfterInsert(rows[..i], rows[i], h);
    SelectedAreIntact(c, rows[..i + 1], h);
  }

  lemma SelectedAreIntact(c: Config, rows: seq<T.Row>, h: string)
    requires RowsAreIntact(c, rows)
    ensures var selected := T.RowsOfScope(rows, h);
            && (forall k | 0 <= k < |selected| :: IsIntactRow(c, selected[k]))
            && Sealed(c, T.Payloads(selected))
  {
    hide IsIntactRow, RecordSha256;
    var selected := T.RowsOfScope(rows, h);
    T.SelectedExactly(rows, h);
    forall k | 0 <= k < |selected|
      ensures IsIntactRow(c, selected[k]) && selected[k].payload.contentSha256 == RecordSha256(c, selected[k].payload)
    {
      assert selected[k] in selected;
      var j :| 0 <= j < |rows| && rows[j] == selected[k];
      IntactRowIsSealed(c, selected[k]);
    }
  }

  lemma IntactRowIsSealed(c: Config, row: T.Row)
    requires IsIntactRow(c, row)
    ensures row.payload.contentSha256 == RecordSha256(c, row.payload) && row == T.RowOf(row.payload)
  {
  }

  /** A row fixes everything before it: two ledgers that verify and share one row hold the same rows of its scope
    * up to it, in the same order.
    */
  lemma SharedRowFixesHistory(c: Config, t: Tables, t': Tables, i: nat, k: nat)
    requires CollisionFree(c) && HasDistinctIds(t.records) && HasDistinctIds(t'.records)
    requires T.VerifyAll(c, t).Ok? && T.VerifyAll(c, t').Ok?
    requires i < |t.records| && k < |t'.records| && t.records[i] == t'.records[k]
    ensures ScopeUpTo(t.records, i) == ScopeUpTo(t'.records, k)
  {
    hide T.VerifyAll, IsIntactRow, IsIntactChain, ScopeUpTo, RowsAreIntact;
    VerifiesExactly(c, t);
    VerifiesExactly(c, t');
    ScopeUpToIsChain(c, t.records, i);
    ScopeUpToIsChain(c, t'.records, k);
    var left, right := ScopeUpTo(t.records, i), ScopeUpTo(t'.records, k);
    HeadCommitsToHistory(c, T.Payloads(left), T.Payloads(right));
    forall j | 0 <= j < |left| ensures left[j] == right[j] {
      assert T.Payloads(left)[j] == T.Payloads(right)[j];
      IntactRowIsSealed(c, left[j]);
      IntactRowIsSealed(c, right[j]);
    }
  }

  /** So tampering behind a row that is left alone is detected: after a ledger verified, changing, removing,
    * inserting or reordering rows of a scope before one that stays makes verification fail.
    */
  lemma TamperingIsDetected(c: Config, t: Tables, t': Tables, i: nat, k: nat)
    requires CollisionFree(c) && HasDistinctIds(t.records) && HasDistinctIds(t'.records)
    requires T.VerifyAll(c, t).Ok?
    requires i < |t.records| && k < |t'.records| && t.records[i] == t'.records[k]
    requires ScopeUpTo(t.records, i) != ScopeUpTo(t'.records, k)
    ensures T.VerifyAll(c, t') == Err(T.Integrity)
  {
    hide T.VerifyAll, IsIntactLedger, ScopeUpTo;
    VerifiesExactly(c, t');
    if T.VerifyAll(c, t').Ok? {
      SharedRowFixesHistory(c, t, t', i, k);
    }
  }

  // ---------------------------------------------------------------- deciding on broken tables

  predicate HasDistinctReceipts(rows: seq<T.Row>) {
    forall i, j | 0 <= i < j < |rows| :: rows[i].receiptId != rows[j].receiptId
  }

  predicate IsLegal(journal: seq<T.Transition>, id: string) {
    T.StatesOf(journal, id) in {[], [T.Pending], [T.Pending, T.Released], [T.Pending, T.Aborted]}
  }

  /** Something the decision on this event reads is broken: a row or the chain of its scope, the transitions of a
    * record of its scope, or the row that holds its receipt.
    */
  predicate IsBrokenFor(c: Config, t: Tables, event: Event) {
    || !ScopeIsIntact(c, t.records, event.scope.scopeSha256)
    || (exists i | 0 <= i < |t.records| ::
          t.records[i].scopeSha256 == event.scope.scopeSha256 && !IsLegal(t.journal, t.records[i].payload.recordId))
    || (exists i | 0 <= i < |t.records| :: t.records[i].receiptId == event.receiptId && !IsIntactRow(c, t.records[i]))
  }

  lemma ValidScopeReadsExactly(c: Config, rows: seq<T.Row>, scope: Scope)
    requires CollisionFree(c) && ValidScope(c, scope)
    ensures T.RecordsForScope(c, rows, scope)
         == if ScopeIsIntact(c, rows, scope.scopeSha256) then Ok(T.Payloads(T.RowsOfScope(rows, scope.scopeSha256)))
            else Err(T.Integrity)
  {
    hide ValidScope, SamePrivacyScope, T.RowIsSound;
    var selected := T.RowsOfScope(rows, scope.scopeSha256);
    var records := T.Payloads(selected);
    if T.RowsAreSound(c, selected) {
      T.SelectedExactly(rows, scope.scopeSha256);
      forall i | 0 <= i < |records| ensures T.ContinuesChain(c, records, scope, i) <==> LinkedAt(records, i) {
        assert selected[i] in selected && T.RowIsSound(c, selected[i]);
        SoundScopeIsValid(c, selected[i]);
        ScopeHashIdentifiesScope(c, records[i].event.scope, scope);
      }
    }
  }

  lemma {:induction false} IllegalHistoryRaises(journal: seq<T.Transition>, audit: seq<Record>)
    ensures T.ActiveHistory(journal, audit).Ok? <==> forall i | 0 <= i < |audit| :: IsLegal(journal, audit[i].recordId)
    ensures T.ActiveHistory(journal, audit).Err? ==> T.ActiveHistory(journal, audit) == Err(T.Integrity)
  {
    if audit != [] {
      var n := |audit| - 1;
      IllegalHistoryRaises(journal, audit[..n]);
      assert forall i | 0 <= i < n :: audit[..n][i] == audit[i];
    }
  }

  lemma {:induction false} FindDistinctReceipt(rows: seq<T.Row>, i: nat)
    requires HasDistinctReceipts(rows) && i < |rows|
    ensures T.FindReceipt(rows, rows[i].receiptId) == Some(rows[i])
  {
    if i > 0 {
      FindDistinctReceipt(rows[1..], i - 1);
    }
  }

  /** The gate fails closed: whatever was done to the tables, a decision that reads something broken is an integrity
    * error and writes nothing.
    */
  lemma GateFailsClosed(c: Config, t: Tables, a: Action)
    requires CollisionFree(c) && HasDistinctReceipts(t.records) && a.Evaluate? && ValidAction(c, a)
    requires c.canonicalize(a.sql, a.dialect).Some? && IsBrokenFor(c, t, a.event)
    ensures Decide(c, t, a) == T.Outcome(t, Err(T.Integrity))
  {
    hide IsIntactRow, T.RowIsSound, T.RecordsForScope, T.ActiveHistory, ScopeIsIntact, IsLegal, T.Release, ValidScope;
    var h := a.event.scope.scopeSha256;
    var audit := T.Payloads(T.RowsOfScope(t.records, h));
    EventScopeIsValid(c, a.event);
    ValidScopeReadsExactly(c, t.records, a.event.scope);
    IllegalHistoryRaises(t.journal, audit);
    if i: nat :| i < |t.records| && t.records[i].scopeSha256 == h && !IsLegal(t.journal, t.records[i].payload.recordId) {
      ScopeRowIsListed(t.records, h, i);
      var k :| 0 <= k < |audit| && audit[k] == t.records[i].payload;
      assert !IsLegal(t.journal, audit[k].recordId);
    } else if i: nat :| i < |t.records| && t.records[i].receiptId == a.event.receiptId && !IsIntactRow(c, t.records[i]) {
      FindDistinctReceipt(t.records, i);
      RowIsIntactExactly(c, t.records[i]);
    }
  }

  lemma EventScopeIsValid(c: Config, event: Event)
    requires ValidEvent(c, event)
    ensures ValidScope(c, event.scope)
  {
  }

  lemma ScopeRowIsListed(rows: seq<T.Row>, h: string, i: nat)
    requires i < |rows| && rows[i].scopeSha256 == h
    ensures rows[i].payload in T.Payloads(T.RowsOfScope(rows, h))
  {
    T.SelectedExactly(rows, h);
    assert rows[i] in rows;
    var k :| 0 <= k < |T.RowsOfScope(rows, h)| && T.RowsOfScope(rows, h)[k] == rows[i];
    assert T.Payloads(T.RowsOfScope(rows, h))[k] == rows[i].payload;
  }

  /** So does a direct append, which reads no transitions. */
  lemma AppendFailsClosed(c: Config, t: Tables, event: Event, createdAt: int, recordId: string)
    requires CollisionFree(c) && HasDistinctReceipts(t.records) && ValidEvent(c, event)
    requires || !ScopeIsIntact(c, t.records, event.scope.scopeSha256)
             || exists i | 0 <= i < |t.records| :: t.records[i].receiptId == event.receiptId && !IsIntactRow(c, t.records[i])
    ensures T.Append(c, t, event, createdAt, recordId) == T.Outcome(t, Err(T.Integrity))
  {
    hide IsIntactRow, T.RowIsSound, T.RecordsForScope, ScopeIsIntact, ValidScope, T.AppendEvent;
    EventScopeIsValid(c, event);
    ValidScopeReadsExactly(c, t.records, event.scope);
    if i: nat :| i < |t.records| && t.records[i].receiptId == event.receiptId && !IsIntactRow(c, t.records[i]) {
      FindDistinctReceipt(t.records, i);
      RowIsIntactExactly(c, t.records[i]);
    }
  }

  /** An intact row is named by the commitment. */
  predicate IsIntactlyOnRecord(c: Config, t: Tables, commitment: Commitment) {
    exists i | 0 <= i < |t.records| :: IsIntactRow(c, t.records[i]) && Identifies(t.records[i], commitment)
  }

  lemma CommitmentReadsExactly(c: Config, t: Tables, commitment: Commitment)
    requires HasDistinctIds(t.records)
    ensures T.RecordForCommitment(c, t.records, commitment).Ok? <==> IsIntactlyOnRecord(c, t, commitment)
    ensures T.RecordForCommitment(c, t.records, commitment).Ok? ==>
              T.CommitmentOf(T.RecordForCommitment(c, t.records, commitment).value) == commitment
  {
    hide IsIntactRow, T.RowIsSound;
    forall i | 0 <= i < |t.records|
      ensures T.FindRecordId(t.records, t.records[i].recordId) == Some(t.records[i])
      ensures IsIntactRow(c, t.records[i]) ==>
                (Identifies(t.records[i], commitment) <==> T.CommitmentOf(t.records[i].payload) == commitment)
      ensures T.RowIsSound(c, t.records[i]) <==> IsIntactRow(c, t.records[i])
    {
      FindDistinct(t.records, i);
      RowIsIntactExactly(c, t.records[i]);
      if IsIntactRow(c, t.records[i]) {
        IntactColumns(c, t.records[i]);
      }
    }
    match T.FindRecordId(t.records, commitment.recordId)
    case None =>
    case Some(row) =>
      var i :| 0 <= i < |t.records| && t.records[i] == row;
  }

  /** On tables of any origin an authorization verifies exactly when it is well formed, an intact row is named by the
    * commitment, and the claim on it is for this authorization, receipt and content.
    */
  lemma ClaimMatchesExactly(c: Config, t: Tables, commitment: Commitment, authorizationId: string)
    requires HasDistinctIds(t.records)
    ensures T.MatchClaim(c, t, commitment, authorizationId).Ok?
       <==> && IsAuthorizationId(authorizationId) && IsIntactlyOnRecord(c, t, commitment)
            && commitment.recordId in t.claims
            && t.claims[commitment.recordId] == T.Claim(authorizationId, commitment.receiptId, commitment.contentSha256)
  {
    hide IsIntactlyOnRecord, IsAuthorizationId, T.RecordForCommitment;
    CommitmentReadsExactly(c, t, commitment);
  }
}
