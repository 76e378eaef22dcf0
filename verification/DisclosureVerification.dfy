/** What a caller can verify between the commitment of a release and its execution: the commitment itself and
  * the authorization that claimed it.
  */
module DisclosureVerification {
  import opened Foundations
  import opened DisclosureModels
  import opened DisclosureComposition
  import opened DisclosureRuns
  import opened DisclosureTheorems
  import opened DisclosureAudit
  import T = DisclosureTables

  // ---------------------------------------------------------------- commitments

  lemma WithReceiptAfterInsert(history: seq<Record>, r: Record, receiptId: string)
    ensures T.WithReceipt(history + [r], receiptId)
         == T.WithReceipt(history, receiptId) + if r.event.receiptId == receiptId then [r] else []
  {
    assert (history + [r])[..|history|] == history;
  }

  predicate HasReceipt(row: T.Row, h: string, receiptId: string) {
    row.scopeSha256 == h && row.payload.event.receiptId == receiptId
  }

  /** The records with a receipt in the history of a scope. */
  function Matches(rows: seq<T.Row>, h: string, receiptId: string): seq<Record> {
    T.WithReceipt(T.Payloads(T.RowsOfScope(rows, h)), receiptId)
  }

  lemma MatchesAfterInsert(rows: seq<T.Row>, row: T.Row, h: string, receiptId: string)
    ensures Matches(rows + [row], h, receiptId)
         == Matches(rows, h, receiptId) + if HasReceipt(row, h, receiptId) then [row.payload] else []
  {
    hide T.WithReceipt, T.RowsOfScope;
    var selected := T.RowsOfScope(rows, h);
    ScopeAfterInsert(rows, row, h);
    if row.scopeSha256 == h {
      PayloadsOneMore(selected, row);
      WithReceiptAfterInsert(T.Payloads(selected), row.payload, receiptId);
    } else {
      assert selected + [] == selected;
    }
  }

  lemma {:induction false} UnknownReceipt(rows: seq<T.Row>, h: string, receiptId: string)
    requires forall i | 0 <= i < |rows| :: !HasReceipt(rows[i], h, receiptId)
    ensures Matches(rows, h, receiptId) == []
  {
    if rows == [] {
      assert T.Payloads([]) == [];
    } else {
      hide Matches, HasReceipt;
      var n := |rows| - 1;
      UnknownReceipt(rows[..n], h, receiptId);
      MatchesAfterInsert(rows[..n], rows[n], h, receiptId);
      assert rows == rows[..n] + [rows[n]];
    }
  }

  predicate AreIndexed(rows: seq<T.Row>) {
    forall i | 0 <= i < |rows| :: T.IndexMatches(rows[i])
  }

  /** Receipts being unique, the history of a scope holds a recorded receipt once. */
  lemma {:induction false} ReceiptIsUnique(rows: seq<T.Row>, h: string, receiptId: string, i: nat)
    requires UniqueRows(rows) && AreIndexed(rows) && i < |rows| && HasReceipt(rows[i], h, receiptId)
    ensures Matches(rows, h, receiptId) == [rows[i].payload]
  {
    hide Matches;
    var n := |rows| - 1;
    var init := rows[..n];
    MatchesAfterInsert(init, rows[n], h, receiptId);
    assert rows == init + [rows[n]];
    OthersHaveNot(rows, h, receiptId, i);
    if i == n {
      UnknownReceipt(init, h, receiptId);
    } else {
      ReceiptIsUnique(init, h, receiptId, i);
    }
  }

  lemma OthersHaveNot(rows: seq<T.Row>, h: string, receiptId: string, i: nat)
    requires UniqueRows(rows) && AreIndexed(rows) && i < |rows| && HasReceipt(rows[i], h, receiptId)
    ensures forall k | 0 <= k < |rows| && k != i :: !HasReceipt(rows[k], h, receiptId)
  {
  }

  /** The row records this release under this cohort identity, and the commitment names the row. */
  predicate IsCommitted(row: T.Row, offered: Event, cohortHmac: string, commitment: Commitment) {
    Records(row.payload.event, offered, cohortHmac) && Identifies(row, commitment)
  }

  /** In every reachable state a commitment matches a release exactly when it names the row that records this very
    * release under the cohort identity of its SQL; that row's record is returned. Refused SQL has its own error.
    */
  lemma CommitmentMatchesExactly(
    c: Config, actions: seq<Action>, commitment: Commitment, event: Event, sql: string, dialect: string)
    requires CollisionFree(c) && ValidActions(c, actions) && ValidEvent(c, event)
    ensures var t := Run(c, actions).tables;
            var result := T.MatchCommitment(c, t, commitment, event, sql, dialect);
            var canonical := c.canonicalize(sql, dialect);
            && (canonical == None <==> result == Err(T.CompositionRefused))
            && (result.Err? ==> result.error == T.CompositionRefused || result.error == T.Integrity)
            && (result.Ok? <==>
                  && canonical.Some?
                  && exists i | 0 <= i < |t.records| ::
                       IsCommitted(t.records[i], event, c.hmac(canonical.value), commitment))
            && (canonical.Some? ==>
                  forall i | 0 <= i < |t.records| && IsCommitted(t.records[i], event, c.hmac(canonical.value), commitment) ::
                    result == Ok(t.records[i].payload))
  {
    hide Run, Inv, IsCommitted, T.RecordsForScope, T.WithReceipt;
    RunKeepsInv(c, actions);
    if c.canonicalize(sql, dialect).Some? {
      hide T.MatchCommitment;
      SoundCommitmentMatches(c, Run(c, actions).tables, commitment, event, sql, dialect);
    }
  }

  lemma SoundCommitmentMatches(
    c: Config, t: Tables, commitment: Commitment, event: Event, sql: string, dialect: string)
    requires CollisionFree(c) && Inv(c, t) && ValidEvent(c, event) && c.canonicalize(sql, dialect).Some?
    ensures var result := T.MatchCommitment(c, t, commitment, event, sql, dialect);
            var cohort := c.hmac(c.canonicalize(sql, dialect).value);
            && (result.Ok? <==> exists i | 0 <= i < |t.records| :: IsCommitted(t.records[i], event, cohort, commitment))
            && (result.Err? ==> result == Err(T.Integrity))
            && (forall i | 0 <= i < |t.records| && IsCommitted(t.records[i], event, cohort, commitment) ::
                  result == Ok(t.records[i].payload))
  {
    hide ValidRecord, JournalInv, ClaimsInv, ChainedScopes, T.RecordsForScope, T.WithReceipt, T.RowsOfScope;
    var bound := BindEvent(c, event, sql, dialect).value;
    var cohort := c.hmac(c.canonicalize(sql, dialect).value);
    var h := event.scope.scopeSha256;
    HistoryReads(c, t, event.scope);
    forall i | 0 <= i < |t.records|
      ensures T.IndexMatches(t.records[i])
      ensures t.records[i].payload.event == bound <==> Records(t.records[i].payload.event, event, cohort)
    {
      assert T.RowIsSound(c, t.records[i]);
      BindsExactly(c, t.records[i].payload.event, event, sql, dialect);
    }
    forall i | 0 <= i < |t.records| && HasReceipt(t.records[i], h, commitment.receiptId)
      ensures Matches(t.records, h, commitment.receiptId) == [t.records[i].payload]
    {
      ReceiptIsUnique(t.records, h, commitment.receiptId, i);
    }
    if forall i | 0 <= i < |t.records| :: !HasReceipt(t.records[i], h, commitment.receiptId) {
      UnknownReceipt(t.records, h, commitment.receiptId);
    }
    forall i | 0 <= i < |t.records| && IsCommitted(t.records[i], event, cohort, commitment)
      ensures HasReceipt(t.records[i], h, commitment.receiptId)
    {
    }
  }

  /** From its evaluation on, whatever happens, the commitment of an allowed release matches exactly that release
    * under SQL of the same keyed cohort identity.
    */
  lemma CommittedReleaseMatches(
    c: Config, before: seq<Action>, first: Action, after: seq<Action>, event: Event, sql: string, dialect: string)
    requires CollisionFree(c) && ValidActions(c, before) && ValidActions(c, after)
    requires first.Evaluate? && ValidAction(c, first)
    requires ValidEvent(c, event) && c.canonicalize(sql, dialect).Some?
    requires Decide(c, Run(c, before).tables, first).result.Ok?
    requires Decide(c, Run(c, before).tables, first).result.value.allowed
    ensures var commitment := Decide(c, Run(c, before).tables, first).result.value.commitment;
            var t := RunFrom(c, Step(c, Run(c, before), first), after).tables;
            && commitment.Some?
            && (T.MatchCommitment(c, t, commitment.value, event, sql, dialect).Ok?
                <==> && SameRelease(event, first.event)
                     && c.canonicalize(first.sql, first.dialect).Some?
                     && c.hmac(c.canonicalize(sql, dialect).value)
                        == c.hmac(c.canonicalize(first.sql, first.dialect).value))
  {
    hide T.EvaluateAndCommit, T.MatchCommitment, T.RowIsSound;
    var w0 := Run(c, before);
    RunKeepsInv(c, before);
    var i := AllowedIsRecorded(c, w0, first);
    var w1 := Step(c, w0, first);
    StepKeepsInv(c, w0, first);
    RunFromKeepsInv(c, w1, after);
    RunExtends(c, w1, after);
    var t := RunFrom(c, w1, after).tables;
    assert t.records[i] == w1.tables.records[i];
    var commitment := Decide(c, w0.tables, first).result.value.commitment.value;
    SoundCommitmentMatches(c, t, commitment, event, sql, dialect);
    var cohort := c.hmac(c.canonicalize(sql, dialect).value);
    forall k | 0 <= k < |t.records| && IsCommitted(t.records[k], event, cohort, commitment)
      ensures k == i
    {
      CommitmentFixesRow(t, i, k, commitment);
    }
    if Records(t.records[i].payload.event, event, cohort) {
      assert IsCommitted(t.records[i], event, cohort, commitment);
    }
  }

  lemma CommitmentFixesRow(t: Tables, i: nat, k: nat, commitment: Commitment)
    requires UniqueRows(t.records) && i < |t.records| && k < |t.records|
    requires Identifies(t.records[i], commitment) && Identifies(t.records[k], commitment)
    ensures i == k
  {
  }

  // ---------------------------------------------------------------- authorization claims

  /** In every reachable state, the authorization that verifies for a commitment is exactly the one whose claim
    * the record carries; the claim's receipt and content never disagree with the record.
    */
  lemma OnlyClaimantVerifies(c: Config, actions: seq<Action>, commitment: Commitment, authorizationId: string)
    requires CollisionFree(c) && ValidActions(c, actions)
    requires T.RecordForCommitment(c, Run(c, actions).tables.records, commitment).Ok?
    ensures var t := Run(c, actions).tables;
            T.MatchClaim(c, t, commitment, authorizationId).Ok?
            <==> commitment.recordId in t.claims && t.claims[commitment.recordId].authorizationId == authorizationId
  {
    hide T.RowIsSound, RecordsInv, JournalInv;
    RunKeepsInv(c, actions);
    var t := Run(c, actions).tables;
    if commitment.recordId in t.claims {
      assert T.ClaimIsSound(c, t, commitment.recordId);
    }
  }
}
