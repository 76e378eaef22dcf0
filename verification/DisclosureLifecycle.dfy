/** What happens to a recorded release: in every reachable state, exactly when each transaction on a commitment
  * succeeds, what it leaves behind, and what stays from then on.
  */
module DisclosureLifecycle {
  import opened Foundations
  import opened DisclosureModels
  import opened DisclosureComposition
  import opened DisclosureRuns
  import opened DisclosureTheorems
  import opened DisclosureGate
  import DisclosureAudit
  import T = DisclosureTables

  /** Some row is named by the commitment. */
  predicate IsOnRecord(t: Tables, commitment: Commitment) {
    exists i | 0 <= i < |t.records| :: Identifies(t.records[i], commitment)
  }

  lemma RecordIsFound(c: Config, t: Tables, commitment: Commitment)
    requires SoundRows(c, t.records) && UniqueRows(t.records)
    ensures T.RecordForCommitment(c, t.records, commitment).Ok? <==> IsOnRecord(t, commitment)
    ensures T.RecordForCommitment(c, t.records, commitment).Err? ==>
              T.RecordForCommitment(c, t.records, commitment) == Err(T.Integrity)
    ensures forall i | 0 <= i < |t.records| && Identifies(t.records[i], commitment) ::
              T.RecordForCommitment(c, t.records, commitment) == Ok(t.records[i].payload)
  {
    hide ValidRecord, CompositionIsConsistent;
    forall i | 0 <= i < |t.records| && Identifies(t.records[i], commitment)
      ensures T.RecordForCommitment(c, t.records, commitment) == Ok(t.records[i].payload)
    {
      FindExisting(t.records, i);
      assert T.RowIsSound(c, t.records[i]);
    }
    match T.FindRecordId(t.records, commitment.recordId)
    case None =>
    case Some(row) =>
      var i :| 0 <= i < |t.records| && t.records[i] == row;
      assert T.RowIsSound(c, t.records[i]);
  }

  /** Only this record's states change, from the first sequence to the second. */
  ghost predicate Moves(t: Tables, t': Tables, id: string, states: seq<T.ReleaseState>, after: seq<T.ReleaseState>) {
    && t'.records == t.records && t'.claims == t.claims
    && T.StatesOf(t.journal, id) == states && T.StatesOf(t'.journal, id) == after
    && forall other: string | other != id :: T.StatesOf(t'.journal, other) == T.StatesOf(t.journal, other)
  }

  lemma TransitionMoves(t: Tables, id: string, state: T.ReleaseState)
    requires JournalEntryInv(t, id) && T.StatesOf(t.journal, id) == [T.Pending] && state != T.Pending
    ensures T.InsertTransition(t, id, state).Ok?
    ensures Moves(t, T.InsertTransition(t, id, state).value, id, [T.Pending], [T.Pending, state])
  {
    forall other: string
      ensures T.StatesOf(t.journal + [T.Transition(id, state)], other)
           == T.StatesOf(t.journal, other) + if id == other then [state] else []
    {
      StatesAfterInsert(t.journal, id, state, other);
    }
    assert forall other: string :: T.StatesOf(t.journal, other) + [] == T.StatesOf(t.journal, other);
  }

  // ---------------------------------------------------------------- release and abort

  /** A release is marked exactly when the commitment is on record and either was released before (or predates the
    * journal), or is pending with a claim. Only the last case writes: it turns PENDING into RELEASED.
    */
  lemma ReleaseIsMarkedExactly(c: Config, actions: seq<Action>, commitment: Commitment)
    requires CollisionFree(c) && ValidActions(c, actions)
    ensures var t := Run(c, actions).tables;
            var o := T.MarkReleased(c, t, commitment);
            var states := T.StatesOf(t.journal, commitment.recordId);
            && (o.result.Ok? <==>
                  && IsOnRecord(t, commitment)
                  && (states == [] || states == [T.Pending, T.Released]
                      || (states == [T.Pending] && commitment.recordId in t.claims)))
            && (o.result.Err? ==> o.result == Err(T.Integrity))
            && (if o.result.Ok? && states == [T.Pending]
                then Moves(t, o.tables, commitment.recordId, [T.Pending], [T.Pending, T.Released])
                else o.tables == t)
  {
    hide RecordsInv, ClaimsInv, T.RecordForCommitment, IsOnRecord, T.InsertTransition, Moves;
    var t := Run(c, actions).tables;
    RunKeepsInv(c, actions);
    CommitmentIsFound(c, t, commitment);
    assert JournalEntryInv(t, commitment.recordId);
    if T.StatesOf(t.journal, commitment.recordId) == [T.Pending] {
      TransitionMoves(t, commitment.recordId, T.Released);
    }
  }

  lemma CommitmentIsFound(c: Config, t: Tables, commitment: Commitment)
    requires Inv(c, t)
    ensures T.RecordForCommitment(c, t.records, commitment).Ok? <==> IsOnRecord(t, commitment)
    ensures T.RecordForCommitment(c, t.records, commitment).Err? ==>
              T.RecordForCommitment(c, t.records, commitment) == Err(T.Integrity)
    ensures forall i | 0 <= i < |t.records| && Identifies(t.records[i], commitment) ::
              T.RecordForCommitment(c, t.records, commitment) == Ok(t.records[i].payload)
  {
    hide T.RecordForCommitment, IsOnRecord, JournalInv, ClaimsInv, ChainedScopes;
    RecordIsFound(c, t, commitment);
  }

  /** An abort is marked exactly when the commitment is on record and pending or aborted before; only PENDING is
    * turned into ABORTED.
    */
  lemma AbortIsMarkedExactly(c: Config, actions: seq<Action>, commitment: Commitment)
    requires CollisionFree(c) && ValidActions(c, actions)
    ensures var t := Run(c, actions).tables;
            var o := T.MarkAborted(c, t, commitment);
            var states := T.StatesOf(t.journal, commitment.recordId);
            && (o.result.Ok? <==>
                  IsOnRecord(t, commitment) && (states == [T.Pending] || states == [T.Pending, T.Aborted]))
            && (o.result.Err? ==> o.result == Err(T.Integrity))
            && (if o.result.Ok? && states == [T.Pending]
                then Moves(t, o.tables, commitment.recordId, [T.Pending], [T.Pending, T.Aborted])
                else o.tables == t)
  {
    hide RecordsInv, ClaimsInv, T.RecordForCommitment, IsOnRecord, T.InsertTransition, Moves;
    var t := Run(c, actions).tables;
    RunKeepsInv(c, actions);
    CommitmentIsFound(c, t, commitment);
    assert JournalEntryInv(t, commitment.recordId);
    if T.StatesOf(t.journal, commitment.recordId) == [T.Pending] {
      TransitionMoves(t, commitment.recordId, T.Aborted);
    }
  }

  /** The pending check succeeds exactly for a commitment on record whose only transition is PENDING. */
  lemma PendingExactly(c: Config, actions: seq<Action>, commitment: Commitment)
    requires CollisionFree(c) && ValidActions(c, actions)
    ensures var t := Run(c, actions).tables;
            T.RequirePending(c, t, commitment)
            == if IsOnRecord(t, commitment) && T.StatesOf(t.journal, commitment.recordId) == [T.Pending]
               then Ok(()) else Err(T.Integrity)
  {
    hide RecordsInv, ClaimsInv, T.RecordForCommitment, IsOnRecord;
    var t := Run(c, actions).tables;
    RunKeepsInv(c, actions);
    CommitmentIsFound(c, t, commitment);
    assert JournalEntryInv(t, commitment.recordId);
  }

  /** The history that future decisions count: the scope's rows, read and validated, without the aborted ones. */
  predicate IsActive(c: Config, t: Tables, r: Record) {
    && T.RecordsForScope(c, t.records, r.event.scope).Ok?
    && T.ActiveHistory(t.journal, T.RecordsForScope(c, t.records, r.event.scope).value).Ok?
    && r in T.ActiveHistory(t.journal, T.RecordsForScope(c, t.records, r.event.scope).value).value
  }

  /** A recorded release is in the active history of its scope exactly while it is not aborted. */
  lemma ActiveUnlessAborted(c: Config, t: Tables, i: nat)
    requires CollisionFree(c) && Inv(c, t) && i < |t.records|
    ensures IsActive(c, t, t.records[i].payload)
       <==> T.StatesOf(t.journal, t.records[i].recordId) != [T.Pending, T.Aborted]
  {
    hide ValidScope, CompositionIsConsistent, JournalInv, ClaimsInv, T.RecordsForScope;
    var r := t.records[i].payload;
    assert T.RowIsSound(c, t.records[i]);
    HistoryReads(c, t, r.event.scope);
    DisclosureAudit.RowIsListed(c, t.records, i);
    ActiveExactly(t.journal, T.Payloads(T.RowsOfScope(t.records, r.event.scope.scopeSha256)));
  }

  /** What was released stays in the active history of its scope, and what was aborted stays out of it, at every
    * later point of any run.
    */
  lemma OutcomeIsPermanent(c: Config, before: seq<Action>, a: Action, after: seq<Action>, i: nat)
    requires CollisionFree(c) && ValidActions(c, before) && ValidActions(c, after)
    requires a.MarkReleased? || a.MarkAborted?
    requires i < |Run(c, before).tables.records| && Identifies(Run(c, before).tables.records[i], a.commitment)
    requires if a.MarkReleased? then T.MarkReleased(c, Run(c, before).tables, a.commitment).result.Ok?
             else T.MarkAborted(c, Run(c, before).tables, a.commitment).result.Ok?
    requires T.StatesOf(Run(c, before).tables.journal, a.commitment.recordId) != []
    ensures var t := RunFrom(c, Step(c, Run(c, before), a), after).tables;
            && i < |t.records| && t.records[i] == Run(c, before).tables.records[i]
            && (IsActive(c, t, t.records[i].payload) <==> a.MarkReleased?)
  {
    hide T.RowIsSound, IsActive, RunFrom, Step, Identifies, T.MarkReleased, T.MarkAborted, Inv;
    var w := Run(c, before);
    var w1 := Step(c, w, a);
    RunKeepsInv(c, before);
    MarkedStates(c, before, a);
    StepKeepsInv(c, w, a);
    StepExtends(c, w, a);
    RunFromKeepsInv(c, w1, after);
    RunExtends(c, w1, after);
    var t := RunFrom(c, w1, after).tables;
    IdentifiedId(w.tables.records[i], a.commitment);
    TwoStatesStay(c, w1.tables, t, a.commitment.recordId);
    ActiveUnlessAborted(c, t, i);
  }

  lemma MarkedStates(c: Config, before: seq<Action>, a: Action)
    requires CollisionFree(c) && ValidActions(c, before)
    requires a.MarkReleased? || a.MarkAborted?
    requires if a.MarkReleased? then T.MarkReleased(c, Run(c, before).tables, a.commitment).result.Ok?
             else T.MarkAborted(c, Run(c, before).tables, a.commitment).result.Ok?
    requires T.StatesOf(Run(c, before).tables.journal, a.commitment.recordId) != []
    ensures T.StatesOf(Step(c, Run(c, before), a).tables.journal, a.commitment.recordId)
         == [T.Pending, if a.MarkReleased? then T.Released else T.Aborted]
  {
    hide IsOnRecord, T.MarkReleased, T.MarkAborted, Run;
    ReleaseIsMarkedExactly(c, before, a.commitment);
    AbortIsMarkedExactly(c, before, a.commitment);
  }

  lemma TwoStatesStay(c: Config, t: Tables, t': Tables, id: string)
    requires Inv(c, t') && Extends(t, t') && |T.StatesOf(t.journal, id)| == 2
    ensures T.StatesOf(t'.journal, id) == T.StatesOf(t.journal, id)
  {
    hide RecordsInv, ClaimsInv;
    StatesExtend(t.journal, t'.journal, id);
    assert JournalEntryInv(t', id);
  }

  lemma IdentifiedId(row: T.Row, commitment: Commitment)
    requires Identifies(row, commitment)
    ensures row.recordId == commitment.recordId
  {
  }

  // ---------------------------------------------------------------- claims

  predicate IsUnclaimed(t: Tables, id: string, authorizationId: string) {
    id !in t.claims && forall other | other in t.claims :: t.claims[other].authorizationId != authorizationId
  }

  /** A claim is inserted exactly for a well-formed authorization on a commitment on record, when neither the
    * record nor the authorization is claimed; it binds the authorization to the commitment's receipt and content.
    * Nothing else changes, and each failure has its own error.
    */
  lemma ClaimIsInsertedExactly(c: Config, actions: seq<Action>, commitment: Commitment, authorizationId: string)
    requires CollisionFree(c) && ValidActions(c, actions)
    ensures var t := Run(c, actions).tables;
            var o := T.InsertClaim(c, t, commitment, authorizationId);
            var id := commitment.recordId;
            && (o.result == Err(T.InvalidAuthorizationId) <==> !IsAuthorizationId(authorizationId))
            && (o.result == Err(T.Integrity) <==> IsAuthorizationId(authorizationId) && !IsOnRecord(t, commitment))
            && (o.result == Err(T.CommitmentReplay) <==>
                  IsAuthorizationId(authorizationId) && IsOnRecord(t, commitment) && !IsUnclaimed(t, id, authorizationId))
            && o.tables == if o.result.Ok?
                           then t.(claims := t.claims[id := T.Claim(authorizationId, commitment.receiptId, commitment.contentSha256)])
                           else t
  {
    hide IsAuthorizationId, JournalInv, ClaimsInv, ChainedScopes, T.RecordForCommitment;
    var t := Run(c, actions).tables;
    RunKeepsInv(c, actions);
    CommitmentIsFound(c, t, commitment);
    if IsOnRecord(t, commitment) {
      var i :| 0 <= i < |t.records| && Identifies(t.records[i], commitment);
      assert T.RowIsSound(c, t.records[i]);
    }
  }

  /** An authorization verifies for a commitment exactly when it is well formed, the commitment is on record, and
    * the claim on that record is this authorization's.
    */
  lemma ClaimVerifiesExactly(c: Config, actions: seq<Action>, commitment: Commitment, authorizationId: string)
    requires CollisionFree(c) && ValidActions(c, actions)
    ensures var t := Run(c, actions).tables;
            T.MatchClaim(c, t, commitment, authorizationId)
            == if && IsOnRecord(t, commitment) && commitment.recordId in t.claims
                  && t.claims[commitment.recordId].authorizationId == authorizationId
               then Ok(()) else Err(T.Integrity)
  {
    hide IsAuthorizationId, JournalInv, ChainedScopes, T.RecordForCommitment;
    var t := Run(c, actions).tables;
    RunKeepsInv(c, actions);
    CommitmentIsFound(c, t, commitment);
    if IsOnRecord(t, commitment) && commitment.recordId in t.claims {
      var i :| 0 <= i < |t.records| && Identifies(t.records[i], commitment);
      assert T.RowIsSound(c, t.records[i]);
      FindExisting(t.records, i);
      assert T.ClaimIsSound(c, t, commitment.recordId);
    }
  }

  // ---------------------------------------------------------------- direct appends

  /** Metadata that tells the truth about the event. */
  predicate HasTrueMetadata(event: Event) {
    event.composition != None ==>
      && event.composition.value.protectedRelease == ExposesSubjects(event.semantic)
      && event.composition.value.releaseFamilySha256 == event.semantic.semanticSha256
  }

  /** A direct append of a recorded receipt returns the recorded content or is a conflict; of a new one it appends
    * one chained row without a journal entry, unless the event's metadata is false or the identifier is taken.
    */
  lemma AppendsExactly(c: Config, actions: seq<Action>, event: Event, createdAt: int, recordId: string)
    requires CollisionFree(c) && ValidActions(c, actions) && ValidEvent(c, event)
    ensures var t := Run(c, actions).tables;
            var o := T.Append(c, t, event, createdAt, recordId);
            && (forall i | 0 <= i < |t.records| && t.records[i].receiptId == event.receiptId ::
                  && o.tables == t
                  && o.result == if t.records[i].payload.event == event then Ok(t.records[i].payload) else Err(T.Conflict))
            && ((forall i | 0 <= i < |t.records| :: t.records[i].receiptId != event.receiptId) ==>
                  && (o.result == Err(T.CompositionRefused) <==> !HasTrueMetadata(event))
                  && (o.result == Err(T.Conflict) <==>
                        HasTrueMetadata(event) && exists i | 0 <= i < |t.records| :: t.records[i].recordId == recordId)
                  && if o.result.Ok? then
                       && o.tables.claims == t.claims && o.tables.journal == t.journal
                       && |o.tables.records| == |t.records| + 1 && o.tables.records[..|t.records|] == t.records
                       && IsAppended(c, t.records, o.tables.records[|t.records|], event, createdAt, recordId)
                       && o.result.value == o.tables.records[|t.records|].payload
                     else o.tables == t && (o.result.error == T.CompositionRefused || o.result.error == T.Conflict))
  {
    hide IsAppended, T.RecordsForScope, JournalInv, ClaimsInv, T.RowIsSound, CompositionIsConsistent, HasTrueMetadata;
    var t := Run(c, actions).tables;
    RunKeepsInv(c, actions);
    ScopeReads(c, t.records, event.scope);
    NewRowIsAppended(c, t.records, event, createdAt, recordId);
    MetadataExactly(event);
    forall i | 0 <= i < |t.records| && t.records[i].receiptId == event.receiptId
      ensures T.FindReceipt(t.records, event.receiptId) == Some(t.records[i]) && T.RowIsSound(c, t.records[i])
    {
      DisclosureAudit.FindExistingReceipt(t.records, i);
    }
  }

  lemma MetadataExactly(event: Event)
    ensures CompositionIsConsistent(event) <==> HasTrueMetadata(event)
  {
    ProtectedExactly(event.semantic);
  }
}
