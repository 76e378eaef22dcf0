/** Runs of the two-phase ledger: any interleaving of its atomic transactions, starting from empty
  * tables. `claim_commitment` is two transactions, so its callers sit in `claiming` in between and
  * every other action may happen there.
  */
module DisclosureRuns {
  import opened Foundations
  import opened DisclosureModels
  import opened DisclosureComposition
  import T = DisclosureTables

  type Tables = T.Tables

  datatype Action =
    | Evaluate(event: Event, sql: string, dialect: string, evaluatedAt: int, createdAt: int, recordId: string)
    | Append(event: Event, createdAt: int, recordId: string)
    | CheckClaim(caller: nat, commitment: Commitment, authorizationId: string)
    | InsertClaim(caller: nat)
    | MarkReleased(commitment: Commitment)
    | MarkAborted(commitment: Commitment)

  datatype World = World(tables: Tables, claiming: map<nat, (Commitment, string)>)

  function Step(c: Config, w: World, a: Action): World {
    match a
    case Evaluate(event, sql, dialect, evaluatedAt, createdAt, recordId) =>
      w.(tables := T.EvaluateAndCommit(c, w.tables, event, sql, dialect, evaluatedAt, createdAt, recordId).tables)
    case Append(event, createdAt, recordId) =>
      w.(tables := T.Append(c, w.tables, event, createdAt, recordId).tables)
    case CheckClaim(caller, commitment, authorizationId) =>
      if T.RequirePending(c, w.tables, commitment).Ok?
      then w.(claiming := w.claiming[caller := (commitment, authorizationId)])
      else w
    case InsertClaim(caller) =>
      if caller in w.claiming
      then World(T.InsertClaim(c, w.tables, w.claiming[caller].0, w.claiming[caller].1).tables, w.claiming - {caller})
      else w
    case MarkReleased(commitment) => w.(tables := T.MarkReleased(c, w.tables, commitment).tables)
    case MarkAborted(commitment) => w.(tables := T.MarkAborted(c, w.tables, commitment).tables)
  }

  function RunFrom(c: Config, w: World, actions: seq<Action>): World {
    if actions == [] then w else Step(c, RunFrom(c, w, actions[..|actions| - 1]), actions[|actions| - 1])
  }

  function Run(c: Config, actions: seq<Action>): World {
    RunFrom(c, World(T.EMPTY, map[]), actions)
  }

  /** Events are pydantic values, so they are valid before they reach the ledger. */
  predicate ValidAction(c: Config, a: Action) {
    match a
    case Evaluate(event, _, _, _, _, _) => ValidEvent(c, event)
    case Append(event, _, _) => ValidEvent(c, event)
    case _ => true
  }

  predicate ValidActions(c: Config, actions: seq<Action>) {
    forall i | 0 <= i < |actions| :: ValidAction(c, actions[i])
  }

  // ---------------------------------------------------------------- the invariant

  /** Every row is sound and sequence numbers are 1, 2, 3, ... */
  predicate SoundRows(c: Config, rows: seq<T.Row>) {
    forall i | 0 <= i < |rows| :: T.RowIsSound(c, rows[i]) && rows[i].sequence == i + 1
  }

  predicate UniqueRows(rows: seq<T.Row>) {
    forall i, j | 0 <= i < j < |rows| ::
      rows[i].recordId != rows[j].recordId && rows[i].receiptId != rows[j].receiptId
  }

  /** The records of every scope form one chain, aborted ones included. */
  ghost predicate ChainedScopes(rows: seq<T.Row>) {
    forall h: string :: Linked(T.Payloads(T.RowsOfScope(rows, h)))
  }

  ghost predicate RecordsInv(c: Config, rows: seq<T.Row>) {
    SoundRows(c, rows) && UniqueRows(rows) && ChainedScopes(rows)
  }

  predicate LegalHistory(states: seq<T.ReleaseState>) {
    || states == []
    || states == [T.Pending]
    || states == [T.Pending, T.Released]
    || states == [T.Pending, T.Aborted]
  }

  /** A journalled record exists and carries composition metadata. */
  predicate JournalledRecord(rows: seq<T.Row>, id: string) {
    && T.FindRecordId(rows, id).Some?
    && T.FindRecordId(rows, id).value.payload.event.composition.Some?
  }

  /** At most one terminal state, after PENDING; a journalled release has a claim. */
  predicate JournalEntryInv(t: Tables, id: string) {
    && LegalHistory(T.StatesOf(t.journal, id))
    && (T.StatesOf(t.journal, id) != [] ==> JournalledRecord(t.records, id))
    && (T.StatesOf(t.journal, id) == [T.Pending, T.Released] ==> id in t.claims)
  }

  ghost predicate JournalInv(t: Tables) {
    forall id: string :: JournalEntryInv(t, id)
  }

  ghost predicate ClaimsInv(c: Config, t: Tables) {
    && (forall id | id in t.claims :: T.ClaimIsSound(c, t, id))
    && (forall id1, id2 | id1 in t.claims && id2 in t.claims && id1 != id2 ::
          t.claims[id1].authorizationId != t.claims[id2].authorizationId)
  }

  ghost predicate Inv(c: Config, t: Tables) {
    RecordsInv(c, t.records) && JournalInv(t) && ClaimsInv(c, t)
  }

  // ---------------------------------------------------------------- how the tables grow

  lemma ScopeAfterInsert(rows: seq<T.Row>, row: T.Row, h: string)
    ensures T.RowsOfScope(rows + [row], h) == T.RowsOfScope(rows, h) + if row.scopeSha256 == h then [row] else []
  {
    assert (rows + [row])[..|rows|] == rows;
  }

  lemma PayloadsOneMore(rows: seq<T.Row>, row: T.Row)
    ensures T.Payloads(rows + [row]) == T.Payloads(rows) + [row.payload]
  {
  }

  lemma StatesAfterInsert(journal: seq<T.Transition>, id: string, state: T.ReleaseState, other: string)
    ensures T.StatesOf(journal + [T.Transition(id, state)], other)
         == T.StatesOf(journal, other) + if id == other then [state] else []
  {
    assert (journal + [T.Transition(id, state)])[..|journal|] == journal;
  }

  lemma {:induction false} FindAfterInsert(rows: seq<T.Row>, row: T.Row, id: string)
    ensures T.FindRecordId(rows + [row], id)
         == if T.FindRecordId(rows, id).Some? then T.FindRecordId(rows, id)
            else if row.recordId == id then Some(row) else None
  {
    if rows != [] {
      assert (rows + [row])[1..] == rows[1..] + [row];
      FindAfterInsert(rows[1..], row, id);
    }
  }

  lemma {:induction false} FindExisting(rows: seq<T.Row>, i: nat)
    requires i < |rows|
    requires forall j, k | 0 <= j < k < |rows| :: rows[j].recordId != rows[k].recordId
    ensures T.FindRecordId(rows, rows[i].recordId) == Some(rows[i])
  {
    if i > 0 {
      FindExisting(rows[1..], i - 1);
    }
  }

  /** In a state that satisfies the invariant every valid scope reads back without an integrity error. */
  lemma ScopeReads(c: Config, rows: seq<T.Row>, scope: Scope)
    requires CollisionFree(c) && RecordsInv(c, rows) && ValidScope(c, scope)
    ensures T.RecordsForScope(c, rows, scope) == Ok(T.Payloads(T.RowsOfScope(rows, scope.scopeSha256)))
  {
    var selected := T.RowsOfScope(rows, scope.scopeSha256);
    var records := T.Payloads(selected);
    T.SelectedExactly(rows, scope.scopeSha256);
    forall i | 0 <= i < |selected|
      ensures T.RowIsSound(c, selected[i])
      ensures T.ContinuesChain(c, records, scope, i)
    {
      assert selected[i] in selected;
      assert Linked(records) && LinkedAt(records, i);
      ScopeHashIdentifiesScope(c, records[i].event.scope, scope);
    }
  }

  lemma InsertKeepsRows(
    c: Config, t: Tables, event: Event, history: seq<Record>, createdAt: int, recordId: string)
    requires SoundRows(c, t.records) && UniqueRows(t.records) && ValidEvent(c, event)
    requires T.AppendEvent(c, t, event, history, createdAt, recordId).Ok?
    ensures var rows := T.AppendEvent(c, t, event, history, createdAt, recordId).value.0.records;
            SoundRows(c, rows) && UniqueRows(rows)
  {
    NewRowIsSound(c, t.records, event, history, createdAt, recordId);
    hide T.RowIsSound;
    NewRowIsUnique(t.records, T.RowOf(T.NewRecord(c, t.records, event, history, createdAt, recordId)));
  }

  lemma NewRowIsUnique(rows: seq<T.Row>, row: T.Row)
    requires UniqueRows(rows)
    requires T.FindRecordId(rows, row.recordId).None? && T.FindReceipt(rows, row.receiptId).None?
    ensures UniqueRows(rows + [row])
  {
    forall i | 0 <= i < |rows|
      ensures rows[i].recordId != row.recordId && rows[i].receiptId != row.receiptId
    {
      assert rows[i] in rows;
    }
  }

  lemma NewRowIsSound(
    c: Config, rows: seq<T.Row>, event: Event, history: seq<Record>, createdAt: int, recordId: string)
    requires SoundRows(c, rows) && ValidEvent(c, event) && CompositionIsConsistent(event)
    ensures var row := T.RowOf(T.NewRecord(c, rows, event, history, createdAt, recordId));
            && T.RowIsSound(c, row) && row.sequence == |rows| + 1
            && row.recordId == recordId && row.receiptId == event.receiptId
  {
    hide ValidScope, IsProtected;
    var r := T.NewRecord(c, rows, event, history, createdAt, recordId);
    assert RecordPayloadOf(r.(contentSha256 := "")) == RecordPayloadOf(r);
  }

  /** Building on the audit history keeps every scope a chain. */
  lemma InsertKeepsChains(
    c: Config, rows: seq<T.Row>, event: Event, history: seq<Record>, createdAt: int, recordId: string)
    requires ChainedScopes(rows)
    requires history == T.Payloads(T.RowsOfScope(rows, event.scope.scopeSha256))
    ensures ChainedScopes(rows + [T.RowOf(T.NewRecord(c, rows, event, history, createdAt, recordId))])
  {
    var r := T.NewRecord(c, rows, event, history, createdAt, recordId);
    forall h: string
      ensures Linked(T.Payloads(T.RowsOfScope(rows + [T.RowOf(r)], h)))
    {
      assert Linked(T.Payloads(T.RowsOfScope(rows, h)));
      InsertKeepsChain(rows, r, h);
    }
  }

  lemma InsertKeepsChain(rows: seq<T.Row>, r: Record, h: string)
    requires Linked(T.Payloads(T.RowsOfScope(rows, h)))
    requires r.event.scope.scopeSha256 == h ==>
               var before := T.Payloads(T.RowsOfScope(rows, h));
               r.previousContentSha256 == HashBefore(before, |before|)
    ensures Linked(T.Payloads(T.RowsOfScope(rows + [T.RowOf(r)], h)))
  {
    var before := T.Payloads(T.RowsOfScope(rows, h));
    var after := T.Payloads(T.RowsOfScope(rows + [T.RowOf(r)], h));
    ScopeAfterInsert(rows, T.RowOf(r), h);
    assert after == before + if r.event.scope.scopeSha256 == h then [r] else [];
    forall i | 0 <= i < |after|
      ensures LinkedAt(after, i)
    {
      assert i < |before| ==> LinkedAt(before, i);
    }
  }

  lemma InsertKeepsRecords(
    c: Config, t: Tables, event: Event, history: seq<Record>, createdAt: int, recordId: string)
    requires RecordsInv(c, t.records) && ValidEvent(c, event)
    requires history == T.Payloads(T.RowsOfScope(t.records, event.scope.scopeSha256))
    requires T.AppendEvent(c, t, event, history, createdAt, recordId).Ok?
    ensures RecordsInv(c, T.AppendEvent(c, t, event, history, createdAt, recordId).value.0.records)
  {
    InsertKeepsRows(c, t, event, history, createdAt, recordId);
    InsertKeepsChains(c, t.records, event, history, createdAt, recordId);
  }

  lemma InsertKeepsClaims(c: Config, t: Tables, row: T.Row, journal: seq<T.Transition>)
    requires ClaimsInv(c, t)
    ensures ClaimsInv(c, T.Tables(t.records + [row], t.claims, journal))
  {
    forall id | id in t.claims
      ensures T.ClaimIsSound(c, T.Tables(t.records + [row], t.claims, journal), id)
    {
      assert T.ClaimIsSound(c, t, id);
      FindAfterInsert(t.records, row, id);
    }
  }

  lemma InsertKeepsJournal(t: Tables, row: T.Row)
    requires JournalInv(t)
    ensures JournalInv(t.(records := t.records + [row]))
  {
    forall id: string
      ensures JournalEntryInv(t.(records := t.records + [row]), id)
    {
      assert JournalEntryInv(t, id);
      FindAfterInsert(t.records, row, id);
    }
  }

  /** An admitted transition continues a legal history; this is what makes the error for an invalid
    * sequence unreachable.
    */
  lemma TransitionKeepsJournal(t: Tables, id: string, state: T.ReleaseState)
    requires JournalInv(t)
    requires T.InsertTransition(t, id, state).Ok?
    requires JournalledRecord(t.records, id)
    requires state == T.Released ==> id in t.claims
    ensures JournalInv(T.InsertTransition(t, id, state).value)
  {
    assert JournalEntryInv(t, id);
    forall other: string
      ensures JournalEntryInv(T.InsertTransition(t, id, state).value, other)
    {
      assert JournalEntryInv(t, other);
      TransitionKeepsEntry(t, id, state, other);
    }
  }

  lemma TransitionKeepsEntry(t: Tables, id: string, state: T.ReleaseState, other: string)
    requires JournalEntryInv(t, id) && JournalEntryInv(t, other)
    requires T.InsertTransition(t, id, state).Ok?
    requires JournalledRecord(t.records, id)
    requires state == T.Released ==> id in t.claims
    ensures JournalEntryInv(T.InsertTransition(t, id, state).value, other)
  {
    var before, after := T.StatesOf(t.journal, other), T.StatesOf(t.journal + [T.Transition(id, state)], other);
    StatesAfterInsert(t.journal, id, state, other);
    if id != other {
      assert after == before;
    } else {
      assert if before == [] then state == T.Pending && after == [T.Pending]
             else before == [T.Pending] && state != T.Pending && after == [T.Pending, state];
    }
  }

  // ---------------------------------------------------------------- every action keeps the invariant

  /** What `evaluate_and_commit` can write: nothing, or one record on the audit chain and its PENDING entry. */
  lemma EvaluateWrites(
    c: Config, t: Tables, event: Event, sql: string, dialect: string,
    evaluatedAt: int, createdAt: int, recordId: string)
    requires CollisionFree(c) && Inv(c, t) && ValidEvent(c, event)
    ensures var o := T.EvaluateAndCommit(c, t, event, sql, dialect, evaluatedAt, createdAt, recordId);
            && Inv(c, o.tables)
            && (o.tables != t ==>
                  var bound := BindEvent(c, event, sql, dialect);
                  && bound.Some?
                  && var audit := T.Payloads(T.RowsOfScope(t.records, event.scope.scopeSha256));
                  && var r := T.NewRecord(c, t.records, bound.value, audit, createdAt, recordId);
                  && T.FindReceipt(t.records, event.receiptId).None?
                  && T.FindRecordId(t.records, recordId).None?
                  && o.tables == T.Tables(t.records + [T.RowOf(r)], t.claims,
                                          t.journal + [T.Transition(recordId, T.Pending)])
                  && T.ActiveHistory(t.journal, audit).Ok?
                  && var e := EvaluationOf(
                                c, T.ActiveHistory(t.journal, audit).value, bound.value, evaluatedAt);
                  && e.Ok? && e.value.allowed
                  && o.result == Ok(T.Decision(true, e.value.rule, e.value.protectedRelease,
                                               e.value.priorProtectedCount, Some(T.CommitmentOf(r)))))
  {
    hide ValidRecord, IsProtected;
    var o := T.EvaluateAndCommit(c, t, event, sql, dialect, evaluatedAt, createdAt, recordId);
    if o.tables != t {
      var bound := BindEvent(c, event, sql, dialect).value;
      ScopeReads(c, t.records, bound.scope);
      var audit := T.Payloads(T.RowsOfScope(t.records, event.scope.scopeSha256));
      InsertKeepsRecords(c, t, bound, audit, createdAt, recordId);
      var row := T.RowOf(T.NewRecord(c, t.records, bound, audit, createdAt, recordId));
      InsertKeepsJournal(t, row);
      var t1 := t.(records := t.records + [row]);
      FindAfterInsert(t.records, row, recordId);
      TransitionKeepsJournal(t1, recordId, T.Pending);
      InsertKeepsClaims(c, t, row, o.tables.journal);
    }
  }

  lemma AppendWrites(c: Config, t: Tables, event: Event, createdAt: int, recordId: string)
    requires CollisionFree(c) && Inv(c, t) && ValidEvent(c, event)
    ensures var o := T.Append(c, t, event, createdAt, recordId);
            && Inv(c, o.tables)
            && (o.tables != t ==>
                  var audit := T.Payloads(T.RowsOfScope(t.records, event.scope.scopeSha256));
                  && T.FindRecordId(t.records, recordId).None?
                  && o.tables == t.(records := t.records
                       + [T.RowOf(T.NewRecord(c, t.records, event, audit, createdAt, recordId))]))
  {
    hide ValidRecord, IsProtected;
    var o := T.Append(c, t, event, createdAt, recordId);
    if o.tables != t {
      ScopeReads(c, t.records, event.scope);
      var audit := T.Payloads(T.RowsOfScope(t.records, event.scope.scopeSha256));
      InsertKeepsRecords(c, t, event, audit, createdAt, recordId);
      var row := T.RowOf(T.NewRecord(c, t.records, event, audit, createdAt, recordId));
      InsertKeepsJournal(t, row);
      InsertKeepsClaims(c, t, row, t.journal);
    }
  }

  lemma ClaimKeepsInv(c: Config, t: Tables, commitment: Commitment, authorizationId: string)
    requires Inv(c, t)
    ensures Inv(c, T.InsertClaim(c, t, commitment, authorizationId).tables)
  {
    hide RecordsInv, JournalInv, ClaimsInv;
    ClaimWrites(c, t, commitment, authorizationId);
    var t' := T.InsertClaim(c, t, commitment, authorizationId).tables;
    if t' != t {
      NewClaimKeepsClaims(c, t, t', commitment.recordId);
      MoreClaimsKeepJournal(t, t');
    }
  }

  /** A claim is written for a record of the ledger, on an authorization no claim uses. */
  lemma ClaimWrites(c: Config, t: Tables, commitment: Commitment, authorizationId: string)
    ensures var t' := T.InsertClaim(c, t, commitment, authorizationId).tables;
            var id := commitment.recordId;
            t' != t ==>
              && id !in t.claims && id in t'.claims && t' == t.(claims := t.claims[id := t'.claims[id]])
              && (forall other | other in t.claims :: t.claims[other].authorizationId != t'.claims[id].authorizationId)
              && T.ClaimIsSound(c, t', id)
  {
    hide T.RowIsSound;
  }

  lemma NewClaimKeepsClaims(c: Config, t: Tables, t': Tables, id: string)
    requires ClaimsInv(c, t) && id in t'.claims && t' == t.(claims := t.claims[id := t'.claims[id]])
    requires forall other | other in t.claims :: t.claims[other].authorizationId != t'.claims[id].authorizationId
    requires T.ClaimIsSound(c, t', id)
    ensures ClaimsInv(c, t')
  {
    hide T.RowIsSound;
    forall other | other in t'.claims ensures T.ClaimIsSound(c, t', other) {
      assert other != id ==> T.ClaimIsSound(c, t, other);
    }
  }

  lemma MoreClaimsKeepJournal(t: Tables, t': Tables)
    requires JournalInv(t) && t'.records == t.records && t'.journal == t.journal
    requires forall id | id in t.claims :: id in t'.claims
    ensures JournalInv(t')
  {
    forall id: string ensures JournalEntryInv(t', id) {
      assert JournalEntryInv(t, id);
    }
  }

  lemma ReleaseKeepsInv(c: Config, t: Tables, commitment: Commitment)
    requires Inv(c, t)
    ensures Inv(c, T.MarkReleased(c, t, commitment).tables)
  {
    hide T.RowIsSound;
    if T.MarkReleased(c, t, commitment).tables != t {
      assert JournalEntryInv(t, commitment.recordId);
      TransitionKeepsJournal(t, commitment.recordId, T.Released);
      ClaimsIgnoreJournal(c, t, T.MarkReleased(c, t, commitment).tables);
    }
  }

  lemma AbortKeepsInv(c: Config, t: Tables, commitment: Commitment)
    requires Inv(c, t)
    ensures Inv(c, T.MarkAborted(c, t, commitment).tables)
  {
    hide T.RowIsSound;
    if T.MarkAborted(c, t, commitment).tables != t {
      assert JournalEntryInv(t, commitment.recordId);
      TransitionKeepsJournal(t, commitment.recordId, T.Aborted);
      ClaimsIgnoreJournal(c, t, T.MarkAborted(c, t, commitment).tables);
    }
  }

  lemma ClaimsIgnoreJournal(c: Config, t: Tables, t': Tables)
    requires ClaimsInv(c, t) && t'.records == t.records && t'.claims == t.claims
    ensures ClaimsInv(c, t')
  {
    forall id | id in t'.claims
      ensures T.ClaimIsSound(c, t', id)
    {
      assert T.ClaimIsSound(c, t, id);
    }
  }

  lemma StepKeepsInv(c: Config, w: World, a: Action)
    requires CollisionFree(c) && Inv(c, w.tables) && ValidAction(c, a)
    ensures Inv(c, Step(c, w, a).tables)
  {
    match a
    case Evaluate(event, sql, dialect, evaluatedAt, createdAt, recordId) =>
      EvaluateWrites(c, w.tables, event, sql, dialect, evaluatedAt, createdAt, recordId);
    case Append(event, createdAt, recordId) => AppendWrites(c, w.tables, event, createdAt, recordId);
    case CheckClaim(_, _, _) =>
    case InsertClaim(caller) =>
      if caller in w.claiming {
        ClaimKeepsInv(c, w.tables, w.claiming[caller].0, w.claiming[caller].1);
      }
    case MarkReleased(commitment) => ReleaseKeepsInv(c, w.tables, commitment);
    case MarkAborted(commitment) => AbortKeepsInv(c, w.tables, commitment);
  }

  lemma {:induction false} RunFromKeepsInv(c: Config, w: World, actions: seq<Action>)
    requires CollisionFree(c) && Inv(c, w.tables) && ValidActions(c, actions)
    ensures Inv(c, RunFrom(c, w, actions).tables)
  {
    if actions != [] {
      RunFromKeepsInv(c, w, actions[..|actions| - 1]);
      StepKeepsInv(c, RunFrom(c, w, actions[..|actions| - 1]), actions[|actions| - 1]);
    }
  }

  lemma RunKeepsInv(c: Config, actions: seq<Action>)
    requires CollisionFree(c) && ValidActions(c, actions)
    ensures Inv(c, Run(c, actions).tables)
  {
    RunFromKeepsInv(c, World(T.EMPTY, map[]), actions);
  }

  // ---------------------------------------------------------------- nothing is ever rewritten

  /** Later tables extend earlier ones: rows and transitions by appending, claims by adding keys. */
  predicate Extends(t: Tables, t': Tables) {
    && t.records <= t'.records
    && t.journal <= t'.journal
    && (forall id | id in t.claims :: id in t'.claims && t'.claims[id] == t.claims[id])
  }

  lemma StepExtends(c: Config, w: World, a: Action)
    ensures Extends(w.tables, Step(c, w, a).tables)
  {
    hide T.RowIsSound, T.EvaluateAndCommit, T.RecordsForScope;
    match a
    case Evaluate(event, sql, dialect, evaluatedAt, createdAt, recordId) =>
      EvaluateExtends(c, w.tables, event, sql, dialect, evaluatedAt, createdAt, recordId);
    case Append(_, _, _) =>
    case CheckClaim(_, _, _) =>
    case InsertClaim(_) =>
    case MarkReleased(_) =>
    case MarkAborted(_) =>
  }

  lemma EvaluateExtends(
    c: Config, t: Tables, event: Event, sql: string, dialect: string,
    evaluatedAt: int, createdAt: int, recordId: string)
    ensures Extends(t, T.EvaluateAndCommit(c, t, event, sql, dialect, evaluatedAt, createdAt, recordId).tables)
  {
    var bound := BindEvent(c, event, sql, dialect);
    if bound.Some? && T.RecordsForScope(c, t.records, bound.value.scope).Ok? {
      var audit := T.RecordsForScope(c, t.records, bound.value.scope).value;
      if T.ActiveHistory(t.journal, audit).Ok? {
        ReleaseExtends(
          c, t, bound.value, audit, T.ActiveHistory(t.journal, audit).value, evaluatedAt, createdAt, recordId);
      }
    }
  }

  lemma ReleaseExtends(
    c: Config, t: Tables, bound: Event, audit: seq<Record>, active: seq<Record>,
    evaluatedAt: int, createdAt: int, recordId: string)
    ensures Extends(t, T.Release(c, t, bound, audit, active, evaluatedAt, createdAt, recordId).tables)
  {
  }

  lemma {:induction false} RunExtends(c: Config, w: World, actions: seq<Action>)
    ensures Extends(w.tables, RunFrom(c, w, actions).tables)
  {
    if actions != [] {
      RunExtends(c, w, actions[..|actions| - 1]);
      StepExtends(c, RunFrom(c, w, actions[..|actions| - 1]), actions[|actions| - 1]);
    }
  }

  lemma {:induction false} StatesExtend(journal: seq<T.Transition>, later: seq<T.Transition>, id: string)
    requires journal <= later
    ensures T.StatesOf(journal, id) <= T.StatesOf(later, id)
  {
    if |journal| < |later| {
      StatesExtend(journal, later[..|later| - 1], id);
    } else {
      assert journal == later;
    }
  }
}
