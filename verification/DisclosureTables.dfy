/** The three ledger tables as values, and every transaction on them as a function from tables to
  * tables. The class in DisclosureLedger.dfy runs the same transactions in place.
  *
  * `records` is kept in primary-key order and `journal` in `transition_id` order; the UNIQUE
  * constraints, the foreign key and the insert trigger are checked where rows are inserted.
  */
module DisclosureTables {
  import opened Foundations
  import opened DisclosureModels
  import opened DisclosureComposition

  datatype LedgerError = Conflict | CommitmentReplay | Integrity | CompositionRefused | InvalidAuthorizationId

  /** One row of `disclosure_records`: the index columns and the JSON payload. */
  datatype Row = Row(
    sequence: int,
    recordId: string,
    scopeSha256: string,
    receiptId: string,
    eventSha256: string,
    previousContentSha256: Option<string>,
    contentSha256: string,
    payload: Record)

  datatype ReleaseState = Pending | Released | Aborted

  datatype Transition = Transition(recordId: string, state: ReleaseState)

  datatype Claim = Claim(authorizationId: string, receiptId: string, contentSha256: string)

  datatype Tables = Tables(records: seq<Row>, claims: map<string, Claim>, journal: seq<Transition>)

  datatype Decision = Decision(
    allowed: bool, rule: Rule, protectedRelease: bool, priorProtectedCount: nat, commitment: Option<Commitment>)

  const EMPTY := Tables([], map[], [])

  // ---------------------------------------------------------------- rows

  predicate IndexMatches(row: Row) {
    && row.sequence == row.payload.sequence
    && row.recordId == row.payload.recordId
    && row.scopeSha256 == row.payload.event.scope.scopeSha256
    && row.receiptId == row.payload.event.receiptId
    && row.eventSha256 == row.payload.eventSha256
    && row.previousContentSha256 == row.payload.previousContentSha256
    && row.contentSha256 == row.payload.contentSha256
  }

  /** `_row_to_record` succeeds: the payload validates and the index columns agree with it. */
  predicate RowIsSound(c: Config, row: Row) {
    && ValidRecord(c, row.payload)
    && CompositionIsConsistent(row.payload.event)
    && IndexMatches(row)
  }

  function RowToRecord(c: Config, row: Row): Result<Record, LedgerError> {
    if RowIsSound(c, row) then Ok(row.payload) else Err(Integrity)
  }

  function RowOf(r: Record): Row {
    Row(r.sequence, r.recordId, r.event.scope.scopeSha256, r.event.receiptId, r.eventSha256,
        r.previousContentSha256, r.contentSha256, r)
  }

  /** `SELECT ... WHERE scope_sha256 = ? ORDER BY sequence` */
  function RowsOfScope(rows: seq<Row>, scopeSha256: string): (selected: seq<Row>) {
    if rows == [] then []
    else
      var last := rows[|rows| - 1];
      RowsOfScope(rows[..|rows| - 1], scopeSha256) + if last.scopeSha256 == scopeSha256 then [last] else []
  }

  lemma {:induction false} SelectedExactly(rows: seq<Row>, scopeSha256: string)
    ensures forall row :: row in RowsOfScope(rows, scopeSha256) <==> row in rows && row.scopeSha256 == scopeSha256
  {
    if rows != [] {
      SelectedExactly(rows[..|rows| - 1], scopeSha256);
      assert rows == rows[..|rows| - 1] + [rows[|rows| - 1]];
    }
  }

  function Payloads(rows: seq<Row>): (records: seq<Record>)
    ensures |records| == |rows|
    ensures forall i | 0 <= i < |rows| :: records[i] == rows[i].payload
  {
    seq(|rows|, i requires 0 <= i < |rows| => rows[i].payload)
  }

  /** `_records_for_scope_connection`: the validated audit history of one privacy scope. */
  function RecordsForScope(c: Config, rows: seq<Row>, scope: Scope): Result<seq<Record>, LedgerError> {
    var selected := RowsOfScope(rows, scope.scopeSha256);
    var records := Payloads(selected);
    if RowsAreSound(c, selected) && IsChainOf(c, records, scope) then Ok(records) else Err(Integrity)
  }

  predicate RowsAreSound(c: Config, rows: seq<Row>) {
    forall i | 0 <= i < |rows| :: RowIsSound(c, rows[i])
  }

  /** The check of the loop over the validated records. */
  predicate IsChainOf(c: Config, records: seq<Record>, scope: Scope) {
    forall i | 0 <= i < |records| :: ContinuesChain(c, records, scope, i)
  }

  predicate ContinuesChain(c: Config, records: seq<Record>, scope: Scope, i: nat)
    requires i < |records|
  {
    SamePrivacyScope(c, records[i].event.scope, scope) && LinkedAt(records, i)
  }

  /** `SELECT ... WHERE record_id = ?` on a unique column. */
  function FindRecordId(rows: seq<Row>, recordId: string): (found: Option<Row>)
    ensures found.Some? ==> found.value in rows && found.value.recordId == recordId
    ensures found.None? ==> forall row | row in rows :: row.recordId != recordId
  {
    if rows == [] then None
    else if rows[0].recordId == recordId then Some(rows[0])
    else FindRecordId(rows[1..], recordId)
  }

  /** `SELECT ... WHERE receipt_id = ?` on a unique column. */
  function FindReceipt(rows: seq<Row>, receiptId: string): (found: Option<Row>)
    ensures found.Some? ==> found.value in rows && found.value.receiptId == receiptId
    ensures found.None? ==> forall row | row in rows :: row.receiptId != receiptId
  {
    if rows == [] then None
    else if rows[0].receiptId == receiptId then Some(rows[0])
    else FindReceipt(rows[1..], receiptId)
  }

  function CommitmentOf(r: Record): Commitment {
    Commitment(r.recordId, r.event.receiptId, r.event.scope.scopeSha256, r.eventSha256, r.contentSha256)
  }

  /** `_record_for_commitment_connection` */
  function RecordForCommitment(c: Config, rows: seq<Row>, commitment: Commitment): Result<Record, LedgerError> {
    match FindRecordId(rows, commitment.recordId)
    case None => Err(Integrity)
    case Some(row) =>
      if RowIsSound(c, row) && CommitmentOf(row.payload) == commitment then Ok(row.payload) else Err(Integrity)
  }

  // ---------------------------------------------------------------- release journal

  function StatesOf(journal: seq<Transition>, recordId: string): (states: seq<ReleaseState>) {
    if journal == [] then []
    else
      var last := journal[|journal| - 1];
      StatesOf(journal[..|journal| - 1], recordId) + if last.recordId == recordId then [last.state] else []
  }

  /** `_release_state_connection`; no transition at all means a record older than the journal. */
  function StateOf(journal: seq<Transition>, recordId: string): Result<ReleaseState, LedgerError> {
    var states := StatesOf(journal, recordId);
    if states == [] then Ok(Released)
    else if states == [Pending] then Ok(Pending)
    else if states == [Pending, Released] then Ok(Released)
    else if states == [Pending, Aborted] then Ok(Aborted)
    else Err(Integrity)
  }

  /** The foreign key and the insert trigger of `disclosure_release_transitions`. */
  predicate TransitionAdmitted(t: Tables, recordId: string, state: ReleaseState) {
    var states := StatesOf(t.journal, recordId);
    && FindRecordId(t.records, recordId).Some?
    && (state == Pending ==> states == [])
    && (state != Pending ==> Pending in states && Released !in states && Aborted !in states)
  }

  function InsertTransition(t: Tables, recordId: string, state: ReleaseState): Result<Tables, LedgerError> {
    if TransitionAdmitted(t, recordId, state)
    then Ok(t.(journal := t.journal + [Transition(recordId, state)]))
    else Err(Integrity)
  }

  /** `_active_history_connection`: the audit history without aborted records. */
  function ActiveHistory(journal: seq<Transition>, audit: seq<Record>): Result<seq<Record>, LedgerError> {
    if audit == [] then Ok([])
    else
      match ActiveHistory(journal, audit[..|audit| - 1])
      case Err(e) => Err(e)
      case Ok(active) =>
        var last := audit[|audit| - 1];
        match StateOf(journal, last.recordId)
        case Err(e) => Err(e)
        case Ok(state) => Ok(active + if state != Aborted then [last] else [])
  }

  // ---------------------------------------------------------------- transactions

  function NextSequence(rows: seq<Row>): int {
    if rows == [] then 1 else rows[|rows| - 1].sequence + 1
  }

  /** The record `_append_event_connection` builds on top of `history`. */
  function NewRecord(
    c: Config, rows: seq<Row>, event: Event, history: seq<Record>, createdAt: int, recordId: string): Record
  {
    var provisional := Record(
      if event.composition.Some? then "1.1" else "1.0",
      recordId, NextSequence(rows), createdAt, event, EventSha256(c, event),
      HashBefore(history, |history|), "");
    provisional.(contentSha256 := RecordSha256(c, provisional))
  }

  /** The insert fails when the random identifier is already taken (receipts were looked up before). */
  function AppendEvent(
    c: Config, t: Tables, event: Event, history: seq<Record>, createdAt: int, recordId: string)
    : Result<(Tables, Record), LedgerError>
  {
    if !CompositionIsConsistent(event) then Err(CompositionRefused)
    else if FindRecordId(t.records, recordId).Some? || FindReceipt(t.records, event.receiptId).Some? then Err(Conflict)
    else
      var r := NewRecord(c, t.records, event, history, createdAt, recordId);
      Ok((t.(records := t.records + [RowOf(r)]), r))
  }

  function ProtectedCount(records: seq<Record>): nat {
    if records == [] then 0
    else
      ProtectedCount(records[..|records| - 1])
      + if IsProtected(records[|records| - 1].event.semantic) then 1 else 0
  }

  /** A transaction returns the tables it leaves behind; an error leaves the tables as they were. */
  datatype Outcome<T> = Outcome(tables: Tables, result: Result<T, LedgerError>)

  /** `evaluate_and_commit` after the event is bound: one BEGIN IMMEDIATE block. */
  function EvaluateAndCommit(
    c: Config, t: Tables, event: Event, sql: string, dialect: string,
    evaluatedAt: int, createdAt: int, recordId: string): Outcome<Decision>
  {
    match BindEvent(c, event, sql, dialect)
    case None => Outcome(t, Err(CompositionRefused))
    case Some(bound) =>
      match RecordsForScope(c, t.records, bound.scope)
      case Err(e) => Outcome(t, Err(e))
      case Ok(audit) =>
        match ActiveHistory(t.journal, audit)
        case Err(e) => Outcome(t, Err(e))
        case Ok(active) =>
          match FindReceipt(t.records, bound.receiptId)
          case Some(row) => Outcome(t, Replay(c, t, row, bound, audit, active))
          case None => Release(c, t, bound, audit, active, evaluatedAt, createdAt, recordId)
  }

  /** The branch for a receipt that is already on record: nothing is written. */
  function Replay(c: Config, t: Tables, row: Row, bound: Event, audit: seq<Record>, active: seq<Record>)
    : Result<Decision, LedgerError>
  {
    if !RowIsSound(c, row) then Err(Integrity)
    else if row.payload.event != bound then Err(Conflict)
    else if row.payload !in audit then Err(Integrity)
    else
      match StateOf(t.journal, row.payload.recordId)
      case Err(e) => Err(e)
      case Ok(state) =>
        if state == Aborted then Err(Conflict)
        else
          Ok(Decision(true, IdempotentReplay, IsProtected(bound.semantic), ProtectedCount(active),
                      Some(CommitmentOf(row.payload))))
  }

  /** The branch for a new receipt: evaluate the active history, append to the audit history. */
  function Release(
    c: Config, t: Tables, bound: Event, audit: seq<Record>, active: seq<Record>,
    evaluatedAt: int, createdAt: int, recordId: string): Outcome<Decision>
  {
    match EvaluationOf(c, active, bound, evaluatedAt)
    case Err(_) => Outcome(t, Err(Integrity))
    case Ok(e) =>
      if !e.allowed then Outcome(t, Ok(Decision(false, e.rule, e.protectedRelease, e.priorProtectedCount, None)))
      else
        match AppendEvent(c, t, bound, audit, createdAt, recordId)
        case Err(_) => Outcome(t, Err(Integrity))
        case Ok((t1, r)) =>
          match InsertTransition(t1, r.recordId, Pending)
          case Err(_) => Outcome(t, Err(Integrity))
          case Ok(t2) =>
            Outcome(t2, Ok(Decision(true, e.rule, e.protectedRelease, e.priorProtectedCount, Some(CommitmentOf(r)))))
  }

  /** `append`: the foundation path without a budget and without a journal entry. */
  function Append(c: Config, t: Tables, event: Event, createdAt: int, recordId: string): Outcome<Record> {
    match RecordsForScope(c, t.records, event.scope)
    case Err(e) => Outcome(t, Err(e))
    case Ok(history) =>
      match FindReceipt(t.records, event.receiptId)
      case Some(row) =>
        Outcome(t, if !RowIsSound(c, row) then Err(Integrity)
                   else if row.payload.event != event then Err(Conflict) else Ok(row.payload))
      case None =>
        match AppendEvent(c, t, event, history, createdAt, recordId)
        case Err(e) => Outcome(t, Err(e))
        case Ok((t1, r)) => Outcome(t1, Ok(r))
  }

  /** `_require_pending`, the first transaction of `claim_commitment`. */
  function RequirePending(c: Config, t: Tables, commitment: Commitment): Result<(), LedgerError> {
    match RecordForCommitment(c, t.records, commitment)
    case Err(e) => Err(e)
    case Ok(_) =>
      match StateOf(t.journal, commitment.recordId)
      case Err(e) => Err(e)
      case Ok(state) => if state == Pending then Ok(()) else Err(Integrity)
  }

  /** The second transaction of `claim_commitment`: insert the claim, whatever the state is by now. */
  function InsertClaim(c: Config, t: Tables, commitment: Commitment, authorizationId: string): Outcome<()> {
    if !IsAuthorizationId(authorizationId) then Outcome(t, Err(InvalidAuthorizationId))
    else
      match RecordForCommitment(c, t.records, commitment)
      case Err(e) => Outcome(t, Err(e))
      case Ok(r) =>
        if commitment.recordId in t.claims || (exists id <- t.claims :: t.claims[id].authorizationId == authorizationId)
        then Outcome(t, Err(CommitmentReplay))
        else
          var claim := Claim(authorizationId, r.event.receiptId, r.contentSha256);
          Outcome(t.(claims := t.claims[r.recordId := claim]), Ok(()))
  }

  /** The records of a history with this receipt. */
  function WithReceipt(history: seq<Record>, receiptId: string): seq<Record> {
    if history == [] then []
    else
      var last := history[|history| - 1];
      WithReceipt(history[..|history| - 1], receiptId) + if last.event.receiptId == receiptId then [last] else []
  }

  /** The first transaction of `verify_commitment`; `_require_pending` is the second. */
  function MatchCommitment(c: Config, t: Tables, commitment: Commitment, event: Event, sql: string, dialect: string)
    : Result<Record, LedgerError>
  {
    match BindEvent(c, event, sql, dialect)
    case None => Err(CompositionRefused)
    case Some(bound) =>
      match RecordsForScope(c, t.records, bound.scope)
      case Err(e) => Err(e)
      case Ok(history) =>
        var matches := WithReceipt(history, commitment.receiptId);
        if |matches| != 1 || matches[0].event != bound || CommitmentOf(matches[0]) != commitment then Err(Integrity)
        else Ok(matches[0])
  }

  /** The second transaction of `verify_authorization_claim`; `_require_pending` is the first. */
  function MatchClaim(c: Config, t: Tables, commitment: Commitment, authorizationId: string): Result<(), LedgerError> {
    if !IsAuthorizationId(authorizationId) then Err(Integrity)
    else
      match RecordForCommitment(c, t.records, commitment)
      case Err(e) => Err(e)
      case Ok(r) =>
        if commitment.recordId !in t.claims then Err(Integrity)
        else
          var claim := t.claims[commitment.recordId];
          if || claim.authorizationId != authorizationId || claim.receiptId != commitment.receiptId
             || claim.contentSha256 != commitment.contentSha256 || r.contentSha256 != commitment.contentSha256
          then Err(Integrity) else Ok(())
  }

  /** `mark_released` */
  function MarkReleased(c: Config, t: Tables, commitment: Commitment): Outcome<()> {
    match RecordForCommitment(c, t.records, commitment)
    case Err(e) => Outcome(t, Err(e))
    case Ok(_) =>
      match StateOf(t.journal, commitment.recordId)
      case Err(e) => Outcome(t, Err(e))
      case Ok(state) =>
        if state == Released then Outcome(t, Ok(()))
        else if state != Pending || commitment.recordId !in t.claims then Outcome(t, Err(Integrity))
        else Finish(t, commitment.recordId, Released)
  }

  /** `mark_aborted` */
  function MarkAborted(c: Config, t: Tables, commitment: Commitment): Outcome<()> {
    match RecordForCommitment(c, t.records, commitment)
    case Err(e) => Outcome(t, Err(e))
    case Ok(_) =>
      match StateOf(t.journal, commitment.recordId)
      case Err(e) => Outcome(t, Err(e))
      case Ok(state) =>
        if state == Aborted then Outcome(t, Ok(()))
        else if state != Pending then Outcome(t, Err(Integrity))
        else Finish(t, commitment.recordId, Aborted)
  }

  function Finish(t: Tables, recordId: string, state: ReleaseState): Outcome<()> {
    match InsertTransition(t, recordId, state)
    case Err(e) => Outcome(t, Err(e))
    case Ok(t1) => Outcome(t1, Ok(()))
  }

  // ---------------------------------------------------------------- verification

  /** `SELECT DISTINCT scope_sha256` */
  function DistinctScopes(rows: seq<Row>): (hashes: seq<string>) {
    if rows == [] then []
    else
      var rest, last := DistinctScopes(rows[..|rows| - 1]), rows[|rows| - 1];
      if last.scopeSha256 in rest then rest else rest + [last.scopeSha256]
  }

  /** One round of the loop of the base `verify_all`: read the scope of the first row, list that scope. */
  function CountScope(c: Config, rows: seq<Row>, hash: string): Result<nat, LedgerError> {
    var selected := RowsOfScope(rows, hash);
    if selected == [] then Ok(0)
    else
      match RowToRecord(c, selected[0])
      case Err(e) => Err(e)
      case Ok(first) =>
        match RecordsForScope(c, rows, first.event.scope)
        case Err(e) => Err(e)
        case Ok(records) => Ok(|records|)
  }

  function ScopeCounter(c: Config, rows: seq<Row>): string -> Result<nat, LedgerError> {
    hash => CountScope(c, rows, hash)
  }

  /** The loop over the distinct scopes: add the counts up, or stop at the first error. */
  function Total(hashes: seq<string>, count: string -> Result<nat, LedgerError>): Result<nat, LedgerError> {
    if hashes == [] then Ok(0)
    else
      match Total(hashes[..|hashes| - 1], count)
      case Err(e) => Err(e)
      case Ok(sum) =>
        match count(hashes[|hashes| - 1])
        case Err(e) => Err(e)
        case Ok(n) => Ok(sum + n)
  }

  lemma TotalOfLonger(hashes: seq<string>, n: nat, count: string -> Result<nat, LedgerError>, sum: nat)
    requires n < |hashes| && Total(hashes[..n], count) == Ok(sum)
    ensures Total(hashes[..n + 1], count)
         == if count(hashes[n]).Ok? then Ok(sum + count(hashes[n]).value) else count(hashes[n])
  {
    assert hashes[..n + 1][..n] == hashes[..n];
  }

  lemma {:induction false} FirstErrorIsFinal(hashes: seq<string>, n: nat, count: string -> Result<nat, LedgerError>)
    requires n <= |hashes| && Total(hashes[..n], count).Err?
    ensures Total(hashes, count) == Total(hashes[..n], count)
    decreases |hashes| - n
  {
    if n == |hashes| {
      assert hashes[..n] == hashes;
    } else {
      assert hashes[..n + 1][..n] == hashes[..n];
      FirstErrorIsFinal(hashes, n + 1, count);
    }
  }

  /** One claim against its record, as `_verify_all_claims` compares them. */
  predicate ClaimIsSound(c: Config, t: Tables, recordId: string)
    requires recordId in t.claims
  {
    match FindRecordId(t.records, recordId)
    case None => false
    case Some(row) =>
      && RowIsSound(c, row)
      && IsAuthorizationId(t.claims[recordId].authorizationId)
      && t.claims[recordId].receiptId == row.payload.event.receiptId
      && t.claims[recordId].contentSha256 == row.payload.contentSha256
  }

  /** A journalled release has an authorization claim; a legacy release may have none. */
  predicate ReleaseIsClaimed(t: Tables, recordId: string) {
    && StateOf(t.journal, recordId).Ok?
    && (StateOf(t.journal, recordId).value == Released && StatesOf(t.journal, recordId) != [] ==>
          recordId in t.claims)
  }

  /** `verify_all` of the two-phase ledger. */
  function VerifyAll(c: Config, t: Tables): Result<nat, LedgerError> {
    match Total(DistinctScopes(t.records), ScopeCounter(c, t.records))
    case Err(e) => Err(e)
    case Ok(count) =>
      if AllClaimsSound(c, t) && AllReleasesClaimed(t) then Ok(count) else Err(Integrity)
  }

  predicate AllClaimsSound(c: Config, t: Tables) {
    forall id <- t.claims :: ClaimIsSound(c, t, id)
  }

  predicate AllReleasesClaimed(t: Tables) {
    forall i | 0 <= i < |t.records| :: ReleaseIsClaimed(t, t.records[i].recordId)
  }
}
