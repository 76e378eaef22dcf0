/** The two-phase ledger as the object the service holds: its tables are fields that the transactions
  * update, roll back and read. Every method is proved to do what the function of the same name in
  * DisclosureTables does; what those functions guarantee is proved in DisclosureTheorems, DisclosureGate,
  * DisclosureLifecycle, DisclosureAudit and DisclosureTamper. Clock readings and random record
  * identifiers are parameters.
  */
module DisclosureLedger {
  import opened Foundations
  import opened DisclosureModels
  import opened DisclosureComposition
  import T = DisclosureTables

  class Ledger {
    const config: Config
    var records: seq<T.Row>
    var claims: map<string, T.Claim>
    var journal: seq<T.Transition>

    function Tables(): T.Tables
      reads this
    {
      T.Tables(records, claims, journal)
    }

    constructor (config: Config)
      ensures this.config == config && Tables() == T.EMPTY
    {
      this.config := config;
      records, claims, journal := [], map[], [];
    }

    /** Parse and validate every selected row. */
    method ReadRows(rows: seq<T.Row>) returns (result: Result<seq<Record>, T.LedgerError>)
      ensures result == if T.RowsAreSound(config, rows) then Ok(T.Payloads(rows)) else Err(T.Integrity)
    {
      var history: seq<Record> := [];
      for i := 0 to |rows|
        invariant history == T.Payloads(rows)[..i]
        invariant forall k | 0 <= k < i :: T.RowIsSound(config, rows[k])
      {
        if !T.RowIsSound(config, rows[i]) {
          return Err(T.Integrity);
        }
        history := history + [rows[i].payload];
      }
      assert history == T.Payloads(rows);
      return Ok(history);
    }

    /** The records are of this privacy scope and each names the content hash of the one before. */
    method CheckChain(history: seq<Record>, scope: Scope) returns (chained: bool)
      ensures chained == T.IsChainOf(config, history, scope)
    {
      var previous: Option<string> := None;
      for i := 0 to |history|
        invariant previous == HashBefore(history, i)
        invariant forall k | 0 <= k < i :: T.ContinuesChain(config, history, scope, k)
      {
        if !SamePrivacyScope(config, history[i].event.scope, scope) {
          assert !T.ContinuesChain(config, history, scope, i);
          return false;
        }
        if history[i].previousContentSha256 != previous {
          assert !T.ContinuesChain(config, history, scope, i);
          return false;
        }
        previous := Some(history[i].contentSha256);
      }
      return true;
    }

    /** Validate and chain-check the history of one scope, oldest record first. */
    method RecordsForScope(scope: Scope) returns (result: Result<seq<Record>, T.LedgerError>)
      ensures result == T.RecordsForScope(config, records, scope)
    {
      result := ReadRows(T.RowsOfScope(records, scope.scopeSha256));
      if result.Ok? {
        var chained := CheckChain(result.value, scope);
        if !chained {
          return Err(T.Integrity);
        }
      }
    }

    /** Drop the aborted records of an audit history. */
    method ActiveHistory(audit: seq<Record>) returns (result: Result<seq<Record>, T.LedgerError>)
      ensures result == T.ActiveHistory(journal, audit)
    {
      var active: seq<Record> := [];
      for i := 0 to |audit|
        invariant T.ActiveHistory(journal, audit[..i]) == Ok(active)
      {
        assert audit[..i + 1][..i] == audit[..i];
        var state := T.StateOf(journal, audit[i].recordId);
        if state.Err? {
          FailureIsFinal(audit, i + 1);
          return Err(state.error);
        }
        assert active + [] == active;
        if state.value != T.Aborted {
          active := active + [audit[i]];
        }
      }
      assert audit[..|audit|] == audit;
      return Ok(active);
    }

    lemma {:induction false} FailureIsFinal(audit: seq<Record>, n: nat)
      requires n <= |audit| && T.ActiveHistory(journal, audit[..n]).Err?
      ensures T.ActiveHistory(journal, audit) == T.ActiveHistory(journal, audit[..n])
      decreases |audit| - n
    {
      if n == |audit| {
        assert audit[..n] == audit;
      } else {
        assert audit[..n + 1][..n] == audit[..n];
        FailureIsFinal(audit, n + 1);
      }
    }

    method AppendEvent(event: Event, history: seq<Record>, createdAt: int, recordId: string)
      returns (result: Result<Record, T.LedgerError>)
      modifies this`records
      ensures match T.AppendEvent(config, old(Tables()), event, history, createdAt, recordId)
              case Err(e) => result == Err(e) && records == old(records)
              case Ok((t, r)) => result == Ok(r) && Tables() == t
    {
      if !CompositionIsConsistent(event) {
        return Err(T.CompositionRefused);
      }
      if T.FindRecordId(records, recordId).Some? || T.FindReceipt(records, event.receiptId).Some? {
        return Err(T.Conflict);
      }
      var r := T.NewRecord(config, records, event, history, createdAt, recordId);
      records := records + [T.RowOf(r)];
      return Ok(r);
    }

    method InsertTransition(recordId: string, state: T.ReleaseState) returns (error: Option<T.LedgerError>)
      modifies this`journal
      ensures match T.InsertTransition(old(Tables()), recordId, state)
              case Err(e) => error == Some(e) && journal == old(journal)
              case Ok(t) => error == None && Tables() == t
    {
      if !T.TransitionAdmitted(Tables(), recordId, state) {
        return Some(T.Integrity);
      }
      journal := journal + [T.Transition(recordId, state)];
      return None;
    }

    /** One BEGIN IMMEDIATE block; an error or a refusal rolls back to the tables it started from. */
    method EvaluateAndCommit(
      event: Event, sql: string, dialect: string, evaluatedAt: int, createdAt: int, recordId: string)
      returns (result: Result<T.Decision, T.LedgerError>)
      modifies this`records, this`journal
      ensures T.Outcome(Tables(), result)
           == T.EvaluateAndCommit(config, old(Tables()), event, sql, dialect, evaluatedAt, createdAt, recordId)
    {
      var bound := BindEvent(config, event, sql, dialect);
      if bound.None? {
        return Err(T.CompositionRefused);
      }
      var audit := RecordsForScope(bound.value.scope);
      if audit.Err? {
        return Err(audit.error);
      }
      var active := ActiveHistory(audit.value);
      if active.Err? {
        return Err(active.error);
      }
      var existing := T.FindReceipt(records, bound.value.receiptId);
      if existing.Some? {
        return T.Replay(config, Tables(), existing.value, bound.value, audit.value, active.value);
      }
      result := Release(bound.value, audit.value, active.value, evaluatedAt, createdAt, recordId);
    }

    method Release(
      bound: Event, audit: seq<Record>, active: seq<Record>, evaluatedAt: int, createdAt: int, recordId: string)
      returns (result: Result<T.Decision, T.LedgerError>)
      modifies this`records, this`journal
      ensures T.Outcome(Tables(), result)
           == T.Release(config, old(Tables()), bound, audit, active, evaluatedAt, createdAt, recordId)
    {
      var savedRecords, savedJournal := records, journal;
      var evaluation := EvaluateCompositionHistory(config, active, bound, evaluatedAt);
      if evaluation.Err? {
        return Err(T.Integrity);
      }
      var e := evaluation.value;
      if !e.allowed {
        return Ok(T.Decision(false, e.rule, e.protectedRelease, e.priorProtectedCount, None));
      }
      var appended := AppendEvent(bound, audit, createdAt, recordId);
      if appended.Err? {
        records, journal := savedRecords, savedJournal;
        return Err(T.Integrity);
      }
      var error := InsertTransition(appended.value.recordId, T.Pending);
      if error.Some? {
        records, journal := savedRecords, savedJournal;
        return Err(T.Integrity);
      }
      return Ok(T.Decision(
        true, e.rule, e.protectedRelease, e.priorProtectedCount, Some(T.CommitmentOf(appended.value))));
    }

    /** The foundation path: no budget, no journal entry. */
    method Append(event: Event, createdAt: int, recordId: string) returns (result: Result<Record, T.LedgerError>)
      modifies this`records
      ensures T.Outcome(Tables(), result) == T.Append(config, old(Tables()), event, createdAt, recordId)
    {
      var history := RecordsForScope(event.scope);
      if history.Err? {
        return Err(history.error);
      }
      var existing := T.FindReceipt(records, event.receiptId);
      if existing.Some? {
        var record := T.RowToRecord(config, existing.value);
        if record.Err? {
          return record;
        }
        return if record.value.event != event then Err(T.Conflict) else record;
      }
      result := AppendEvent(event, history.value, createdAt, recordId);
    }

    /** First transaction of `claim_commitment`. */
    method RequirePending(commitment: Commitment) returns (result: Result<(), T.LedgerError>)
      ensures result == T.RequirePending(config, Tables(), commitment)
    {
      var record := T.RecordForCommitment(config, records, commitment);
      if record.Err? {
        return Err(record.error);
      }
      var state := T.StateOf(journal, commitment.recordId);
      if state.Err? {
        return Err(state.error);
      }
      return if state.value == T.Pending then Ok(()) else Err(T.Integrity);
    }

    /** Second transaction of `claim_commitment`. */
    method InsertClaim(commitment: Commitment, authorizationId: string) returns (result: Result<(), T.LedgerError>)
      modifies this`claims
      ensures T.Outcome(Tables(), result) == T.InsertClaim(config, old(Tables()), commitment, authorizationId)
    {
      if !IsAuthorizationId(authorizationId) {
        return Err(T.InvalidAuthorizationId);
      }
      var record := T.RecordForCommitment(config, records, commitment);
      if record.Err? {
        return Err(record.error);
      }
      if commitment.recordId in claims {
        return Err(T.CommitmentReplay);
      }
      if exists id <- claims :: claims[id].authorizationId == authorizationId {
        return Err(T.CommitmentReplay);
      }
      var claim := T.Claim(authorizationId, record.value.event.receiptId, record.value.contentSha256);
      claims := claims[record.value.recordId := claim];
      return Ok(());
    }

    /** First transaction of `verify_commitment`. */
    method MatchCommitment(commitment: Commitment, event: Event, sql: string, dialect: string)
      returns (result: Result<Record, T.LedgerError>)
      ensures result == T.MatchCommitment(config, Tables(), commitment, event, sql, dialect)
    {
      var bound := BindEvent(config, event, sql, dialect);
      if bound.None? {
        return Err(T.CompositionRefused);
      }
      var history := RecordsForScope(bound.value.scope);
      if history.Err? {
        return Err(history.error);
      }
      var matches := T.WithReceipt(history.value, commitment.receiptId);
      if |matches| != 1 {
        return Err(T.Integrity);
      }
      var record := matches[0];
      if record.event != bound.value {
        return Err(T.Integrity);
      }
      return if T.CommitmentOf(record) != commitment then Err(T.Integrity) else Ok(record);
    }

    /** Second transaction of `verify_authorization_claim`. */
    method MatchClaim(commitment: Commitment, authorizationId: string) returns (result: Result<(), T.LedgerError>)
      ensures result == T.MatchClaim(config, Tables(), commitment, authorizationId)
    {
      if !IsAuthorizationId(authorizationId) {
        return Err(T.Integrity);
      }
      var record := T.RecordForCommitment(config, records, commitment);
      if record.Err? {
        return Err(record.error);
      }
      if commitment.recordId !in claims {
        return Err(T.Integrity);
      }
      var claim := claims[commitment.recordId];
      if claim.authorizationId != authorizationId || claim.receiptId != commitment.receiptId {
        return Err(T.Integrity);
      }
      if claim.contentSha256 != commitment.contentSha256 || record.value.contentSha256 != commitment.contentSha256 {
        return Err(T.Integrity);
      }
      return Ok(());
    }

    method MarkReleased(commitment: Commitment) returns (result: Result<(), T.LedgerError>)
      modifies this`journal
      ensures T.Outcome(Tables(), result) == T.MarkReleased(config, old(Tables()), commitment)
    {
      var record := T.RecordForCommitment(config, records, commitment);
      if record.Err? {
        return Err(record.error);
      }
      var state := T.StateOf(journal, commitment.recordId);
      if state.Err? {
        return Err(state.error);
      }
      if state.value == T.Released {
        return Ok(());
      }
      if state.value != T.Pending {
        return Err(T.Integrity);
      }
      if commitment.recordId !in claims {
        return Err(T.Integrity);
      }
      var error := InsertTransition(commitment.recordId, T.Released);
      return if error.Some? then Err(error.value) else Ok(());
    }

    method MarkAborted(commitment: Commitment) returns (result: Result<(), T.LedgerError>)
      modifies this`journal
      ensures T.Outcome(Tables(), result) == T.MarkAborted(config, old(Tables()), commitment)
    {
      var record := T.RecordForCommitment(config, records, commitment);
      if record.Err? {
        return Err(record.error);
      }
      var state := T.StateOf(journal, commitment.recordId);
      if state.Err? {
        return Err(state.error);
      }
      if state.value == T.Aborted {
        return Ok(());
      }
      if state.value != T.Pending {
        return Err(T.Integrity);
      }
      var error := InsertTransition(commitment.recordId, T.Aborted);
      return if error.Some? then Err(error.value) else Ok(());
    }

    /** Walk every scope, every claim and every release state; return the number of records. */
    method VerifyAll() returns (result: Result<nat, T.LedgerError>)
      ensures result == T.VerifyAll(config, Tables())
    {
      result := CountRecords();
      if result.Err? {
        return;
      }
      var sound := VerifyAllClaims();
      if !sound {
        return Err(T.Integrity);
      }
      var claimed := VerifyReleases();
      if !claimed {
        return Err(T.Integrity);
      }
    }

    method VerifyReleases() returns (claimed: bool)
      ensures claimed == T.AllReleasesClaimed(Tables())
    {
      for i := 0 to |records|
        invariant forall k | 0 <= k < i :: T.ReleaseIsClaimed(Tables(), records[k].recordId)
      {
        if !T.ReleaseIsClaimed(Tables(), records[i].recordId) {
          return false;
        }
      }
      return true;
    }

    method CountRecords() returns (result: Result<nat, T.LedgerError>)
      ensures result == T.Total(T.DistinctScopes(records), T.ScopeCounter(config, records))
    {
      result := CountScopes(T.DistinctScopes(records), T.ScopeCounter(config, records));
    }

    method CountScopes(hashes: seq<string>, ghost counter: string -> Result<nat, T.LedgerError>)
      returns (result: Result<nat, T.LedgerError>)
      requires counter == T.ScopeCounter(config, records)
      ensures result == T.Total(hashes, counter)
    {
      hide T.CountScope;
      var count: nat := 0;
      for i := 0 to |hashes|
        invariant T.Total(hashes[..i], counter) == Ok(count)
      {
        var listed := CountScope(hashes[i], counter);
        T.TotalOfLonger(hashes, i, counter, count);
        if listed.Err? {
          T.FirstErrorIsFinal(hashes, i + 1, counter);
          return listed;
        }
        count := count + listed.value;
      }
      assert hashes[..|hashes|] == hashes;
      return Ok(count);
    }

    method CountScope(hash: string, ghost counter: string -> Result<nat, T.LedgerError>)
      returns (result: Result<nat, T.LedgerError>)
      requires counter == T.ScopeCounter(config, records)
      ensures result == counter(hash)
    {
      var rows := T.RowsOfScope(records, hash);
      if rows == [] {
        return Ok(0);
      }
      var first := T.RowToRecord(config, rows[0]);
      if first.Err? {
        return Err(first.error);
      }
      var listed := RecordsForScope(first.value.event.scope);
      return if listed.Err? then Err(listed.error) else Ok(|listed.value|);
    }

    method VerifyAllClaims() returns (sound: bool)
      ensures sound == T.AllClaimsSound(config, Tables())
    {
      var unchecked := claims.Keys;
      while unchecked != {}
        invariant unchecked <= claims.Keys
        invariant forall id | id in claims && id !in unchecked :: T.ClaimIsSound(config, Tables(), id)
      {
        var id :| id in unchecked;
        if !T.ClaimIsSound(config, Tables(), id) {
          return false;
        }
        unchecked := unchecked - {id};
      }
      return true;
    }
  }
}
