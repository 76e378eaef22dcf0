/** What the two-phase ledger promises, over every run and every interleaving. */
module DisclosureTheorems {
  import opened Foundations
  import opened DisclosureModels
  import opened DisclosureComposition
  import opened DisclosureRuns
  import T = DisclosureTables

  predicate IsAborted(journal: seq<T.Transition>, id: string) {
    T.StatesOf(journal, id) == [T.Pending, T.Aborted]
  }

  /** The commitment names this row, column by column. */
  predicate Identifies(row: T.Row, commitment: Commitment) {
    && row.recordId == commitment.recordId && row.receiptId == commitment.receiptId
    && row.scopeSha256 == commitment.scopeSha256 && row.eventSha256 == commitment.eventSha256
    && row.contentSha256 == commitment.contentSha256
  }

  // ---------------------------------------------------------------- reading the active history

  function WithoutAborted(journal: seq<T.Transition>, audit: seq<Record>): (active: seq<Record>) {
    if audit == [] then []
    else
      var last := audit[|audit| - 1];
      WithoutAborted(journal, audit[..|audit| - 1]) + if IsAborted(journal, last.recordId) then [] else [last]
  }

  lemma {:induction false} ActiveExactly(journal: seq<T.Transition>, audit: seq<Record>)
    ensures forall r :: r in WithoutAborted(journal, audit) <==> r in audit && !IsAborted(journal, r.recordId)
  {
    if audit != [] {
      ActiveExactly(journal, audit[..|audit| - 1]);
      assert audit == audit[..|audit| - 1] + [audit[|audit| - 1]];
    }
  }

  lemma {:induction false} ActiveHistoryReads(journal: seq<T.Transition>, audit: seq<Record>)
    requires forall r | r in audit :: LegalHistory(T.StatesOf(journal, r.recordId))
    ensures T.ActiveHistory(journal, audit) == Ok(WithoutAborted(journal, audit))
  {
    if audit != [] {
      var last := audit[|audit| - 1];
      assert audit == audit[..|audit| - 1] + [last];
      assert LegalHistory(T.StatesOf(journal, last.recordId));
      ActiveHistoryReads(journal, audit[..|audit| - 1]);
    }
  }

  /** Every active record is the payload of a row of its scope. */
  lemma ActiveRow(rows: seq<T.Row>, journal: seq<T.Transition>, h: string, r: Record) returns (i: nat)
    requires r in WithoutAborted(journal, T.Payloads(T.RowsOfScope(rows, h)))
    ensures i < |rows| && rows[i].payload == r && rows[i].scopeSha256 == h && !IsAborted(journal, r.recordId)
  {
    var selected := T.RowsOfScope(rows, h);
    ActiveExactly(journal, T.Payloads(selected));
    T.SelectedExactly(rows, h);
    var k :| 0 <= k < |selected| && T.Payloads(selected)[k] == r;
    assert selected[k] in rows;
    i :| 0 <= i < |rows| && rows[i] == selected[k];
  }

  /** In every reachable state a valid scope reads, and its active history is the audit history
    * without the aborted records.
    */
  lemma HistoryReads(c: Config, t: Tables, scope: Scope)
    requires CollisionFree(c) && Inv(c, t) && ValidScope(c, scope)
    ensures var audit := T.Payloads(T.RowsOfScope(t.records, scope.scopeSha256));
            && T.RecordsForScope(c, t.records, scope) == Ok(audit)
            && T.ActiveHistory(t.journal, audit) == Ok(WithoutAborted(t.journal, audit))
            && (forall r | r in audit :: CompositionIsConsistent(r.event))
  {
    ScopeReads(c, t.records, scope);
    var selected := T.RowsOfScope(t.records, scope.scopeSha256);
    var audit := T.Payloads(selected);
    T.SelectedExactly(t.records, scope.scopeSha256);
    forall r | r in audit
      ensures LegalHistory(T.StatesOf(t.journal, r.recordId))
      ensures CompositionIsConsistent(r.event)
    {
      assert JournalEntryInv(t, r.recordId);
      var i :| 0 <= i < |audit| && audit[i] == r;
      assert selected[i] in selected;
    }
    ActiveHistoryReads(t.journal, audit);
  }

  /** In a reachable state an evaluation is decided by its receipt alone: a recorded receipt is
    * replayed, a new one is evaluated against the scope's active history.
    */
  lemma EvaluationSplits(
    c: Config, t: Tables, event: Event, sql: string, dialect: string,
    evaluatedAt: int, createdAt: int, recordId: string)
    requires CollisionFree(c) && Inv(c, t) && ValidEvent(c, event) && c.canonicalize(sql, dialect).Some?
    ensures var bound := BindEvent(c, event, sql, dialect).value;
            var audit := T.Payloads(T.RowsOfScope(t.records, event.scope.scopeSha256));
            var active := WithoutAborted(t.journal, audit);
            T.EvaluateAndCommit(c, t, event, sql, dialect, evaluatedAt, createdAt, recordId)
            == match T.FindReceipt(t.records, event.receiptId)
               case Some(row) => T.Outcome(t, T.Replay(c, t, row, bound, audit, active))
               case None => T.Release(c, t, bound, audit, active, evaluatedAt, createdAt, recordId)
  {
    HistoryReads(c, t, event.scope);
  }

  // ---------------------------------------------------------------- the rolling-window budget

  /** A protected release made through the gate in (lo, hi] and not aborted since. */
  predicate CountsInWindow(journal: seq<T.Transition>, row: T.Row, scopeSha256: string, lo: int, hi: int) {
    && row.scopeSha256 == scopeSha256
    && ExposesSubjects(row.payload.event.semantic)
    && row.payload.event.composition.Some?
    && !IsAborted(journal, row.recordId)
    && lo < row.payload.createdAt <= hi
  }

  function Releases(rows: seq<T.Row>, journal: seq<T.Transition>, scopeSha256: string, lo: int, hi: int): nat {
    if rows == [] then 0
    else
      Releases(rows[..|rows| - 1], journal, scopeSha256, lo, hi)
      + if CountsInWindow(journal, rows[|rows| - 1], scopeSha256, lo, hi) then 1 else 0
  }

  /** Releases of one scope inside the window that ends at `t`. */
  function ReleasesUpTo(c: Config, t: Tables, scopeSha256: string, hi: int): nat {
    Releases(t.records, t.journal, scopeSha256, hi - c.windowMicroseconds, hi)
  }

  ghost predicate WithinBudget(c: Config, t: Tables) {
    forall scopeSha256: string, hi: int :: ReleasesUpTo(c, t, scopeSha256, hi) <= c.maxProtectedReleases
  }

  lemma ActiveAfterInsert(journal: seq<T.Transition>, audit: seq<Record>, r: Record)
    ensures WithoutAborted(journal, audit + [r])
         == WithoutAborted(journal, audit) + if IsAborted(journal, r.recordId) then [] else [r]
  {
    assert (audit + [r])[..|audit|] == audit;
  }

  lemma ReleasesOfLonger(
    rows: seq<T.Row>, row: T.Row, journal: seq<T.Transition>, scopeSha256: string, lo: int, hi: int)
    ensures Releases(rows + [row], journal, scopeSha256, lo, hi)
         == Releases(rows, journal, scopeSha256, lo, hi)
            + if CountsInWindow(journal, row, scopeSha256, lo, hi) then 1 else 0
  {
    assert (rows + [row])[..|rows|] == rows;
  }

  /** The count over the table never exceeds what the history loop counts, as long as the window
    * of the table starts no earlier than the horizon of the loop.
    */
  lemma {:induction false} WindowInsideHistory(
    rows: seq<T.Row>, journal: seq<T.Transition>, h: string, lo: int, hi: int, horizon: int)
    requires horizon <= lo
    requires forall row | row in rows :: T.IndexMatches(row)
    ensures Releases(rows, journal, h, lo, hi)
         <= ProtectedAfter(WithoutAborted(journal, T.Payloads(T.RowsOfScope(rows, h))), horizon)
  {
    if rows != [] {
      var init, last := rows[..|rows| - 1], rows[|rows| - 1];
      assert last in rows && forall row | row in init :: row in rows;
      WindowInsideHistory(init, journal, h, lo, hi, horizon);
      assert rows == init + [last];
      OneMoreInWindow(init, last, journal, h, lo, hi, horizon);
    }
  }

  lemma HistoryOfLonger(rows: seq<T.Row>, row: T.Row, journal: seq<T.Transition>, h: string, horizon: int)
    ensures ProtectedAfter(WithoutAborted(journal, T.Payloads(T.RowsOfScope(rows + [row], h))), horizon)
         == ProtectedAfter(WithoutAborted(journal, T.Payloads(T.RowsOfScope(rows, h))), horizon)
            + if && row.scopeSha256 == h && !IsAborted(journal, row.payload.recordId)
                 && IsProtected(row.payload.event.semantic) && row.payload.createdAt > horizon
              then 1 else 0
  {
    var selected, audit := T.RowsOfScope(rows, h), T.Payloads(T.RowsOfScope(rows, h));
    ScopeAfterInsert(rows, row, h);
    if row.scopeSha256 != h {
      assert T.RowsOfScope(rows + [row], h) == selected;
    } else {
      PayloadsOneMore(selected, row);
      ActiveAfterInsert(journal, audit, row.payload);
      if IsAborted(journal, row.payload.recordId) {
        assert WithoutAborted(journal, audit + [row.payload]) == WithoutAborted(journal, audit);
      } else {
        ProtectedAfterInsert(WithoutAborted(journal, audit), row.payload, horizon);
      }
    }
  }

  lemma OneMoreInWindow(
    rows: seq<T.Row>, row: T.Row, journal: seq<T.Transition>, h: string, lo: int, hi: int, horizon: int)
    requires horizon <= lo && T.IndexMatches(row)
    requires Releases(rows, journal, h, lo, hi)
          <= ProtectedAfter(WithoutAborted(journal, T.Payloads(T.RowsOfScope(rows, h))), horizon)
    ensures Releases(rows + [row], journal, h, lo, hi)
         <= ProtectedAfter(WithoutAborted(journal, T.Payloads(T.RowsOfScope(rows + [row], h))), horizon)
  {
    hide ExposesSubjects, IsProtected, Releases, ProtectedAfter;
    ProtectedExactly(row.payload.event.semantic);
    ReleasesOfLonger(rows, row, journal, h, lo, hi);
    HistoryOfLonger(rows, row, journal, h, horizon);
  }

  /** Aborting frees budget and no other transition takes any. */
  lemma {:induction false} MoreAbortsFewerReleases(
    rows: seq<T.Row>, journal: seq<T.Transition>, later: seq<T.Transition>, h: string, lo: int, hi: int)
    requires forall row | row in rows :: IsAborted(journal, row.recordId) ==> IsAborted(later, row.recordId)
    ensures Releases(rows, later, h, lo, hi) <= Releases(rows, journal, h, lo, hi)
  {
    if rows != [] {
      assert rows == rows[..|rows| - 1] + [rows[|rows| - 1]];
      MoreAbortsFewerReleases(rows[..|rows| - 1], journal, later, h, lo, hi);
    }
  }

  /** Later journals only ever turn pending records into aborted ones. */
  lemma AbortedForever(t: Tables, t': Tables, id: string)
    requires JournalInv(t') && Extends(t, t')
    ensures IsAborted(t.journal, id) ==> IsAborted(t'.journal, id)
  {
    StatesExtend(t.journal, t'.journal, id);
    assert JournalEntryInv(t', id);
  }

  lemma UnchangedRecordsKeepBudget(c: Config, t: Tables, t': Tables)
    requires WithinBudget(c, t) && JournalInv(t') && Extends(t, t') && t'.records == t.records
    ensures WithinBudget(c, t')
  {
    forall h: string, hi: int
      ensures ReleasesUpTo(c, t', h, hi) <= c.maxProtectedReleases
    {
      forall row | row in t.records
        ensures IsAborted(t.journal, row.recordId) ==> IsAborted(t'.journal, row.recordId)
      {
        AbortedForever(t, t', row.recordId);
      }
      MoreAbortsFewerReleases(t.records, t.journal, t'.journal, h, hi - c.windowMicroseconds, hi);
      assert ReleasesUpTo(c, t, h, hi) <= c.maxProtectedReleases;
    }
  }

  /** Appending one row adds at most one release to a window, and none to a window it is outside of. */
  lemma ReleasesAfterInsert(t: Tables, t': Tables, row: T.Row, h: string, lo: int, hi: int)
    requires t'.records == t.records + [row] && JournalInv(t') && Extends(t, t')
    ensures Releases(t'.records, t'.journal, h, lo, hi)
         <= Releases(t.records, t.journal, h, lo, hi) + if CountsInWindow(t'.journal, row, h, lo, hi) then 1 else 0
  {
    assert t'.records[..|t.records|] == t.records;
    forall r | r in t.records
      ensures IsAborted(t.journal, r.recordId) ==> IsAborted(t'.journal, r.recordId)
    {
      AbortedForever(t, t', r.recordId);
    }
    MoreAbortsFewerReleases(t.records, t.journal, t'.journal, h, lo, hi);
  }

  /** An evaluation that writes has found room: its history counts fewer protected releases than the
    * budget, or the new record is not protected at all.
    */
  lemma WritesOnlyWithRoom(
    c: Config, t: Tables, event: Event, sql: string, dialect: string,
    evaluatedAt: int, createdAt: int, recordId: string)
    requires CollisionFree(c) && Inv(c, t) && ValidEvent(c, event)
    requires T.EvaluateAndCommit(c, t, event, sql, dialect, evaluatedAt, createdAt, recordId).tables != t
    ensures var t' := T.EvaluateAndCommit(c, t, event, sql, dialect, evaluatedAt, createdAt, recordId).tables;
            var active := WithoutAborted(t.journal, T.Payloads(T.RowsOfScope(t.records, event.scope.scopeSha256)));
            && |t'.records| == |t.records| + 1
            && t'.records[..|t.records|] == t.records
            && var row := t'.records[|t.records|];
            && row.scopeSha256 == event.scope.scopeSha256
            && row.payload.createdAt == createdAt
            && row.payload.event.semantic == event.semantic
            && (forall r | r in active :: !IsLegacyProtected(r))
            && (IsProtected(event.semantic) ==>
                  ProtectedAfter(active, evaluatedAt - c.windowMicroseconds) < c.maxProtectedReleases)
  {
    hide T.EvaluateAndCommit, ValidRecord;
    EvaluateWrites(c, t, event, sql, dialect, evaluatedAt, createdAt, recordId);
    var bound := BindEvent(c, event, sql, dialect).value;
    var audit := T.Payloads(T.RowsOfScope(t.records, event.scope.scopeSha256));
    var active := WithoutAborted(t.journal, audit);
    ActiveExactly(t.journal, audit);
    HistoryReads(c, t, event.scope);
    AllowedExactlyWithinBudget(c, active, bound, evaluatedAt);
  }

  /** One evaluation keeps the budget of every scope and every window, because the record is created
    * no earlier than the history was evaluated.
    */
  lemma EvaluateKeepsBudget(
    c: Config, t: Tables, event: Event, sql: string, dialect: string,
    evaluatedAt: int, createdAt: int, recordId: string)
    requires CollisionFree(c) && Inv(c, t) && ValidEvent(c, event)
    requires WithinBudget(c, t)
    requires evaluatedAt <= createdAt
    ensures WithinBudget(c, T.EvaluateAndCommit(c, t, event, sql, dialect, evaluatedAt, createdAt, recordId).tables)
  {
    var t' := T.EvaluateAndCommit(c, t, event, sql, dialect, evaluatedAt, createdAt, recordId).tables;
    if t' != t {
      WritesOnlyWithRoom(c, t, event, sql, dialect, evaluatedAt, createdAt, recordId);
      EvaluateWrites(c, t, event, sql, dialect, evaluatedAt, createdAt, recordId);
      EvaluateExtends(c, t, event, sql, dialect, evaluatedAt, createdAt, recordId);
      forall h: string, hi: int
        ensures ReleasesUpTo(c, t', h, hi) <= c.maxProtectedReleases
      {
        RoomKeepsWindow(c, t, t', h, hi, evaluatedAt);
      }
    }
  }

  lemma RoomKeepsWindow(c: Config, t: Tables, t': Tables, h: string, hi: int, evaluatedAt: int)
    requires SoundRows(c, t.records) && JournalInv(t') && Extends(t, t')
    requires WithinBudget(c, t)
    requires |t'.records| == |t.records| + 1
    requires var row := t'.records[|t.records|];
             && evaluatedAt <= row.payload.createdAt
             && (IsProtected(row.payload.event.semantic) ==>
                   ProtectedAfter(WithoutAborted(t.journal, T.Payloads(T.RowsOfScope(t.records, row.scopeSha256))),
                                  evaluatedAt - c.windowMicroseconds) < c.maxProtectedReleases)
    ensures ReleasesUpTo(c, t', h, hi) <= c.maxProtectedReleases
  {
    hide ValidRecord, CompositionIsConsistent, ExposesSubjects, IsProtected, Releases, ProtectedAfter;
    ProtectedExactly(t'.records[|t.records|].payload.event.semantic);
    var row, lo := t'.records[|t.records|], hi - c.windowMicroseconds;
    assert t'.records == t.records + [row];
    ReleasesAfterInsert(t, t', row, h, lo, hi);
    assert ReleasesUpTo(c, t, h, hi) <= c.maxProtectedReleases;
    if CountsInWindow(t'.journal, row, h, lo, hi) {
      forall r | r in t.records
        ensures T.IndexMatches(r)
      {
        var i :| 0 <= i < |t.records| && t.records[i] == r;
        assert T.RowIsSound(c, r);
      }
      WindowInsideHistory(t.records, t.journal, h, lo, hi, evaluatedAt - c.windowMicroseconds);
    }
  }

  /** The clock does not run backwards inside one evaluation, and direct appends stay on the
    * migration path, which carries no composition metadata.
    */
  predicate Governed(a: Action) {
    && (a.Evaluate? ==> a.evaluatedAt <= a.createdAt)
    && (a.Append? ==> a.event.composition.None?)
  }

  lemma AppendKeepsBudget(c: Config, t: Tables, event: Event, createdAt: int, recordId: string)
    requires CollisionFree(c) && Inv(c, t) && ValidEvent(c, event) && event.composition.None?
    requires WithinBudget(c, t)
    ensures WithinBudget(c, T.Append(c, t, event, createdAt, recordId).tables)
  {
    var t' := T.Append(c, t, event, createdAt, recordId).tables;
    AppendWrites(c, t, event, createdAt, recordId);
    if t' != t {
      forall h: string, hi: int
        ensures ReleasesUpTo(c, t', h, hi) <= c.maxProtectedReleases
      {
        ReleasesOfLonger(t.records, t'.records[|t.records|], t.journal, h, hi - c.windowMicroseconds, hi);
        assert ReleasesUpTo(c, t, h, hi) <= c.maxProtectedReleases;
      }
    }
  }

  lemma OthersKeepRecords(c: Config, w: World, a: Action)
    requires !a.Evaluate? && !a.Append?
    ensures Step(c, w, a).tables.records == w.tables.records
  {
  }

  lemma StepKeepsBudget(c: Config, w: World, a: Action)
    requires CollisionFree(c) && Inv(c, w.tables) && ValidAction(c, a) && Governed(a)
    requires WithinBudget(c, w.tables)
    ensures WithinBudget(c, Step(c, w, a).tables)
  {
    match a
    case Evaluate(event, sql, dialect, evaluatedAt, createdAt, recordId) =>
      EvaluateKeepsBudget(c, w.tables, event, sql, dialect, evaluatedAt, createdAt, recordId);
    case Append(event, createdAt, recordId) => AppendKeepsBudget(c, w.tables, event, createdAt, recordId);
    case _ =>
      OthersKeepRecords(c, w, a);
      StepKeepsInv(c, w, a);
      StepExtends(c, w, a);
      UnchangedRecordsKeepBudget(c, w.tables, Step(c, w, a).tables);
  }

  /** The budget holds in every run: for every scope and every instant, the protected releases of
    * the window ending there that were not aborted number at most `max_protected_releases`.
    */
  lemma {:induction false} BudgetHolds(c: Config, actions: seq<Action>)
    requires CollisionFree(c) && ValidBudget(c) && ValidActions(c, actions)
    requires forall a | a in actions :: Governed(a)
    ensures WithinBudget(c, Run(c, actions).tables)
  {
    if actions == [] {
      assert forall h: string, hi: int :: ReleasesUpTo(c, T.EMPTY, h, hi) == 0;
    } else {
      var init, last := actions[..|actions| - 1], actions[|actions| - 1];
      BudgetHolds(c, init);
      RunKeepsInv(c, init);
      assert last in actions;
      StepKeepsBudget(c, Run(c, init), last);
    }
  }

  // ---------------------------------------------------------------- without legacy appends

  /** A protected release in (lo, hi] that was not aborted, with composition metadata or without. */
  predicate IsProtectedInWindow(journal: seq<T.Transition>, row: T.Row, scopeSha256: string, lo: int, hi: int) {
    && row.scopeSha256 == scopeSha256
    && ExposesSubjects(row.payload.event.semantic)
    && !IsAborted(journal, row.recordId)
    && lo < row.payload.createdAt <= hi
  }

  function ProtectedRows(rows: seq<T.Row>, journal: seq<T.Transition>, scopeSha256: string, lo: int, hi: int): nat {
    if rows == [] then 0
    else
      ProtectedRows(rows[..|rows| - 1], journal, scopeSha256, lo, hi)
      + if IsProtectedInWindow(journal, rows[|rows| - 1], scopeSha256, lo, hi) then 1 else 0
  }

  lemma {:induction false} ComposedRowsAllCount(
    rows: seq<T.Row>, journal: seq<T.Transition>, scopeSha256: string, lo: int, hi: int)
    requires forall i | 0 <= i < |rows| :: rows[i].payload.event.composition.Some?
    ensures ProtectedRows(rows, journal, scopeSha256, lo, hi) == Releases(rows, journal, scopeSha256, lo, hi)
  {
    if rows != [] {
      ComposedRowsAllCount(rows[..|rows| - 1], journal, scopeSha256, lo, hi);
    }
  }

  /** The gate writes no record without composition metadata. */
  lemma {:induction false} GateWritesComposedRows(c: Config, actions: seq<Action>)
    requires CollisionFree(c) && ValidActions(c, actions)
    requires forall i | 0 <= i < |actions| :: !actions[i].Append?
    ensures var rows := Run(c, actions).tables.records;
            forall i | 0 <= i < |rows| :: rows[i].payload.event.composition.Some?
  {
    if actions != [] {
      var init, last := actions[..|actions| - 1], actions[|actions| - 1];
      hide Inv, T.EvaluateAndCommit;
      GateWritesComposedRows(c, init);
      RunKeepsInv(c, init);
      var w := Run(c, init);
      if last.Evaluate? {
        EvaluateWrites(c, w.tables, last.event, last.sql, last.dialect, last.evaluatedAt, last.createdAt, last.recordId);
      } else {
        OthersKeepRecords(c, w, last);
      }
    }
  }

  /** In runs of the gate alone, the budget bounds every protected record that was not aborted. */
  lemma BudgetCoversEveryRecord(c: Config, actions: seq<Action>, scopeSha256: string, hi: int)
    requires CollisionFree(c) && ValidBudget(c) && ValidActions(c, actions)
    requires forall i | 0 <= i < |actions| :: !actions[i].Append? && Governed(actions[i])
    ensures var t := Run(c, actions).tables;
            ProtectedRows(t.records, t.journal, scopeSha256, hi - c.windowMicroseconds, hi) <= c.maxProtectedReleases
  {
    var t := Run(c, actions).tables;
    BudgetHolds(c, actions);
    GateWritesComposedRows(c, actions);
    ComposedRowsAllCount(t.records, t.journal, scopeSha256, hi - c.windowMicroseconds, hi);
    assert ReleasesUpTo(c, t, scopeSha256, hi) <= c.maxProtectedReleases;
  }

  // ---------------------------------------------------------------- writing an allowed release

  /** An allowed release on new identifiers goes through: neither the insert nor the trigger can fail. */
  lemma AllowedReleaseIsWritten(
    c: Config, t: Tables, bound: Event, audit: seq<Record>, active: seq<Record>,
    evaluatedAt: int, createdAt: int, id: string)
    requires JournalInv(t) && CompositionIsConsistent(bound)
    requires T.FindRecordId(t.records, id).None? && T.FindReceipt(t.records, bound.receiptId).None?
    requires var e := EvaluationOf(c, active, bound, evaluatedAt); e.Ok? && e.value.allowed
    ensures var o := T.Release(c, t, bound, audit, active, evaluatedAt, createdAt, id);
            var r := T.NewRecord(c, t.records, bound, audit, createdAt, id);
            && o.tables == T.Tables(t.records + [T.RowOf(r)], t.claims, t.journal + [T.Transition(id, T.Pending)])
            && o.result.Ok? && o.result.value.commitment == Some(T.CommitmentOf(r))
  {
    FindAfterInsert(t.records, T.RowOf(T.NewRecord(c, t.records, bound, audit, createdAt, id)), id);
    assert JournalEntryInv(t, id);
  }
}
