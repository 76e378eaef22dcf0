/** The budget needs the order of the two clock readings of an evaluation: any pair that runs backwards breaks
  * any budget, after a run in which the clock behaved.
  */
module DisclosureClock {
  import opened Categories
  import opened Foundations
  import opened DisclosureModels
  import opened DisclosureComposition
  import opened DisclosureRuns
  import opened DisclosureTheorems
  import T = DisclosureTables

  // ---------------------------------------------------------------- one release is appended

  predicate IsReleaseOf(row: T.Row, event: Event, createdAt: int, id: string) {
    && row.recordId == id && row.receiptId == event.receiptId && row.scopeSha256 == event.scope.scopeSha256
    && row.payload.createdAt == createdAt && row.payload.event.semantic == event.semantic
    && row.payload.event.composition.Some?
  }

  predicate IsNewTo(rows: seq<T.Row>, event: Event, id: string) {
    forall i | 0 <= i < |rows| ::
      rows[i].recordId != id && rows[i].receiptId != event.receiptId && !IsLegacyProtected(rows[i].payload)
  }

  function History(t: Tables, h: string): seq<Record> {
    WithoutAborted(t.journal, T.Payloads(T.RowsOfScope(t.records, h)))
  }

  /** With room in the window, a release on new identifiers is appended. */
  lemma ReleaseIsAppended(
    c: Config, t: Tables, event: Event, sql: string, dialect: string, evaluatedAt: int, createdAt: int, id: string)
    requires CollisionFree(c) && Inv(c, t) && ValidEvent(c, event) && c.canonicalize(sql, dialect).Some?
    requires IsNewTo(t.records, event, id)
    requires ProtectedAfter(History(t, event.scope.scopeSha256), evaluatedAt - c.windowMicroseconds) < c.maxProtectedReleases
    ensures var t' := T.EvaluateAndCommit(c, t, event, sql, dialect, evaluatedAt, createdAt, id).tables;
            && t'.journal == t.journal + [T.Transition(id, T.Pending)]
            && |t'.records| == |t.records| + 1 && t'.records[..|t.records|] == t.records
            && IsReleaseOf(t'.records[|t.records|], event, createdAt, id)
  {
    hide Inv, ValidRecord, T.EvaluateAndCommit, ProtectedAfter, T.Release, IsProtected;
    var bound := BindEvent(c, event, sql, dialect).value;
    var audit := T.Payloads(T.RowsOfScope(t.records, event.scope.scopeSha256));
    var active := History(t, event.scope.scopeSha256);
    NewIsNotFound(t.records, event, id);
    NewScopeIsOpen(c, t, event, id);
    AllowedExactlyWithinBudget(c, active, bound, evaluatedAt);
    EvaluationSplits(c, t, event, sql, dialect, evaluatedAt, createdAt, id);
    assert JournalInv(t) by { InvHasJournal(c, t); }
    AllowedReleaseIsWritten(c, t, bound, audit, active, evaluatedAt, createdAt, id);
  }

  lemma InvHasJournal(c: Config, t: Tables)
    requires Inv(c, t)
    ensures JournalInv(t)
  {
  }

  lemma NewIsNotFound(rows: seq<T.Row>, event: Event, id: string)
    requires IsNewTo(rows, event, id)
    ensures T.FindRecordId(rows, id).None? && T.FindReceipt(rows, event.receiptId).None?
  {
  }

  lemma NewScopeIsOpen(c: Config, t: Tables, event: Event, id: string)
    requires CollisionFree(c) && Inv(c, t) && ValidEvent(c, event) && IsNewTo(t.records, event, id)
    ensures var active := History(t, event.scope.scopeSha256);
            forall i | 0 <= i < |active| :: CompositionIsConsistent(active[i].event) && !IsLegacyProtected(active[i])
  {
    hide Inv, ValidRecord, IsLegacyProtected, CompositionIsConsistent;
    var h := event.scope.scopeSha256;
    HistoryReads(c, t, event.scope);
    ActiveExactly(t.journal, T.Payloads(T.RowsOfScope(t.records, h)));
    var active := History(t, h);
    forall i | 0 <= i < |active|
      ensures CompositionIsConsistent(active[i].event) && !IsLegacyProtected(active[i])
    {
      assert active[i] in active;
      var k := ActiveRow(t.records, t.journal, h, active[i]);
    }
  }

  /** A history counts at most every record, and none when all are as old as the horizon. */
  lemma {:induction false} HistoryIsAtMost(rows: seq<T.Row>, journal: seq<T.Transition>, h: string, horizon: int)
    ensures var n := ProtectedAfter(WithoutAborted(journal, T.Payloads(T.RowsOfScope(rows, h))), horizon);
            && n <= |rows|
            && ((forall i | 0 <= i < |rows| :: rows[i].payload.createdAt <= horizon) ==> n == 0)
  {
    hide *;
    if rows == [] {
      NothingInHistory(journal, h, horizon);
    } else {
      var n := |rows| - 1;
      HistoryIsAtMost(rows[..n], journal, h, horizon);
      HistoryOfLonger(rows[..n], rows[n], journal, h, horizon);
      assert rows == rows[..n] + [rows[n]];
    }
  }

  lemma NothingInHistory(journal: seq<T.Transition>, h: string, horizon: int)
    ensures ProtectedAfter(WithoutAborted(journal, T.Payloads(T.RowsOfScope([], h))), horizon) == 0
  {
  }

  // ---------------------------------------------------------------- a run with one backward pair

  /** Protected releases of one scope on distinct receipts and identifiers. */
  predicate AreReleases(c: Config, events: seq<Event>, ids: seq<string>, scope: Scope) {
    && |events| == |ids|
    && (forall i | 0 <= i < |events| ::
          ValidEvent(c, events[i]) && IsProtected(events[i].semantic) && events[i].scope == scope)
    && (forall i, j | 0 <= i < j < |events| :: events[i].receiptId != events[j].receiptId && ids[i] != ids[j])
  }

  /** An instant outside the window of the backward evaluation and not after its recording. */
  function Earlier(c: Config, evaluatedAt: int, createdAt: int): int {
    if evaluatedAt - c.windowMicroseconds < createdAt then evaluatedAt - c.windowMicroseconds else createdAt
  }

  /** All but the last release at one earlier instant, the last with the given pair of readings. */
  function Readings(c: Config, last: bool, evaluatedAt: int, createdAt: int): (int, int) {
    if last then (evaluatedAt, createdAt)
    else (Earlier(c, evaluatedAt, createdAt), Earlier(c, evaluatedAt, createdAt))
  }

  function ReleaseRun(c: Config, events: seq<Event>, ids: seq<string>, sql: string, dialect: string,
    evaluatedAt: int, createdAt: int): (actions: seq<Action>)
    requires |events| == |ids|
    ensures |actions| == |events|
    ensures forall i | 0 <= i < |events| ::
              var (e, w) := Readings(c, i == |events| - 1, evaluatedAt, createdAt);
              actions[i] == Evaluate(events[i], sql, dialect, e, w, ids[i])
  {
    seq(|events|, i requires 0 <= i < |events| =>
      var (e, w) := Readings(c, i == |events| - 1, evaluatedAt, createdAt);
      Evaluate(events[i], sql, dialect, e, w, ids[i]))
  }

  /** The first `n` releases of the run are on record, all pending. */
  predicate AreRecorded(c: Config, t: Tables, events: seq<Event>, ids: seq<string>, n: nat, evaluatedAt: int, createdAt: int) {
    && |t.records| == |t.journal| == n <= |events| == |ids|
    && (forall i | 0 <= i < n ::
          IsReleaseOf(t.records[i], events[i], Readings(c, i == |events| - 1, evaluatedAt, createdAt).1, ids[i]))
    && (forall i | 0 <= i < n :: t.journal[i].state == T.Pending)
  }

  lemma {:induction false} RunRecordsReleases(c: Config, events: seq<Event>, ids: seq<string>, scope: Scope,
    sql: string, dialect: string, evaluatedAt: int, createdAt: int, n: nat)
    requires CollisionFree(c) && AreReleases(c, events, ids, scope) && c.canonicalize(sql, dialect).Some?
    requires 1 <= c.maxProtectedReleases && |events| == c.maxProtectedReleases + 1 && n <= |events|
    ensures var actions := ReleaseRun(c, events, ids, sql, dialect, evaluatedAt, createdAt);
            && ValidActions(c, actions[..n])
            && AreRecorded(c, Run(c, actions[..n]).tables, events, ids, n, evaluatedAt, createdAt)
  {
    var actions := ReleaseRun(c, events, ids, sql, dialect, evaluatedAt, createdAt);
    hide T.EvaluateAndCommit, Inv, AreReleases, AreRecorded, Readings, RunFrom, ValidActions;
    if n == 0 {
      NothingRecorded(c, events, ids, scope, evaluatedAt, createdAt);
      NothingHappened(c, actions);
    } else {
      var k := n - 1;
      RunRecordsReleases(c, events, ids, scope, sql, dialect, evaluatedAt, createdAt, k);
      RunKeepsInv(c, actions[..k]);
      RecordsNext(c, Run(c, actions[..k]).tables, events, ids, scope, sql, dialect, k, evaluatedAt, createdAt);
      var (e, w) := Readings(c, k == |events| - 1, evaluatedAt, createdAt);
      RunEvaluates(c, actions, k, events[k], sql, dialect, e, w, ids[k]);
    }
  }

  lemma NothingHappened(c: Config, actions: seq<Action>)
    ensures ValidActions(c, actions[..0]) && Run(c, actions[..0]).tables == T.EMPTY
  {
  }

  lemma RunEvaluates(c: Config, actions: seq<Action>, k: nat, event: Event, sql: string, dialect: string,
    evaluatedAt: int, createdAt: int, id: string)
    requires k < |actions| && actions[k] == Evaluate(event, sql, dialect, evaluatedAt, createdAt, id)
    requires ValidActions(c, actions[..k]) && ValidEvent(c, event)
    ensures ValidActions(c, actions[..k + 1])
    ensures Run(c, actions[..k + 1]).tables
         == T.EvaluateAndCommit(c, Run(c, actions[..k]).tables, event, sql, dialect, evaluatedAt, createdAt, id).tables
  {
    hide T.EvaluateAndCommit, ValidEvent;
    var shorter, longer := actions[..k], actions[..k + 1];
    assert longer[..k] == shorter && longer[k] == actions[k];
    forall i | 0 <= i < |longer| ensures ValidAction(c, longer[i]) {
      if i < k {
        assert longer[i] == shorter[i];
      }
    }
  }

  lemma NothingRecorded(c: Config, events: seq<Event>, ids: seq<string>, scope: Scope, evaluatedAt: int, createdAt: int)
    requires AreReleases(c, events, ids, scope)
    ensures AreRecorded(c, T.EMPTY, events, ids, 0, evaluatedAt, createdAt)
  {
  }

  lemma RecordsNext(c: Config, t: Tables, events: seq<Event>, ids: seq<string>, scope: Scope,
    sql: string, dialect: string, n: nat, evaluatedAt: int, createdAt: int)
    requires CollisionFree(c) && Inv(c, t) && AreReleases(c, events, ids, scope) && c.canonicalize(sql, dialect).Some?
    requires AreRecorded(c, t, events, ids, n, evaluatedAt, createdAt)
    requires 1 <= c.maxProtectedReleases && |events| == c.maxProtectedReleases + 1 && n < |events|
    ensures var (e, w) := Readings(c, n == |events| - 1, evaluatedAt, createdAt);
            && ValidEvent(c, events[n])
            && AreRecorded(c, T.EvaluateAndCommit(c, t, events[n], sql, dialect, e, w, ids[n]).tables,
                           events, ids, n + 1, evaluatedAt, createdAt)
  {
    hide T.EvaluateAndCommit, Inv, IsReleaseOf, ValidEvent, IsProtected, IsNewTo, Readings;
    var (e, w) := Readings(c, n == |events| - 1, evaluatedAt, createdAt);
    RecordedLeaveRoom(c, t, events, ids, scope, n, evaluatedAt, createdAt);
    ReleaseIsAppended(c, t, events[n], sql, dialect, e, w, ids[n]);
  }

  lemma RecordedLeaveRoom(c: Config, t: Tables, events: seq<Event>, ids: seq<string>, scope: Scope, n: nat,
    evaluatedAt: int, createdAt: int)
    requires AreReleases(c, events, ids, scope) && AreRecorded(c, t, events, ids, n, evaluatedAt, createdAt)
    requires 1 <= c.maxProtectedReleases && |events| == c.maxProtectedReleases + 1 && n < |events|
    ensures IsNewTo(t.records, events[n], ids[n])
    ensures var (e, _) := Readings(c, n == |events| - 1, evaluatedAt, createdAt);
            ProtectedAfter(History(t, events[n].scope.scopeSha256), e - c.windowMicroseconds) < c.maxProtectedReleases
  {
    hide ProtectedAfter, WithoutAborted, T.RowsOfScope, IsProtected, ValidEvent;
    var (e, _) := Readings(c, n == |events| - 1, evaluatedAt, createdAt);
    HistoryIsAtMost(t.records, t.journal, events[n].scope.scopeSha256, e - c.windowMicroseconds);
    forall i | 0 <= i < n
      ensures t.records[i].recordId == ids[i] && t.records[i].receiptId == events[i].receiptId
      ensures t.records[i].payload.event.composition.Some?
      ensures t.records[i].payload.createdAt == Earlier(c, evaluatedAt, createdAt)
    {
      assert IsReleaseOf(t.records[i], events[i], Readings(c, i == |events| - 1, evaluatedAt, createdAt).1, ids[i]);
    }
  }

  // ---------------------------------------------------------------- one too many in the window

  lemma {:induction false} PendingIsNotAborted(journal: seq<T.Transition>, id: string)
    requires forall i | 0 <= i < |journal| :: journal[i].state == T.Pending
    ensures forall s | s in T.StatesOf(journal, id) :: s == T.Pending
    ensures !IsAborted(journal, id)
  {
    if journal != [] {
      PendingIsNotAborted(journal[..|journal| - 1], id);
    }
    assert T.Aborted in [T.Pending, T.Aborted];
  }

  lemma {:induction false} AllCount(rows: seq<T.Row>, journal: seq<T.Transition>, h: string, lo: int, hi: int)
    requires forall i | 0 <= i < |rows| :: CountsInWindow(journal, rows[i], h, lo, hi)
    ensures Releases(rows, journal, h, lo, hi) == |rows|
  {
    if rows != [] {
      AllCount(rows[..|rows| - 1], journal, h, lo, hi);
    }
  }

  /** The converse of `BudgetHolds`: for every budget, every window and every pair of readings that runs
    * backwards, a run whose other evaluations are governed puts one release too many into the window that
    * ends when the last one is recorded.
    */
  lemma BackwardClockBreaksBudget(c: Config, events: seq<Event>, ids: seq<string>, scope: Scope,
    sql: string, dialect: string, evaluatedAt: int, createdAt: int)
    requires CollisionFree(c) && ValidBudget(c) && 0 < c.windowMicroseconds && createdAt < evaluatedAt
    requires AreReleases(c, events, ids, scope) && |events| == c.maxProtectedReleases + 1
    requires c.canonicalize(sql, dialect).Some?
    ensures var actions := ReleaseRun(c, events, ids, sql, dialect, evaluatedAt, createdAt);
            && ValidActions(c, actions)
            && (forall i | 0 <= i < |actions| - 1 :: Governed(actions[i]))
            && ReleasesUpTo(c, Run(c, actions).tables, scope.scopeSha256, createdAt) == c.maxProtectedReleases + 1
            && !WithinBudget(c, Run(c, actions).tables)
  {
    hide T.EvaluateAndCommit, Inv, ValidEvent, IsProtected, ExposesSubjects, Releases;
    var actions := ReleaseRun(c, events, ids, sql, dialect, evaluatedAt, createdAt);
    RunRecordsReleases(c, events, ids, scope, sql, dialect, evaluatedAt, createdAt, |events|);
    assert actions[..|events|] == actions;
    var t := Run(c, actions).tables;
    var h, lo := scope.scopeSha256, createdAt - c.windowMicroseconds;
    forall i | 0 <= i < |t.records| ensures CountsInWindow(t.journal, t.records[i], h, lo, createdAt) {
      assert IsReleaseOf(t.records[i], events[i], Readings(c, i == |events| - 1, evaluatedAt, createdAt).1, ids[i]);
      PendingIsNotAborted(t.journal, ids[i]);
      ProtectedExactly(events[i].semantic);
    }
    AllCount(t.records, t.journal, h, lo, createdAt);
    assert ReleasesUpTo(c, t, h, createdAt) > c.maxProtectedReleases;
  }

  // ---------------------------------------------------------------- such releases exist

  function Strokes(n: nat): (s: string)
    ensures |s| == n
  {
    seq(n, i => 'x')
  }

  /** A protected release of a principal's direct identifier, on a receipt of its own. */
  function SomeRelease(c: Config, n: nat): Event {
    var subject := SubjectDomain("id", DirectIdentifier, [], [], c.sha(NamespacePayload(c.casefold("id"), DirectIdentifier)));
    Event(Scope("p", None, subject, c.sha(ScopePayload("p", "@principal", subject.namespaceSha256))),
          "", Strokes(n), "", SemanticRelease([], [], [], [], [], ["COUNT"], None, ""), None)
  }

  lemma ReleasesExist(c: Config, n: nat)
    ensures AreReleases(c, seq(n, i requires 0 <= i < n => SomeRelease(c, i)), seq(n, i requires 0 <= i < n => Strokes(i)),
                        SomeRelease(c, 0).scope)
  {
    var ids := seq(n, i requires 0 <= i < n => Strokes(i));
    forall i, j | 0 <= i < j < n ensures Strokes(i) != Strokes(j) {
      assert |Strokes(i)| != |Strokes(j)|;
    }
  }

  /** So, wherever some SQL is accepted, any backward pair of readings breaks the budget in some run. */
  lemma BudgetNeedsOrderedReadings(c: Config, sql: string, dialect: string, evaluatedAt: int, createdAt: int)
    returns (actions: seq<Action>)
    requires CollisionFree(c) && ValidBudget(c) && 0 < c.windowMicroseconds && createdAt < evaluatedAt
    requires c.canonicalize(sql, dialect).Some?
    ensures ValidActions(c, actions) && actions != []
    ensures forall i | 0 <= i < |actions| - 1 :: Governed(actions[i])
    ensures var last := actions[|actions| - 1];
            last.Evaluate? && (last.evaluatedAt, last.createdAt) == (evaluatedAt, createdAt)
    ensures !WithinBudget(c, Run(c, actions).tables)
  {
    hide AreReleases, SomeRelease, Strokes, Run, RunFrom, WithinBudget;
    var n := c.maxProtectedReleases + 1;
    var events := seq(n, i requires 0 <= i < n => SomeRelease(c, i));
    var ids := seq(n, i requires 0 <= i < n => Strokes(i));
    ReleasesExist(c, n);
    BackwardClockBreaksBudget(c, events, ids, SomeRelease(c, 0).scope, sql, dialect, evaluatedAt, createdAt);
    actions := ReleaseRun(c, events, ids, sql, dialect, evaluatedAt, createdAt);
  }

  /** For instance, a budget of one in ten seconds admits two when the clock steps back by fifteen. */
  lemma BudgetOfOneAdmitsTwo(c: Config, e1: Event, e2: Event, sql: string, dialect: string, id1: string, id2: string)
    requires CollisionFree(c) && c.maxProtectedReleases == 1 && c.windowMicroseconds == 10_000_000
    requires AreReleases(c, [e1, e2], [id1, id2], e1.scope) && c.canonicalize(sql, dialect).Some?
    ensures var actions := [Evaluate(e1, sql, dialect, 5_000_000, 5_000_000, id1),
                            Evaluate(e2, sql, dialect, 20_000_000, 5_000_000, id2)];
            ReleasesUpTo(c, Run(c, actions).tables, e1.scope.scopeSha256, 5_000_000) == 2
  {
    hide AreReleases, Run, ReleasesUpTo;
    BackwardClockBreaksBudget(c, [e1, e2], [id1, id2], e1.scope, sql, dialect, 20_000_000, 5_000_000);
    assert ReleaseRun(c, [e1, e2], [id1, id2], sql, dialect, 20_000_000, 5_000_000)
        == [Evaluate(e1, sql, dialect, 5_000_000, 5_000_000, id1),
            Evaluate(e2, sql, dialect, 20_000_000, 5_000_000, id2)];
  }
}
