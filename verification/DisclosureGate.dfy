/** What the gate answers and writes for a new receipt, in terms of the stored rows: the decision counts rows of the
  * tables, and the appended row is described column by column.
  */
module DisclosureGate {
  import opened Categories
  import opened Foundations
  import opened DisclosureModels
  import opened DisclosureComposition
  import opened DisclosureRuns
  import opened DisclosureTheorems
  import opened DisclosureAudit
  import T = DisclosureTables

  // ---------------------------------------------------------------- counting rows

  /** A row that takes budget: of this scope, exposing subjects, in the window and not aborted. */
  predicate TakesBudget(row: T.Row, journal: seq<T.Transition>, h: string, horizon: int) {
    && row.scopeSha256 == h && ExposesSubjects(row.payload.event.semantic) && horizon < row.payload.createdAt
    && T.StatesOf(journal, row.recordId) != [T.Pending, T.Aborted]
  }

  /** The rows among the first `n` that take budget. */
  function Taking(rows: seq<T.Row>, journal: seq<T.Transition>, h: string, n: nat, horizon: int): set<nat>
    requires n <= |rows|
  {
    set i: nat | i < n && TakesBudget(rows[i], journal, h, horizon)
  }

  function Active(rows: seq<T.Row>, journal: seq<T.Transition>, h: string): seq<Record> {
    WithoutAborted(journal, T.Payloads(T.RowsOfScope(rows, h)))
  }

  lemma TakingOneMore(rows: seq<T.Row>, journal: seq<T.Transition>, h: string, n: nat, horizon: int)
    requires n < |rows|
    ensures |Taking(rows, journal, h, n + 1, horizon)|
         == |Taking(rows, journal, h, n, horizon)| + if TakesBudget(rows[n], journal, h, horizon) then 1 else 0
  {
    hide TakesBudget;
    var before := Taking(rows, journal, h, n, horizon);
    assert Taking(rows, journal, h, n + 1, horizon)
        == before + if TakesBudget(rows[n], journal, h, horizon) then {n} else {};
  }

  /** The count over the active history is the number of rows that take budget. */
  lemma {:induction false} HistoryCounts(rows: seq<T.Row>, journal: seq<T.Transition>, h: string, n: nat, horizon: int)
    requires n <= |rows| && forall i | 0 <= i < |rows| :: T.IndexMatches(rows[i])
    ensures ProtectedAfter(Active(rows[..n], journal, h), horizon) == |Taking(rows, journal, h, n, horizon)|
  {
    hide ExposesSubjects, IsProtected, ProtectedAfter;
    if n == 0 {
      NothingCounts(journal, h, horizon);
    } else {
      HistoryCounts(rows, journal, h, n - 1, horizon);
      TakingOneMore(rows, journal, h, n - 1, horizon);
      HistoryOfLonger(rows[..n - 1], rows[n - 1], journal, h, horizon);
      assert rows[..n] == rows[..n - 1] + [rows[n - 1]];
      ProtectedExactly(rows[n - 1].payload.event.semantic);
    }
  }

  lemma NothingCounts(journal: seq<T.Transition>, h: string, horizon: int)
    ensures ProtectedAfter(Active([], journal, h), horizon) == 0
  {
  }

  /** The rows among the first `n` that the budget theorem counts. */
  function Counting(rows: seq<T.Row>, journal: seq<T.Transition>, h: string, lo: int, hi: int, n: nat): set<nat>
    requires n <= |rows|
  {
    set i: nat | i < n && CountsInWindow(journal, rows[i], h, lo, hi)
  }

  lemma CountingOneMore(rows: seq<T.Row>, journal: seq<T.Transition>, h: string, lo: int, hi: int, n: nat)
    requires n < |rows|
    ensures |Counting(rows, journal, h, lo, hi, n + 1)|
         == |Counting(rows, journal, h, lo, hi, n)| + if CountsInWindow(journal, rows[n], h, lo, hi) then 1 else 0
  {
    hide CountsInWindow;
    assert Counting(rows, journal, h, lo, hi, n + 1)
        == Counting(rows, journal, h, lo, hi, n) + if CountsInWindow(journal, rows[n], h, lo, hi) then {n} else {};
  }

  /** The releases of the budget theorem are a number of rows too. */
  lemma {:induction false} ReleasesAreCounted(
    rows: seq<T.Row>, journal: seq<T.Transition>, h: string, lo: int, hi: int, n: nat)
    requires n <= |rows|
    ensures Releases(rows[..n], journal, h, lo, hi) == |Counting(rows, journal, h, lo, hi, n)|
  {
    if n > 0 {
      hide CountsInWindow, Releases, Counting;
      ReleasesAreCounted(rows, journal, h, lo, hi, n - 1);
      ReleasesOfLonger(rows[..n - 1], rows[n - 1], journal, h, lo, hi);
      assert rows[..n] == rows[..n - 1] + [rows[n - 1]];
      CountingOneMore(rows, journal, h, lo, hi, n - 1);
    }
  }

  /** The budget, as a number of rows: in every governed run, in every scope and window. */
  lemma BudgetBoundsRows(c: Config, actions: seq<Action>, h: string, hi: int)
    requires CollisionFree(c) && ValidBudget(c) && ValidActions(c, actions)
    requires forall a | a in actions :: Governed(a)
    ensures var t := Run(c, actions).tables;
            |Counting(t.records, t.journal, h, hi - c.windowMicroseconds, hi, |t.records|)| <= c.maxProtectedReleases
  {
    hide Counting, Releases, Run, Governed, ValidActions;
    var t := Run(c, actions).tables;
    BudgetHolds(c, actions);
    ReleasesAreCounted(t.records, t.journal, h, hi - c.windowMicroseconds, hi, |t.records|);
    assert t.records[..|t.records|] == t.records;
    assert ReleasesUpTo(c, t, h, hi) <= c.maxProtectedReleases;
  }

  // ---------------------------------------------------------------- legacy rows

  /** A row that exposes subjects and has no composition metadata. */
  predicate BlocksScope(row: T.Row, h: string) {
    row.scopeSha256 == h && ExposesSubjects(row.payload.event.semantic) && row.payload.event.composition == None
  }

  predicate IsFirstBlock(rows: seq<T.Row>, h: string, i: nat) {
    i < |rows| && BlocksScope(rows[i], h) && forall j | 0 <= j < i :: !BlocksScope(rows[j], h)
  }

  lemma {:induction false} FirstBlockExists(rows: seq<T.Row>, h: string, i: nat) returns (first: nat)
    requires i < |rows| && BlocksScope(rows[i], h)
    ensures IsFirstBlock(rows, h, first)
  {
    hide BlocksScope;
    if j: nat :| j < i && BlocksScope(rows[j], h) {
      first := FirstBlockExists(rows, h, j);
    } else {
      first := i;
    }
  }

  lemma {:induction false} ActivePrefix(rows: seq<T.Row>, journal: seq<T.Transition>, h: string, n: nat)
    requires n <= |rows|
    ensures Active(rows[..n], journal, h) <= Active(rows, journal, h)
    decreases |rows| - n
  {
    if n == |rows| {
      assert rows[..n] == rows;
    } else {
      ActivePrefix(rows, journal, h, n + 1);
      assert rows[..n + 1] == rows[..n] + [rows[n]];
      ActiveOfLonger(rows[..n], rows[n], journal, h);
    }
  }

  lemma ActiveOfLonger(rows: seq<T.Row>, row: T.Row, journal: seq<T.Transition>, h: string)
    ensures Active(rows + [row], journal, h)
         == Active(rows, journal, h)
            + if row.scopeSha256 == h && !IsAborted(journal, row.payload.recordId) then [row.payload] else []
  {
    hide IsAborted, T.RowsOfScope, T.Payloads, WithoutAborted;
    var selected := T.RowsOfScope(rows, h);
    ScopeAfterInsert(rows, row, h);
    if row.scopeSha256 == h {
      PayloadsOneMore(selected, row);
      ActiveAfterInsert(journal, T.Payloads(selected), row.payload);
    } else {
      assert selected + [] == selected;
    }
  }

  /** The loop over the history stops at the first blocking row, and nowhere when there is none. */
  lemma StopsAtFirstBlock(rows: seq<T.Row>, journal: seq<T.Transition>, h: string, i: nat)
    requires IsFirstBlock(rows, h, i)
    requires !IsAborted(journal, rows[i].payload.recordId)
    requires forall k | 0 <= k < |rows| :: CompositionIsConsistent(rows[k].payload.event)
    ensures var active := Active(rows, journal, h);
            var k := FirstStop(active, 0);
            && k < |active| && active[..k] == Active(rows[..i], journal, h)
            && CompositionIsConsistent(active[k].event)
  {
    hide CompositionIsConsistent, ExposesSubjects, IsProtected, IsAborted;
    var active, before := Active(rows, journal, h), Active(rows[..i], journal, h);
    ActivePrefix(rows, journal, h, i + 1);
    assert rows[..i + 1] == rows[..i] + [rows[i]];
    ActiveOfLonger(rows[..i], rows[i], journal, h);
    assert active[|before|] == rows[i].payload;
    ProtectedExactly(rows[i].payload.event.semantic);
    assert StopsAt(active[|before|]);
    ActivePrefix(rows, journal, h, i);
    forall r | r in before ensures !StopsAt(r) {
      var k := ActiveRow(rows[..i], journal, h, r);
      ProtectedExactly(rows[k].payload.event.semantic);
    }
    forall k | 0 <= k < |before| ensures !StopsAt(active[k]) {
      assert active[k] == before[k] && before[k] in before;
    }
    assert FirstStop(active, 0) == |before|;
  }

  lemma NeverStops(rows: seq<T.Row>, journal: seq<T.Transition>, h: string)
    requires forall i | 0 <= i < |rows| :: !BlocksScope(rows[i], h) && CompositionIsConsistent(rows[i].payload.event)
    ensures FirstStop(Active(rows, journal, h), 0) == |Active(rows, journal, h)|
  {
    hide CompositionIsConsistent, ExposesSubjects, IsProtected, IsAborted;
    var active := Active(rows, journal, h);
    var k := FirstStop(active, 0);
    if k < |active| {
      var i := ActiveRow(rows, journal, h, active[k]);
      ProtectedExactly(rows[i].payload.event.semantic);
      assert false;
    }
  }

  // ---------------------------------------------------------------- the row that is written

  /** The previous hash of a scope: none for its first row, else the content hash of its last one. */
  predicate IsHeadOf(rows: seq<T.Row>, h: string, head: Option<string>) {
    && (head == None <==> forall i | 0 <= i < |rows| :: rows[i].scopeSha256 != h)
    && (forall i | 0 <= i < |rows| && rows[i].scopeSha256 == h && (forall j | i < j < |rows| :: rows[j].scopeSha256 != h) ::
          head == Some(rows[i].contentSha256))
  }

  lemma {:induction false} HeadIsLastOfScope(rows: seq<T.Row>, h: string)
    requires forall i | 0 <= i < |rows| :: T.IndexMatches(rows[i])
    ensures var history := T.Payloads(T.RowsOfScope(rows, h)); IsHeadOf(rows, h, HashBefore(history, |history|))
  {
    if rows != [] {
      hide IsHeadOf;
      var init, last := rows[..|rows| - 1], rows[|rows| - 1];
      assert forall i | 0 <= i < |init| :: T.IndexMatches(init[i]) <==> T.IndexMatches(rows[i]);
      HeadIsLastOfScope(init, h);
      HeadMoves(init, last, h);
      assert rows == init + [last];
    }
  }

  lemma HeadMoves(rows: seq<T.Row>, row: T.Row, h: string)
    requires T.IndexMatches(row)
    requires var before := T.Payloads(T.RowsOfScope(rows, h)); IsHeadOf(rows, h, HashBefore(before, |before|))
    ensures var after := T.Payloads(T.RowsOfScope(rows + [row], h)); IsHeadOf(rows + [row], h, HashBefore(after, |after|))
  {
    hide T.RowsOfScope;
    var selected := T.RowsOfScope(rows, h);
    ScopeAfterInsert(rows, row, h);
    if row.scopeSha256 == h {
      HeadIsNow(rows, row, h);
    } else {
      assert selected + [] == selected;
      HeadStays(rows, row, h, HashBefore(T.Payloads(selected), |selected|));
    }
  }

  lemma HeadIsNow(rows: seq<T.Row>, row: T.Row, h: string)
    requires row.scopeSha256 == h
    ensures IsHeadOf(rows + [row], h, Some(row.contentSha256))
  {
    assert (rows + [row])[|rows|] == row;
  }

  lemma HeadStays(rows: seq<T.Row>, row: T.Row, h: string, head: Option<string>)
    requires row.scopeSha256 != h && IsHeadOf(rows, h, head)
    ensures IsHeadOf(rows + [row], h, head)
  {
    var longer := rows + [row];
    assert forall i | 0 <= i < |rows| :: longer[i] == rows[i];
    forall i | 0 <= i < |longer| && longer[i].scopeSha256 == h && (forall j | i < j < |longer| :: longer[j].scopeSha256 != h)
      ensures head == Some(longer[i].contentSha256)
    {
      assert forall j | i < j < |rows| :: rows[j] == longer[j];
    }
  }

  /** A row as the ledger appends it for an event: numbered, bound to the event by its hash, chained to the last
    * row of the scope and sealed by its content hash.
    */
  predicate IsAppended(c: Config, rows: seq<T.Row>, row: T.Row, event: Event, createdAt: int, recordId: string) {
    && row.sequence == |rows| + 1 && row.recordId == recordId && row.receiptId == event.receiptId
    && row.scopeSha256 == event.scope.scopeSha256
    && row.eventSha256 == c.sha(EventPayload(event))
    && IsHeadOf(rows, event.scope.scopeSha256, row.previousContentSha256)
    && var version := if event.composition == None then "1.0" else "1.1";
       && row.contentSha256
          == c.sha(RecordPayload(version, recordId, |rows| + 1, createdAt, event, row.eventSha256, row.previousContentSha256))
       && row.payload == Record(version, recordId, |rows| + 1, createdAt, event, row.eventSha256,
                                row.previousContentSha256, row.contentSha256)
  }

  lemma NewRowIsAppended(c: Config, rows: seq<T.Row>, event: Event, createdAt: int, recordId: string)
    requires SoundRows(c, rows)
    ensures var history := T.Payloads(T.RowsOfScope(rows, event.scope.scopeSha256));
            IsAppended(c, rows, T.RowOf(T.NewRecord(c, rows, event, history, createdAt, recordId)), event, createdAt, recordId)
  {
    hide ValidRecord, CompositionIsConsistent, IsHeadOf;
    forall i | 0 <= i < |rows| ensures T.IndexMatches(rows[i]) {
      assert T.RowIsSound(c, rows[i]);
    }
    HeadIsLastOfScope(rows, event.scope.scopeSha256);
    if rows != [] {
      assert T.RowIsSound(c, rows[|rows| - 1]);
    }
  }

  // ---------------------------------------------------------------- the decision

  /** The event as it is recorded: its metadata names its protection, its family and its keyed cohort. */
  function Bound(c: Config, event: Event, canonical: string): Event {
    event.(composition := Some(
      Composition(ExposesSubjects(event.semantic), event.semantic.semanticSha256, c.hmac(canonical))))
  }

  lemma BindsAs(c: Config, event: Event, sql: string, dialect: string)
    requires c.canonicalize(sql, dialect).Some?
    ensures BindEvent(c, event, sql, dialect) == Some(Bound(c, event, c.canonicalize(sql, dialect).value))
  {
    ProtectedExactly(event.semantic);
  }

  predicate IsNewReceipt(t: Tables, a: Action)
    requires a.Evaluate?
  {
    forall i | 0 <= i < |t.records| ::
      t.records[i].receiptId != a.event.receiptId && t.records[i].recordId != a.recordId
  }

  lemma NewReceiptIsUnknown(t: Tables, a: Action)
    requires a.Evaluate? && IsNewReceipt(t, a)
    ensures T.FindReceipt(t.records, a.event.receiptId).None? && T.FindRecordId(t.records, a.recordId).None?
  {
  }

  /** What the decision for a new receipt says, and why. */
  predicate TellsDecision(c: Config, t: Tables, a: Action, d: T.Decision)
    requires a.Evaluate?
  {
    var h, n, horizon := a.event.scope.scopeSha256, |t.records|, a.evaluatedAt - c.windowMicroseconds;
    var exposes, taking := ExposesSubjects(a.event.semantic), |Taking(t.records, t.journal, h, n, horizon)|;
    && d.protectedRelease == exposes
    && if exists i | 0 <= i < n :: BlocksScope(t.records[i], h) then
         && d.rule == LegacyHistoryBlock && !d.allowed
         && exists i | 0 <= i < n :: IsFirstBlock(t.records, h, i)
              && d.priorProtectedCount == |Taking(t.records, t.journal, h, i, horizon)| + 1
       else
         && d.priorProtectedCount == taking
         && (d.allowed <==> !exposes || taking < c.maxProtectedReleases)
         && (!exposes ==> d.rule == UnprotectedRelease)
         && (exposes && taking >= c.maxProtectedReleases ==> d.rule == CumulativeBudgetExhausted)
         && (exposes && taking < c.maxProtectedReleases && taking == 0 ==> d.rule == FirstProtectedRelease)
         && (exposes && taking < c.maxProtectedReleases && taking > 0 ==> d.rule == ProtectedReleaseWithinBudget)
  }

  /** What an allowed release on a new receipt leaves behind, and what the caller gets. */
  predicate WritesRelease(c: Config, t: Tables, t': Tables, a: Action, commitment: Option<Commitment>)
    requires a.Evaluate? && c.canonicalize(a.sql, a.dialect).Some?
  {
    var n := |t.records|;
    && t'.claims == t.claims && t'.journal == t.journal + [T.Transition(a.recordId, T.Pending)]
    && |t'.records| == n + 1 && t'.records[..n] == t.records
    && IsAppended(c, t.records, t'.records[n], Bound(c, a.event, c.canonicalize(a.sql, a.dialect).value), a.createdAt, a.recordId)
    && commitment.Some? && Identifies(t'.records[n], commitment.value)
  }

  lemma StoppedEvaluation(c: Config, history: seq<Record>, candidate: Event, evaluatedAt: int, k: nat)
    requires CompositionIsConsistent(candidate) && candidate.composition.Some?
    requires k == FirstStop(history, 0) < |history| && CompositionIsConsistent(history[k].event)
    ensures EvaluationOf(c, history, candidate, evaluatedAt)
         == Ok(Evaluation(false, LegacyHistoryBlock, candidate.composition.value.protectedRelease,
                          ProtectedAfter(history[..k], evaluatedAt - c.windowMicroseconds) + 1))
  {
  }

  lemma UnstoppedEvaluation(c: Config, history: seq<Record>, candidate: Event, evaluatedAt: int)
    requires CompositionIsConsistent(candidate) && candidate.composition.Some?
    requires FirstStop(history, 0) == |history|
    ensures var e := EvaluationOf(c, history, candidate, evaluatedAt);
            var exposes := candidate.composition.value.protectedRelease;
            var prior := ProtectedAfter(history, evaluatedAt - c.windowMicroseconds);
            && e.Ok? && e.value.protectedRelease == exposes && e.value.priorProtectedCount == prior
            && (e.value.allowed <==> !exposes || prior < c.maxProtectedReleases)
            && (!exposes ==> e.value.rule == UnprotectedRelease)
            && (exposes && prior >= c.maxProtectedReleases ==> e.value.rule == CumulativeBudgetExhausted)
            && (exposes && prior < c.maxProtectedReleases && prior == 0 ==> e.value.rule == FirstProtectedRelease)
            && (exposes && prior < c.maxProtectedReleases && prior > 0 ==> e.value.rule == ProtectedReleaseWithinBudget)
  {
    hide CompositionIsConsistent;
    assert history[..|history|] == history;
  }

  lemma RowsAreConsistent(c: Config, t: Tables)
    requires Inv(c, t)
    ensures forall i | 0 <= i < |t.records| ::
              T.IndexMatches(t.records[i]) && CompositionIsConsistent(t.records[i].payload.event)
  {
    hide ValidRecord, CompositionIsConsistent, JournalInv, ClaimsInv;
    forall i | 0 <= i < |t.records|
      ensures T.IndexMatches(t.records[i]) && CompositionIsConsistent(t.records[i].payload.event)
    {
      assert T.RowIsSound(c, t.records[i]);
    }
  }

  lemma EvaluationTells(c: Config, t: Tables, a: Action)
    requires CollisionFree(c) && Inv(c, t) && a.Evaluate? && ValidAction(c, a)
    requires c.canonicalize(a.sql, a.dialect).Some?
    ensures var active := Active(t.records, t.journal, a.event.scope.scopeSha256);
            var e := EvaluationOf(c, active, BindEvent(c, a.event, a.sql, a.dialect).value, a.evaluatedAt);
            e.Ok? && TellsDecision(
              c, t, a, T.Decision(e.value.allowed, e.value.rule, e.value.protectedRelease, e.value.priorProtectedCount, None))
  {
    hide Inv, EvaluationOf, Taking, BlocksScope, ExposesSubjects, IsProtected, ProtectedAfter, Active;
    var h, horizon := a.event.scope.scopeSha256, a.evaluatedAt - c.windowMicroseconds;
    var rows := t.records;
    var active, bound := Active(rows, t.journal, h), BindEvent(c, a.event, a.sql, a.dialect).value;
    RowsAreConsistent(c, t);
    ProtectedExactly(a.event.semantic);
    assert rows[..|rows|] == rows;
    HistoryCounts(rows, t.journal, h, |rows|, horizon);
    if i: nat :| i < |rows| && BlocksScope(rows[i], h) {
      var first := FirstBlockExists(rows, h, i);
      BlockingRowStays(c, t, first, h);
      StopsAtFirstBlock(rows, t.journal, h, first);
      HistoryCounts(rows, t.journal, h, first, horizon);
      StoppedEvaluation(c, active, bound, a.evaluatedAt, FirstStop(active, 0));
    } else {
      NeverStops(rows, t.journal, h);
      UnstoppedEvaluation(c, active, bound, a.evaluatedAt);
    }
  }

  /** A row without metadata was never journalled, so it cannot have been aborted. */
  lemma BlockingRowStays(c: Config, t: Tables, i: nat, h: string)
    requires Inv(c, t) && i < |t.records| && BlocksScope(t.records[i], h)
    ensures !IsAborted(t.journal, t.records[i].payload.recordId)
  {
    hide ValidRecord, CompositionIsConsistent, ExposesSubjects;
    assert T.RowIsSound(c, t.records[i]);
    FindExisting(t.records, i);
    assert JournalEntryInv(t, t.records[i].recordId);
  }

  /** In every reachable state, whatever is offered on a new receipt: the gate answers, refuses for a legacy row of
    * the scope or a spent budget and for nothing else, writes nothing then, and otherwise appends one chained row
    * and its PENDING entry and returns that row's commitment.
    */
  lemma GateDecides(c: Config, actions: seq<Action>, a: Action)
    requires CollisionFree(c) && ValidActions(c, actions) && a.Evaluate? && ValidAction(c, a)
    requires c.canonicalize(a.sql, a.dialect).Some? && IsNewReceipt(Run(c, actions).tables, a)
    ensures var t := Run(c, actions).tables;
            var o := Decide(c, t, a);
            && o.result.Ok? && TellsDecision(c, t, a, o.result.value)
            && (if o.result.value.allowed then WritesRelease(c, t, o.tables, a, o.result.value.commitment)
                else o.tables == t && o.result.value.commitment == None)
  {
    hide T.EvaluateAndCommit, TellsDecision, IsAppended, EvaluationOf, Identifies;
    var t := Run(c, actions).tables;
    RunKeepsInv(c, actions);
    SoundGateDecides(c, t, a);
  }

  lemma SoundGateDecides(c: Config, t: Tables, a: Action)
    requires CollisionFree(c) && Inv(c, t) && a.Evaluate? && ValidAction(c, a)
    requires c.canonicalize(a.sql, a.dialect).Some? && IsNewReceipt(t, a)
    ensures var o := Decide(c, t, a);
            && o.result.Ok? && TellsDecision(c, t, a, o.result.value)
            && (if o.result.value.allowed then WritesRelease(c, t, o.tables, a, o.result.value.commitment)
                else o.tables == t && o.result.value.commitment == None)
  {
    hide Inv, EvaluationOf, IsAppended, TellsDecision, T.Release, T.EvaluateAndCommit;
    var audit := T.Payloads(T.RowsOfScope(t.records, a.event.scope.scopeSha256));
    var bound := BindEvent(c, a.event, a.sql, a.dialect).value;
    NewReceiptIsUnknown(t, a);
    EvaluationSplits(c, t, a.event, a.sql, a.dialect, a.evaluatedAt, a.createdAt, a.recordId);
    EvaluationTells(c, t, a);
    BindsAs(c, a.event, a.sql, a.dialect);
    ReleaseFollows(c, t, bound, audit, WithoutAborted(t.journal, audit), a);
    var d := Decide(c, t, a).result.value;
    CommitmentDoesNotDecide(c, t, a, d, d.(commitment := None));
  }

  lemma CommitmentDoesNotDecide(c: Config, t: Tables, a: Action, d: T.Decision, e: T.Decision)
    requires a.Evaluate? && e == d.(commitment := None)
    ensures TellsDecision(c, t, a, d) <==> TellsDecision(c, t, a, e)
  {
    hide Taking, BlocksScope, ExposesSubjects;
  }

  /** The branch for a new receipt answers what the evaluation says, and writes exactly when it allows. */
  lemma ReleaseFollows(c: Config, t: Tables, bound: Event, audit: seq<Record>, active: seq<Record>, a: Action)
    requires a.Evaluate? && Inv(c, t) && CompositionIsConsistent(bound)
    requires bound.scope == a.event.scope && bound.receiptId == a.event.receiptId && IsNewReceipt(t, a)
    requires audit == T.Payloads(T.RowsOfScope(t.records, bound.scope.scopeSha256))
    requires EvaluationOf(c, active, bound, a.evaluatedAt).Ok?
    ensures var o := T.Release(c, t, bound, audit, active, a.evaluatedAt, a.createdAt, a.recordId);
            var e := EvaluationOf(c, active, bound, a.evaluatedAt).value;
            && o.result.Ok?
            && o.result.value == T.Decision(e.allowed, e.rule, e.protectedRelease, e.priorProtectedCount, o.result.value.commitment)
            && if e.allowed then
                 && o.tables.claims == t.claims && o.tables.journal == t.journal + [T.Transition(a.recordId, T.Pending)]
                 && |o.tables.records| == |t.records| + 1 && o.tables.records[..|t.records|] == t.records
                 && IsAppended(c, t.records, o.tables.records[|t.records|], bound, a.createdAt, a.recordId)
                 && o.result.value.commitment.Some?
                 && Identifies(o.tables.records[|t.records|], o.result.value.commitment.value)
               else o.tables == t && o.result.value.commitment == None
  {
    hide EvaluationOf, IsAppended, CompositionIsConsistent, ClaimsInv, T.RowIsSound, UniqueRows, ChainedScopes;
    NewReceiptIsUnknown(t, a);
    if EvaluationOf(c, active, bound, a.evaluatedAt).value.allowed {
      NewRowIsAppended(c, t.records, bound, a.createdAt, a.recordId);
      AllowedReleaseIsWritten(c, t, bound, audit, active, a.evaluatedAt, a.createdAt, a.recordId);
    }
  }

  // ---------------------------------------------------------------- replays and errors

  /** A row of this scope that exposes subjects and is not aborted, of any age. */
  predicate IsStanding(row: T.Row, journal: seq<T.Transition>, h: string) {
    && row.scopeSha256 == h && ExposesSubjects(row.payload.event.semantic)
    && T.StatesOf(journal, row.recordId) != [T.Pending, T.Aborted]
  }

  function Standing(rows: seq<T.Row>, journal: seq<T.Transition>, h: string, n: nat): set<nat>
    requires n <= |rows|
  {
    set i: nat | i < n && IsStanding(rows[i], journal, h)
  }

  lemma StandingOneMore(rows: seq<T.Row>, journal: seq<T.Transition>, h: string, n: nat)
    requires n < |rows|
    ensures |Standing(rows, journal, h, n + 1)|
         == |Standing(rows, journal, h, n)| + if IsStanding(rows[n], journal, h) then 1 else 0
  {
    hide IsStanding;
    assert Standing(rows, journal, h, n + 1)
        == Standing(rows, journal, h, n) + if IsStanding(rows[n], journal, h) then {n} else {};
  }

  lemma CountOfLonger(history: seq<Record>, r: Record)
    ensures T.ProtectedCount(history + [r])
         == T.ProtectedCount(history) + if IsProtected(r.event.semantic) then 1 else 0
  {
    assert (history + [r])[..|history|] == history;
  }

  lemma NothingStands(journal: seq<T.Transition>, h: string)
    ensures T.ProtectedCount(Active([], journal, h)) == 0
  {
  }

  lemma {:induction false} StandingIsCounted(rows: seq<T.Row>, journal: seq<T.Transition>, h: string, n: nat)
    requires n <= |rows| && forall i | 0 <= i < |rows| :: T.IndexMatches(rows[i])
    ensures T.ProtectedCount(Active(rows[..n], journal, h)) == |Standing(rows, journal, h, n)|
  {
    hide ExposesSubjects, IsProtected, T.ProtectedCount, Active, Standing;
    if n == 0 {
      NothingStands(journal, h);
      assert Standing(rows, journal, h, 0) == {} by {
        NoneStands(rows, journal, h);
      }
    } else {
      var row := rows[n - 1];
      StandingIsCounted(rows, journal, h, n - 1);
      StandingOneMore(rows, journal, h, n - 1);
      assert rows[..n] == rows[..n - 1] + [row];
      ActiveOfLonger(rows[..n - 1], row, journal, h);
      ProtectedExactly(row.payload.event.semantic);
      var before := Active(rows[..n - 1], journal, h);
      CountOfLonger(before, row.payload);
      assert before + [] == before;
    }
  }

  lemma NoneStands(rows: seq<T.Row>, journal: seq<T.Transition>, h: string)
    ensures Standing(rows, journal, h, 0) == {}
  {
  }

  /** What a replay tells: that it is one, whether the release exposes subjects, and how many standing rows of the
    * scope do.
    */
  lemma ReplayTells(c: Config, actions: seq<Action>, a: Action, i: nat)
    requires CollisionFree(c) && ValidActions(c, actions) && a.Evaluate? && ValidAction(c, a)
    requires c.canonicalize(a.sql, a.dialect).Some?
    requires i < |Run(c, actions).tables.records|
    requires Run(c, actions).tables.records[i].receiptId == a.event.receiptId
    requires Records(Run(c, actions).tables.records[i].payload.event, a.event, c.hmac(c.canonicalize(a.sql, a.dialect).value))
    requires !IsAborted(Run(c, actions).tables.journal, Run(c, actions).tables.records[i].recordId)
    ensures var t := Run(c, actions).tables;
            var result := Decide(c, t, a).result;
            && result.Ok? && result.value.allowed && result.value.rule == IdempotentReplay
            && result.value.protectedRelease == ExposesSubjects(a.event.semantic)
            && result.value.priorProtectedCount
               == |Standing(t.records, t.journal, a.event.scope.scopeSha256, |t.records|)|
            && result.value.commitment.Some? && Identifies(t.records[i], result.value.commitment.value)
  {
    hide T.EvaluateAndCommit, Standing, Identifies, ExposesSubjects, IsProtected, T.RowIsSound, Active, Run;
    var t, h := Run(c, actions).tables, a.event.scope.scopeSha256;
    RunKeepsInv(c, actions);
    RowsAreConsistent(c, t);
    ReplayOfRow(c, t, i, a.event, a.sql, a.dialect, a.evaluatedAt, a.createdAt, a.recordId);
    StandingIsCounted(t.records, t.journal, h, |t.records|);
    assert t.records[..|t.records|] == t.records;
    ReplayCounts(c, t, a);
  }

  lemma ReplayCounts(c: Config, t: Tables, a: Action)
    requires CollisionFree(c) && Inv(c, t) && a.Evaluate? && ValidAction(c, a)
    requires c.canonicalize(a.sql, a.dialect).Some?
    requires Decide(c, t, a).result.Ok? && Decide(c, t, a).result.value.rule == IdempotentReplay
    ensures var d := Decide(c, t, a).result.value;
            && d.protectedRelease == ExposesSubjects(a.event.semantic)
            && d.priorProtectedCount == T.ProtectedCount(Active(t.records, t.journal, a.event.scope.scopeSha256))
  {
    hide Inv, T.EvaluateAndCommit, ExposesSubjects, IsProtected, T.RowIsSound, T.ProtectedCount, T.AppendEvent, T.InsertTransition;
    EvaluationSplits(c, t, a.event, a.sql, a.dialect, a.evaluatedAt, a.createdAt, a.recordId);
    ProtectedExactly(a.event.semantic);
  }

  /** No legacy row stands in the way, and the window has room for the release. */
  predicate HasRoom(c: Config, t: Tables, a: Action)
    requires a.Evaluate?
  {
    var h, n := a.event.scope.scopeSha256, |t.records|;
    && (forall i | 0 <= i < n :: !BlocksScope(t.records[i], h))
    && (ExposesSubjects(a.event.semantic) ==>
          |Taking(t.records, t.journal, h, n, a.evaluatedAt - c.windowMicroseconds)| < c.maxProtectedReleases)
  }

  predicate IsTaken(t: Tables, recordId: string) {
    exists i | 0 <= i < |t.records| :: t.records[i].recordId == recordId
  }

  predicate ReceiptIsRecorded(t: Tables, receiptId: string) {
    exists i | 0 <= i < |t.records| :: t.records[i].receiptId == receiptId
  }

  /** The receipt is on record with other content or cohort, or was aborted. */
  predicate ReceiptConflicts(t: Tables, event: Event, cohortHmac: string) {
    exists i | 0 <= i < |t.records| ::
      && t.records[i].receiptId == event.receiptId
      && (!Records(t.records[i].payload.event, event, cohortHmac) || IsAborted(t.journal, t.records[i].recordId))
  }

  /** Every error an evaluation can raise in a reachable state, and exactly when: the SQL is refused, the receipt
    * conflicts, or a release that would be allowed meets a record identifier that is taken. An error writes
    * nothing.
    */
  lemma ErrorsAreExact(c: Config, actions: seq<Action>, a: Action)
    requires CollisionFree(c) && ValidActions(c, actions) && a.Evaluate? && ValidAction(c, a)
    ensures var t := Run(c, actions).tables;
            var o := Decide(c, t, a);
            var canonical := c.canonicalize(a.sql, a.dialect);
            && (o.result == Err(T.CompositionRefused) <==> canonical == None)
            && (o.result == Err(T.Conflict) <==>
                  canonical.Some? && ReceiptConflicts(t, a.event, c.hmac(canonical.value)))
            && (o.result == Err(T.Integrity) <==>
                  && canonical.Some? && !ReceiptIsRecorded(t, a.event.receiptId)
                  && IsTaken(t, a.recordId) && HasRoom(c, t, a))
            && (o.result.Err? ==>
                  o.tables == t && o.result.error in {T.CompositionRefused, T.Conflict, T.Integrity})
  {
    hide T.EvaluateAndCommit, HasRoom, Records, IsAborted, Run;
    var t := Run(c, actions).tables;
    RunKeepsInv(c, actions);
    if c.canonicalize(a.sql, a.dialect).None? {
      RefusedSqlRaises(c, t, a);
    } else if i: nat :| i < |t.records| && t.records[i].receiptId == a.event.receiptId {
      OneRowPerReceipt(t, i);
      RowIds(c, t, i);
      ReplayOfRow(c, t, i, a.event, a.sql, a.dialect, a.evaluatedAt, a.createdAt, a.recordId);
    } else if IsTaken(t, a.recordId) {
      TakenIdentifierRaises(c, t, a);
    } else {
      SoundGateDecides(c, t, a);
    }
  }

  lemma RefusedSqlRaises(c: Config, t: Tables, a: Action)
    requires a.Evaluate? && c.canonicalize(a.sql, a.dialect).None?
    ensures Decide(c, t, a) == T.Outcome(t, Err(T.CompositionRefused))
  {
  }

  lemma OneRowPerReceipt(t: Tables, i: nat)
    requires i < |t.records| && UniqueRows(t.records)
    ensures forall k | 0 <= k < |t.records| && t.records[k].receiptId == t.records[i].receiptId :: k == i
  {
  }

  lemma RowIds(c: Config, t: Tables, i: nat)
    requires Inv(c, t) && i < |t.records|
    ensures t.records[i].recordId == t.records[i].payload.recordId
  {
    RowsAreConsistent(c, t);
  }

  lemma TakenIdentifierRaises(c: Config, t: Tables, a: Action)
    requires CollisionFree(c) && Inv(c, t) && a.Evaluate? && ValidAction(c, a)
    requires c.canonicalize(a.sql, a.dialect).Some?
    requires !ReceiptIsRecorded(t, a.event.receiptId) && IsTaken(t, a.recordId)
    ensures var o := Decide(c, t, a);
            o.tables == t && if HasRoom(c, t, a) then o.result == Err(T.Integrity) else o.result.Ok?
  {
    hide Inv, EvaluationOf, T.EvaluateAndCommit, Taking, BlocksScope, ExposesSubjects, T.InsertTransition, CompositionIsConsistent;
    var bound := BindEvent(c, a.event, a.sql, a.dialect).value;
    EvaluationSplits(c, t, a.event, a.sql, a.dialect, a.evaluatedAt, a.createdAt, a.recordId);
    EvaluationTells(c, t, a);
    assert T.FindRecordId(t.records, a.recordId).Some? by {
      var i :| 0 <= i < |t.records| && t.records[i].recordId == a.recordId;
      assert t.records[i] in t.records;
    }
  }
}
