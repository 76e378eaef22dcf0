/** The cumulative-release policy of `disclosure/composition.py`. */
module DisclosureComposition {
  import opened Categories
  import opened Foundations
  import opened DisclosureModels

  datatype Rule =
    | UnprotectedRelease
    | FirstProtectedRelease
    | ProtectedReleaseWithinBudget
    | IdempotentReplay
    | CumulativeBudgetExhausted
    | LegacyHistoryBlock

  datatype Evaluation = Evaluation(allowed: bool, rule: Rule, protectedRelease: bool, priorProtectedCount: nat)

  datatype CompositionError = CompositionError

  predicate IsProtectedCategory(category: Category) {
    category.DirectIdentifier? || category.StablePseudonym? || category.QuasiIdentifier? || category.SensitiveAttribute?
  }

  /** Every aggregate is protected; other output is when its lineage reaches a protected category. */
  predicate IsProtected(semantic: SemanticRelease) {
    || semantic.aggregateFunctions != []
    || exists output <- semantic.outputs, source <- output.sources :: IsProtectedCategory(source.category)
  }

  /** `validate_event_composition` raises exactly when this is false. */
  predicate CompositionIsConsistent(event: Event) {
    event.composition.Some? ==>
      && event.composition.value.releaseFamilySha256 == event.semantic.semanticSha256
      && event.composition.value.protectedRelease == IsProtected(event.semantic)
  }

  /** `build_composition_metadata` followed by the rebuilt event; `None` when the SQL is refused. */
  function BindEvent(c: Config, event: Event, sql: string, dialect: string): (bound: Option<Event>)
    ensures bound.Some? ==> CompositionIsConsistent(bound.value) && bound.value.composition.Some?
    ensures bound.Some? && ValidEvent(c, event) ==> ValidEvent(c, bound.value)
  {
    var canonical := c.canonicalize(sql, dialect);
    if canonical.None? then None
    else
      Some(event.(composition := Some(
        Composition(IsProtected(event.semantic), event.semantic.semanticSha256, c.hmac(canonical.value)))))
  }

  /** Two events that differ in their composition metadata at most. */
  predicate SameRelease(left: Event, right: Event) {
    && left.scope == right.scope && left.credentialId == right.credentialId && left.receiptId == right.receiptId
    && left.policyVersion == right.policyVersion && left.semantic == right.semantic
  }

  /** A recorded event is of the offered release, and its metadata carries this cohort identity. */
  predicate Records(recorded: Event, offered: Event, cohortHmac: string) {
    && SameRelease(recorded, offered)
    && recorded.composition.Some? && recorded.composition.value.cohortHmacSha256 == cohortHmac
  }

  /** Binding yields exactly the consistent event that records the offered release under the keyed cohort
    * identity of its canonical SQL; whatever metadata was offered is dropped.
    */
  lemma BindsExactly(c: Config, recorded: Event, offered: Event, sql: string, dialect: string)
    requires CompositionIsConsistent(recorded)
    ensures BindEvent(c, offered, sql, dialect) == Some(recorded)
       <==> && c.canonicalize(sql, dialect).Some?
            && Records(recorded, offered, c.hmac(c.canonicalize(sql, dialect).value))
  {
    hide IsProtected;
  }

  /** Output that exposes subjects: an aggregate, or lineage that reaches a category other than public and
    * unclassified ones.
    */
  predicate ExposesSubjects(semantic: SemanticRelease) {
    || |semantic.aggregateFunctions| > 0
    || exists i, j | 0 <= i < |semantic.outputs| && 0 <= j < |semantic.outputs[i].sources| ::
         semantic.outputs[i].sources[j].category !in {PublicOrLowRisk, Unclassified}
  }

  lemma ProtectedExactly(semantic: SemanticRelease)
    ensures IsProtected(semantic) <==> ExposesSubjects(semantic)
  {
    if exists i, j | 0 <= i < |semantic.outputs| && 0 <= j < |semantic.outputs[i].sources| ::
         semantic.outputs[i].sources[j].category !in {PublicOrLowRisk, Unclassified} {
      var i, j :| 0 <= i < |semantic.outputs| && 0 <= j < |semantic.outputs[i].sources|
                  && semantic.outputs[i].sources[j].category !in {PublicOrLowRisk, Unclassified};
      assert IsProtectedCategory(semantic.outputs[i].sources[j].category);
    }
    if IsProtected(semantic) && semantic.aggregateFunctions == [] {
      var output, source :| output in semantic.outputs && source in output.sources && IsProtectedCategory(source.category);
      var i :| 0 <= i < |semantic.outputs| && semantic.outputs[i] == output;
      var j :| 0 <= j < |output.sources| && output.sources[j] == source;
    }
  }

  /** A protected record without composition metadata: history that cannot be reasoned about. */
  predicate IsLegacyProtected(r: Record) {
    IsProtected(r.event.semantic) && r.event.composition.None?
  }

  /** Number of protected records created after the horizon. */
  function ProtectedAfter(history: seq<Record>, horizon: int): nat {
    if history == [] then 0
    else
      var last := history[|history| - 1];
      ProtectedAfter(history[..|history| - 1], horizon)
      + if IsProtected(last.event.semantic) && last.createdAt > horizon then 1 else 0
  }

  lemma ProtectedAfterInsert(history: seq<Record>, r: Record, horizon: int)
    ensures ProtectedAfter(history + [r], horizon)
         == ProtectedAfter(history, horizon) + if IsProtected(r.event.semantic) && r.createdAt > horizon then 1 else 0
  {
    assert (history + [r])[..|history|] == history;
  }

  /** The loop leaves early at the first record that is inconsistent or legacy-protected. */
  predicate StopsAt(r: Record) {
    !CompositionIsConsistent(r.event) || IsLegacyProtected(r)
  }

  function FirstStop(history: seq<Record>, start: nat): (k: nat)
    requires start <= |history|
    ensures start <= k <= |history|
    ensures k < |history| ==> StopsAt(history[k])
    ensures forall i | start <= i < k :: !StopsAt(history[i])
    decreases |history| - start
  {
    if start == |history| || StopsAt(history[start]) then start else FirstStop(history, start + 1)
  }

  /** What one candidate may do, as a function of the active history. */
  function EvaluationOf(c: Config, history: seq<Record>, candidate: Event, evaluatedAt: int)
    : Result<Evaluation, CompositionError>
  {
    var horizon := evaluatedAt - c.windowMicroseconds;
    var k := FirstStop(history, 0);
    if !CompositionIsConsistent(candidate) || candidate.composition.None? then Err(CompositionError)
    else if k < |history| && !CompositionIsConsistent(history[k].event) then Err(CompositionError)
    else
      var prior := ProtectedAfter(history[..k], horizon);
      var protectedRelease := candidate.composition.value.protectedRelease;
      if k < |history| then Ok(Evaluation(false, LegacyHistoryBlock, protectedRelease, prior + 1))
      else if !protectedRelease then Ok(Evaluation(true, UnprotectedRelease, false, prior))
      else if prior >= c.maxProtectedReleases then Ok(Evaluation(false, CumulativeBudgetExhausted, true, prior))
      else
        Ok(Evaluation(true, if prior == 0 then FirstProtectedRelease else ProtectedReleaseWithinBudget, true, prior))
  }

  /** `evaluate_composition_history`: one pass that collects the protected compositions in the window. */
  method EvaluateCompositionHistory(c: Config, history: seq<Record>, candidate: Event, evaluatedAt: int)
    returns (result: Result<Evaluation, CompositionError>)
    ensures result == EvaluationOf(c, history, candidate, evaluatedAt)
  {
    var horizon := evaluatedAt - c.windowMicroseconds;
    if !CompositionIsConsistent(candidate) || candidate.composition.None? {
      return Err(CompositionError);
    }
    var composition := candidate.composition.value;
    var priorProtected: seq<Composition> := [];
    ghost var stop := FirstStop(history, 0);
    for i := 0 to |history|
      invariant i <= stop
      invariant |priorProtected| == ProtectedAfter(history[..i], horizon)
    {
      var record := history[i];
      assert history[..i + 1][..i] == history[..i];
      if !CompositionIsConsistent(record.event) {
        return Err(CompositionError);
      }
      if IsProtected(record.event.semantic) {
        if record.event.composition.None? {
          assert stop == i;
          return Ok(Evaluation(false, LegacyHistoryBlock, composition.protectedRelease, |priorProtected| + 1));
        }
        if record.createdAt > horizon {
          priorProtected := priorProtected + [record.event.composition.value];
        }
      }
    }
    assert history[..|history|] == history;
    if !composition.protectedRelease {
      return Ok(Evaluation(true, UnprotectedRelease, false, |priorProtected|));
    }
    if |priorProtected| >= c.maxProtectedReleases {
      return Ok(Evaluation(false, CumulativeBudgetExhausted, true, |priorProtected|));
    }
    return Ok(Evaluation(
      true, if priorProtected == [] then FirstProtectedRelease else ProtectedReleaseWithinBudget,
      true, |priorProtected|));
  }

  /** When nothing in the history is inconsistent, a release is allowed exactly when no record is
    * legacy-protected and, for a protected candidate, fewer than the budget fall in the window.
    */
  lemma AllowedExactlyWithinBudget(c: Config, history: seq<Record>, candidate: Event, evaluatedAt: int)
    requires CompositionIsConsistent(candidate) && candidate.composition.Some?
    requires forall i | 0 <= i < |history| :: CompositionIsConsistent(history[i].event)
    ensures EvaluationOf(c, history, candidate, evaluatedAt).Ok?
    ensures EvaluationOf(c, history, candidate, evaluatedAt).value.allowed
       <==> && (forall i | 0 <= i < |history| :: !IsLegacyProtected(history[i]))
            && (IsProtected(candidate.semantic) ==>
                  ProtectedAfter(history, evaluatedAt - c.windowMicroseconds) < c.maxProtectedReleases)
  {
    if FirstStop(history, 0) == |history| {
      assert history[..|history|] == history;
      assert forall i | 0 <= i < |history| :: !StopsAt(history[i]);
    }
  }

  /** False metadata at `i`, and no record before it that exposes subjects without metadata. */
  predicate MeetsFalseMetadata(history: seq<Record>, i: nat)
    requires i < |history|
  {
    && !CompositionIsConsistent(history[i].event)
    && (forall j | 0 <= j < i :: history[j].event.composition == None ==> !ExposesSubjects(history[j].event.semantic))
  }

  /** The evaluation raises exactly for a candidate without metadata or with false metadata, or when it meets false
    * metadata in the history before any record that exposes subjects without metadata.
    */
  lemma RaisesExactly(c: Config, history: seq<Record>, candidate: Event, evaluatedAt: int)
    ensures EvaluationOf(c, history, candidate, evaluatedAt).Err?
       <==> || candidate.composition == None || !CompositionIsConsistent(candidate)
            || exists i | 0 <= i < |history| :: MeetsFalseMetadata(history, i)
  {
    hide ExposesSubjects, IsProtected;
    forall i | 0 <= i < |history|
      ensures IsProtected(history[i].event.semantic) <==> ExposesSubjects(history[i].event.semantic)
    {
      ProtectedExactly(history[i].event.semantic);
    }
    var k := FirstStop(history, 0);
    if i: nat :| i < |history| && MeetsFalseMetadata(history, i) {
      assert StopsAt(history[i]);
      assert k <= i;
    }
    assert k < |history| && !CompositionIsConsistent(history[k].event) ==> MeetsFalseMetadata(history, k);
  }
}
