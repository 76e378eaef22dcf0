/** What the collected governance facts say, written out as triples of the evidence itself, and what each error of
  * the collection tells about it.
  */
module GovernanceEvidence {
  import opened Categories
  import opened Foundations
  import opened KeyOrder
  import opened Lineage
  import opened ContextResolver
  import opened GovernanceFacts

  const CATEGORY_NAMES: map<Category, string> := map[
    PublicOrLowRisk := "PUBLIC_OR_LOW_RISK", Unclassified := "UNCLASSIFIED",
    DirectIdentifier := "DIRECT_IDENTIFIER", StablePseudonym := "STABLE_PSEUDONYM",
    QuasiIdentifier := "QUASI_IDENTIFIER", SensitiveAttribute := "SENSITIVE_ATTRIBUTE"]

  lemma NamesCategory(category: Category)
    ensures category in CATEGORY_NAMES && CategoryName(category) == CATEGORY_NAMES[category]
  {
  }

  predicate Names(category: Category, value: string) {
    category in CATEGORY_NAMES && value == CATEGORY_NAMES[category]
  }

  // ---------------------------------------------------------------- triples

  /** The fact states this property of this subject with this value. */
  predicate States(fact: Fact, subject: string, property: string, value: string) {
    fact.subject == subject && fact.property == property && fact.value == value
  }

  /** What a resolved column says of its dataset and of itself. */
  predicate ColumnTells(fm: Formats, context: ColumnContext, fact: Fact) {
    && context.resolved && context.urn.Some? && context.category != Unclassified
    && var dataset := context.urn.value;
       var column := dataset + "#" + context.ref.fieldPath;
       || States(fact, dataset, "datahub.logical_name", context.ref.dataset)
       || States(fact, column, "datahub.tags", fm.compact(context.tags))
       || States(fact, column, "datahub.glossary_terms", fm.compact(context.glossaryTerms))
       || (States(fact, column, "toxicjoin.sensitivity_category", fact.value) && Names(context.category, fact.value))
       || States(fact, column, "datahub.lineage_transport_complete", "true")
       || States(fact, column, "toxicjoin.lineage_governance_complete", "true")
  }

  /** What one of its sources says of the source column and of the edge between them. */
  predicate SourceTells(fm: Formats, context: ColumnContext, source: LineageSource, fact: Fact) {
    && context.resolved && context.urn.Some? && context.category != Unclassified
    && source.urn.Some? && source.category != Unclassified
    && var (dataset, key) := (source.urn.value, source.ref.dataset + "." + source.ref.fieldPath);
       var target := context.urn.value + "#" + context.ref.fieldPath;
       var edge := target + "::lineage::" + fm.edgeDigest(target, key);
       || States(fact, dataset, "datahub.logical_name", source.ref.dataset)
       || (States(fact, dataset + "#" + source.ref.fieldPath, "toxicjoin.sensitivity_category", fact.value)
           && Names(source.category, fact.value))
       || States(fact, edge, "datahub.lineage_source_ref", key)
       || (States(fact, edge, "toxicjoin.lineage_source_category", fact.value) && Names(source.category, fact.value))
       || States(fact, edge, "datahub.lineage_source_urn", dataset)
  }

  /** The claim gives a subject this logical name. */
  predicate ClaimsName(claim: Claim, subject: string, logical: string) {
    claim.subject == subject && claim.property == "datahub.logical_name" && claim.value == logical
  }

  /** One subject, and no other, is claimed to be this dataset. */
  predicate IsOnlySubject(e: Evaluation, subject: string, logical: string) {
    && (exists i | 0 <= i < |e.claims| :: ClaimsName(e.claims[i], subject, logical))
    && (forall i | 0 <= i < |e.claims| ::
          ClaimsName(e.claims[i], e.claims[i].subject, logical) ==> e.claims[i].subject == subject)
  }

  predicate ContextTells(fm: Formats, context: ColumnContext, fact: Fact) {
    ColumnTells(fm, context, fact)
    || exists i | 0 <= i < |context.sources| :: SourceTells(fm, context, context.sources[i], fact)
  }

  predicate AnyContextTells(fm: Formats, contexts: seq<ColumnContext>, fact: Fact) {
    exists i | 0 <= i < |contexts| :: ContextTells(fm, contexts[i], fact)
  }

  /** The evidence says this: of the snapshot, of a dataset of the plan, or of one of its columns. */
  predicate Tells(fm: Formats, e: Evaluation, fact: Fact) {
    || States(fact, e.sourceIdentity, "datahub.snapshot_sha256", e.snapshotSha256)
    || States(fact, e.sourceIdentity, "datahub.catalog_version", e.catalogVersion)
    || (fact.property == "datahub.logical_name" && fact.value in e.sourceDatasets && IsOnlySubject(e, fact.subject, fact.value))
    || AnyContextTells(fm, e.projected, fact) || AnyContextTells(fm, e.referenced, fact)
  }

  lemma ColumnTellsExactly(fm: Formats, context: ColumnContext, fact: Fact)
    ensures ColumnTells(fm, context, fact) <==> IsGrounded(context) && fact in ColumnFacts(fm, context)
  {
    NamesCategory(context.category);
  }

  lemma SourceTellsExactly(fm: Formats, context: ColumnContext, source: LineageSource, fact: Fact)
    ensures SourceTells(fm, context, source, fact)
       <==> IsGrounded(context) && IsGroundedSource(source) && fact in EdgeFacts(fm, context, source)
  {
    NamesCategory(source.category);
  }

  lemma ContextTellsExactly(fm: Formats, context: ColumnContext, fact: Fact)
    ensures ContextTells(fm, context, fact) <==> IsFromContext(fm, context, fact)
  {
    hide ColumnTells, SourceTells, ColumnFacts, EdgeFacts;
    ColumnTellsExactly(fm, context, fact);
    forall i | 0 <= i < |context.sources|
      ensures SourceTells(fm, context, context.sources[i], fact)
         <==> IsGrounded(context) && IsGroundedSource(context.sources[i]) && fact in EdgeFacts(fm, context, context.sources[i])
    {
      SourceTellsExactly(fm, context, context.sources[i], fact);
    }
  }

  lemma CandidatesExactly(e: Evaluation, subject: string, logical: string)
    ensures Candidates(e.claims, logical) == {subject} <==> IsOnlySubject(e, subject, logical)
    ensures subject in Candidates(e.claims, logical)
       <==> exists i | 0 <= i < |e.claims| :: ClaimsName(e.claims[i], subject, logical)
  {
    forall s
      ensures s in Candidates(e.claims, logical) <==> exists i | 0 <= i < |e.claims| :: ClaimsName(e.claims[i], s, logical)
    {
      if s in Candidates(e.claims, logical) {
        var c :| c in e.claims && c.property == LOGICAL_NAME && c.value == logical && c.subject == s;
        var i :| 0 <= i < |e.claims| && e.claims[i] == c;
        assert ClaimsName(e.claims[i], s, logical);
      }
    }
    if IsOnlySubject(e, subject, logical) {
      assert Candidates(e.claims, logical) == {subject};
    }
    if Candidates(e.claims, logical) == {subject} {
      forall i | 0 <= i < |e.claims| && ClaimsName(e.claims[i], e.claims[i].subject, logical)
        ensures e.claims[i].subject == subject
      {
        assert e.claims[i].subject in Candidates(e.claims, logical);
      }
    }
  }

  lemma TellsExactly(fm: Formats, e: Evaluation, fact: Fact)
    ensures Tells(fm, e, fact) <==> IsContributed(fm, e, fact)
  {
    hide Candidates, IsOnlySubject, ContextTells, IsFromContext;
    CandidatesExactly(e, fact.subject, fact.value);
    var contexts := GovernanceFacts.Contexts(e);
    forall c | c in contexts ensures ContextTells(fm, c, fact) <==> IsFromContext(fm, c, fact) {
      ContextTellsExactly(fm, c, fact);
    }
    if AnyContextTells(fm, e.projected, fact) {
      var i :| 0 <= i < |e.projected| && ContextTells(fm, e.projected[i], fact);
      assert e.projected[i] in contexts;
    }
    if AnyContextTells(fm, e.referenced, fact) {
      var i :| 0 <= i < |e.referenced| && ContextTells(fm, e.referenced[i], fact);
      assert e.referenced[i] in contexts;
    }
  }

  // ---------------------------------------------------------------- when the collection succeeds

  predicate HasOneSubject(e: Evaluation, logical: string) {
    exists k | 0 <= k < |e.claims| :: IsOnlySubject(e, e.claims[k].subject, logical)
  }

  /** Every dataset of the plan is claimed by exactly one subject. */
  predicate EveryDatasetHasOneSubject(e: Evaluation) {
    forall i | 0 <= i < |e.sourceDatasets| :: HasOneSubject(e, e.sourceDatasets[i])
  }

  /** The contexts never describe one column in two ways. */
  predicate NoColumnHasTwoContexts(contexts: seq<ColumnContext>) {
    forall i, j | 0 <= i < j < |contexts| ::
      contexts[i].ref.dataset + "." + contexts[i].ref.fieldPath == contexts[j].ref.dataset + "." + contexts[j].ref.fieldPath
      ==> contexts[i] == contexts[j]
  }

  /** The column and all its sources are located and classified. */
  predicate IsClassified(context: ColumnContext) {
    && context.resolved && context.urn != None && context.category != Unclassified
    && forall i | 0 <= i < |context.sources| :: context.sources[i].urn != None && context.sources[i].category != Unclassified
  }

  predicate AllClassified(contexts: seq<ColumnContext>) {
    forall i | 0 <= i < |contexts| :: IsClassified(contexts[i])
  }

  /** The lengths and the trimming that a fact is checked for. */
  predicate IsWellFormed(fm: Formats, f: Fact) {
    && 0 < |f.subject| < 2049 && fm.strip(f.subject) == f.subject
    && 0 < |f.property| < 257 && fm.strip(f.property) == f.property && 0 < |f.value| < 4097
  }

  lemma WellFormedExactly(fm: Formats, f: Fact)
    ensures IsWellFormed(fm, f) <==> IsValidFact(fm, f)
  {
  }

  lemma MappedExactly(e: Evaluation)
    ensures DatasetsAreMapped(e) <==> EveryDatasetHasOneSubject(e)
  {
    hide Candidates, HasOneSubject;
    forall i | 0 <= i < |e.sourceDatasets|
      ensures |Candidates(e.claims, e.sourceDatasets[i])| == 1 <==> HasOneSubject(e, e.sourceDatasets[i])
    {
      OneCandidateExactly(e, e.sourceDatasets[i]);
    }
    if DatasetsAreMapped(e) {
      assert forall i | 0 <= i < |e.sourceDatasets| :: e.sourceDatasets[i] in e.sourceDatasets;
    }
  }

  lemma OneCandidateExactly(e: Evaluation, d: string)
    ensures |Candidates(e.claims, d)| == 1 <==> HasOneSubject(e, d)
  {
    hide Candidates, IsOnlySubject;
    if |Candidates(e.claims, d)| == 1 {
      var subject := Only(Candidates(e.claims, d));
      CandidatesExactly(e, subject, d);
      var k :| 0 <= k < |e.claims| && ClaimsName(e.claims[k], subject, d);
      assert IsOnlySubject(e, e.claims[k].subject, d);
    }
    if k :| 0 <= k < |e.claims| && IsOnlySubject(e, e.claims[k].subject, d) {
      CandidatesExactly(e, e.claims[k].subject, d);
    }
  }

  lemma ConsistentExactly(contexts: seq<ColumnContext>)
    ensures IsConsistent(contexts) <==> NoColumnHasTwoContexts(contexts)
  {
    if NoColumnHasTwoContexts(contexts) {
      forall a, b | a in contexts && b in contexts && Lineage.Key(a.ref) == Lineage.Key(b.ref) ensures a == b {
        var i :| 0 <= i < |contexts| && contexts[i] == a;
        var j :| 0 <= j < |contexts| && contexts[j] == b;
      }
    }
    if IsConsistent(contexts) {
      forall i, j | 0 <= i < j < |contexts| && Lineage.Key(contexts[i].ref) == Lineage.Key(contexts[j].ref)
        ensures contexts[i] == contexts[j]
      {
        assert contexts[i] in contexts && contexts[j] in contexts;
      }
    }
  }

  lemma GroundedExactly(contexts: seq<ColumnContext>)
    ensures AllGrounded(contexts) <==> AllClassified(contexts)
  {
    forall c ensures IsFullyGrounded(c) <==> IsClassified(c) {
      if IsClassified(c) {
        forall s | s in c.sources ensures IsGroundedSource(s) {
          var i :| 0 <= i < |c.sources| && c.sources[i] == s;
        }
      }
      if IsFullyGrounded(c) {
        forall i | 0 <= i < |c.sources| ensures c.sources[i].urn != None && c.sources[i].category != Unclassified {
          assert c.sources[i] in c.sources;
        }
      }
    }
  }

  ghost predicate EvidenceIsSound(fm: Formats, e: Evaluation) {
    && (forall f | Tells(fm, e, f) :: IsWellFormed(fm, f))
    && (forall f, g | Tells(fm, e, f) && Tells(fm, e, g) :: f.subject == g.subject && f.property == g.property ==> f.value == g.value)
  }

  /** The collection succeeds exactly when every dataset of the plan has one subject, no column has two contexts,
    * every column and source is classified, and what the evidence says is well formed and without contradiction.
    * It then returns exactly what the evidence says, by increasing subject and property.
    */
  lemma EvidenceDecides(fm: Formats, e: Evaluation)
    requires HasDistinctSourcesAll(GovernanceFacts.Contexts(e))
    ensures Outcome(fm, e).Ok?
       <==> && EveryDatasetHasOneSubject(e) && NoColumnHasTwoContexts(e.projected + e.referenced)
            && AllClassified(e.projected + e.referenced) && EvidenceIsSound(fm, e)
    ensures Outcome(fm, e).Ok? ==>
              && (forall f :: f in Outcome(fm, e).value <==> Tells(fm, e, f))
              && IsIncreasing(PairLess, FactKeys(Outcome(fm, e).value))
  {
    hide Outcome, Tells, IsContributed, DatasetsAreMapped, IsConsistent, AllGrounded, IsWellFormed, IsValidFact,
      NoColumnHasTwoContexts, AllClassified, EveryDatasetHasOneSubject, PairLess, HasDistinctSourcesAll;
    CollectsExactlyContributions(fm, e);
    MappedExactly(e);
    ConsistentExactly(GovernanceFacts.Contexts(e));
    GroundedExactly(GovernanceFacts.Contexts(e));
    forall f ensures Tells(fm, e, f) <==> IsContributed(fm, e, f) {
      TellsExactly(fm, e, f);
    }
    forall f ensures IsWellFormed(fm, f) <==> IsValidFact(fm, f) {
      WellFormedExactly(fm, f);
    }
  }

  // ---------------------------------------------------------------- what an error says

  predicate IsUnnamed(e: Evaluation, logical: string) {
    forall k | 0 <= k < |e.claims| :: !ClaimsName(e.claims[k], e.claims[k].subject, logical)
  }

  predicate HasTwoSubjects(e: Evaluation, logical: string) {
    exists j, k | 0 <= j < |e.claims| && 0 <= k < |e.claims| ::
      && ClaimsName(e.claims[j], e.claims[j].subject, logical) && ClaimsName(e.claims[k], e.claims[k].subject, logical)
      && e.claims[j].subject != e.claims[k].subject
  }

  ghost predicate Explains(fm: Formats, e: Evaluation, error: FactError) {
    var contexts := e.projected + e.referenced;
    match error
    case RequiredFactMissing => exists d | d in e.sourceDatasets :: IsUnnamed(e, d)
    case DatasetMappingAmbiguous => exists d | d in e.sourceDatasets :: HasTwoSubjects(e, d)
    case GroundingConflict => !NoColumnHasTwoContexts(contexts)
    case GroundingIncomplete => NoColumnHasTwoContexts(contexts) && !AllClassified(contexts)
    case InvalidFact => exists f :: Tells(fm, e, f) && !IsWellFormed(fm, f)
    case RequirementConflict =>
      exists f, g :: Tells(fm, e, f) && Tells(fm, e, g) && f.subject == g.subject && f.property == g.property && f.value != g.value
  }

  lemma {:induction false} FirstErrorStep(fm: Formats, emissions: seq<Emission>) returns (i: nat)
    requires Run(fm, map[], emissions).Err?
    ensures i < |emissions| && Run(fm, map[], emissions[..i]).Ok?
    ensures Step(fm, Run(fm, map[], emissions[..i]).value, emissions[i]) == Run(fm, map[], emissions)
  {
    hide Step;
    var n := |emissions| - 1;
    if Run(fm, map[], emissions[..n]).Err? {
      i := FirstErrorStep(fm, emissions[..n]);
      assert emissions[..n][..i] == emissions[..i];
    } else {
      i := n;
    }
  }

  lemma DatasetFailureExplains(fm: Formats, e: Evaluation, d: string, error: FactError)
    requires d in e.sourceDatasets && DatasetEmission(e, d) == Fail(error)
    ensures Explains(fm, e, error)
    ensures error == RequiredFactMissing || error == DatasetMappingAmbiguous
  {
    hide Tells, NoColumnHasTwoContexts, AllClassified, Candidates;
    var candidates := Candidates(e.claims, d);
    if candidates == {} {
      forall k | 0 <= k < |e.claims| ensures !ClaimsName(e.claims[k], e.claims[k].subject, d) {
        CandidatesExactly(e, e.claims[k].subject, d);
      }
    } else {
      var a :| a in candidates;
      var b :| b in candidates && b != a by {
        assert candidates != {a};
      }
      CandidatesExactly(e, a, d);
      CandidatesExactly(e, b, d);
      var j :| 0 <= j < |e.claims| && ClaimsName(e.claims[j], a, d);
      var k :| 0 <= k < |e.claims| && ClaimsName(e.claims[k], b, d);
      assert HasTwoSubjects(e, d);
    }
  }

  lemma GroundingFailureExplains(fm: Formats, e: Evaluation, error: FactError)
    requires HasDistinctSourcesAll(GovernanceFacts.Contexts(e))
    requires Fail(error) in GroundingEmissions(fm, GovernanceFacts.Contexts(e))
    ensures Explains(fm, e, error)
  {
    hide Tells, ContextEmissions, IsConsistent, NoColumnHasTwoContexts, AllClassified, Concat, InKeyOrder;
    var contexts := GovernanceFacts.Contexts(e);
    ConsistentExactly(contexts);
    GroundedExactly(contexts);
    GroundingFailures(fm, contexts);
    if IsConsistent(contexts) {
      InGrounding(fm, contexts, Fail(error));
      var c :| c in contexts && Fail(error) in ContextEmissions(fm, c);
      ContextFailsIncomplete(fm, c, error);
    }
  }

  lemma ContextFailsIncomplete(fm: Formats, context: ColumnContext, error: FactError)
    requires HasDistinctSources(context) && Fail(error) in ContextEmissions(fm, context)
    ensures error == GroundingIncomplete
  {
    hide ColumnFacts, EdgeFacts, SortedSources, Concat, HasDistinctSources;
    if IsGrounded(context) {
      var groups := SourceGroups(fm, context, SortedSources(context));
      InAdds(ColumnFacts(fm, context), Fail(error));
      InConcat(groups, Fail(error));
      InSources(fm, context, Fail(error));
    }
  }

  lemma AddedIsTold(fm: Formats, e: Evaluation, fact: Fact)
    requires HasDistinctSourcesAll(GovernanceFacts.Contexts(e)) && Add(fact) in Emissions(fm, e)
    ensures Tells(fm, e, fact)
  {
    hide Tells, Emissions, Concat, DatasetOrder, IsConsistent, Candidates, IsFromContext, DatasetEmission;
    TellsExactly(fm, e, fact);
    if IsConsistent(GovernanceFacts.Contexts(e)) {
      AddsContributions(fm, e, fact);
    } else {
      InEmissions(fm, e, Add(fact));
      InAdds(SnapshotFacts(e), Add(fact));
      InDatasets(e, Add(fact));
      DatasetAdds(e, fact);
    }
  }

  /** Every error the collection raises is explained by the evidence. */
  lemma ErrorsAreExplained(fm: Formats, e: Evaluation)
    requires HasDistinctSourcesAll(GovernanceFacts.Contexts(e)) && Outcome(fm, e).Err?
    ensures Explains(fm, e, Outcome(fm, e).error)
  {
    hide Tells, Emissions, Run, GroundingEmissions, DatasetEmission, Concat, DatasetOrder, HasDistinctSources, IsValidFact,
      IsWellFormed, HasTwoSubjects, IsUnnamed, NoColumnHasTwoContexts, AllClassified, HoldsExactly;
    var emissions := Emissions(fm, e);
    var i := FirstErrorStep(fm, emissions);
    var x := emissions[i];
    assert x in emissions;
    match x
    case Fail(error) =>
      InEmissions(fm, e, x);
      InAdds(SnapshotFacts(e), x);
      InDatasets(e, x);
      if d :| d in e.sourceDatasets && x == DatasetEmission(e, d) {
        DatasetFailureExplains(fm, e, d, error);
      } else {
        GroundingFailureExplains(fm, e, error);
      }
    case Add(fact) =>
      AddedIsTold(fm, e, fact);
      WellFormedExactly(fm, fact);
      if IsValidFact(fm, fact) {
        RunIsExact(fm, emissions[..i]);
        EarlierFactIsAdded(Run(fm, map[], emissions[..i]).value, emissions[..i], fact);
        var g := Fact(fact.subject, fact.property, Run(fm, map[], emissions[..i]).value[fact.Key()]);
        assert Add(g) in emissions;
        AddedIsTold(fm, e, g);
      }
  }

  lemma EarlierFactIsAdded(requirements: Requirements, emissions: seq<Emission>, fact: Fact)
    requires HoldsExactly(requirements, emissions) && fact.Key() in requirements
    ensures Add(Fact(fact.subject, fact.property, requirements[fact.Key()])) in emissions
  {
  }
}
