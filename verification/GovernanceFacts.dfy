/** The governance facts one evaluation requires, as `agent/governance_trust.py` collects them.
  *
  * `str.strip`, the JSON rendering of tag lists and the digest in a lineage edge's subject are foreign.
  */
module GovernanceFacts {
  import opened Categories
  import opened Foundations
  import opened KeyOrder
  import opened Lineage
  import opened ContextResolver

  type FactKey = (string, string)

  datatype Fact = Fact(subject: string, property: string, value: string) {
    function Key(): FactKey {
      (subject, property)
    }
  }

  datatype Claim = Claim(subject: string, property: string, value: string)

  datatype FactError =
    | InvalidFact
    | RequirementConflict
    | RequiredFactMissing
    | DatasetMappingAmbiguous
    | GroundingConflict
    | GroundingIncomplete

  datatype Evaluation = Evaluation(
    sourceIdentity: string,
    snapshotSha256: string,
    catalogVersion: string,
    claims: seq<Claim>,
    sourceDatasets: seq<string>,
    projected: seq<ColumnContext>,
    referenced: seq<ColumnContext>)

  datatype Formats = Formats(
    strip: string -> string, compact: seq<string> -> string, edgeDigest: (string, string) -> string)

  const LOGICAL_NAME := "datahub.logical_name"

  function CategoryName(category: Category): string {
    match category
    case DirectIdentifier => "DIRECT_IDENTIFIER"
    case StablePseudonym => "STABLE_PSEUDONYM"
    case QuasiIdentifier => "QUASI_IDENTIFIER"
    case SensitiveAttribute => "SENSITIVE_ATTRIBUTE"
    case PublicOrLowRisk => "PUBLIC_OR_LOW_RISK"
    case Unclassified => "UNCLASSIFIED"
  }

  // ---------------------------------------------------------------- what each input contributes

  predicate IsValidFact(fm: Formats, fact: Fact) {
    && 1 <= |fact.subject| <= 2048 && 1 <= |fact.property| <= 256 && 1 <= |fact.value| <= 4096
    && fact.subject == fm.strip(fact.subject) && fact.property == fm.strip(fact.property)
  }

  function SnapshotFacts(e: Evaluation): seq<Fact> {
    [Fact(e.sourceIdentity, "datahub.snapshot_sha256", e.snapshotSha256),
     Fact(e.sourceIdentity, "datahub.catalog_version", e.catalogVersion)]
  }

  /** The subjects that some claim gives this logical name. */
  function Candidates(claims: seq<Claim>, logical: string): set<string> {
    set c | c in claims && c.property == LOGICAL_NAME && c.value == logical :: c.subject
  }

  predicate IsGrounded(context: ColumnContext) {
    context.resolved && context.urn.Some? && context.category != Unclassified
  }

  function ColumnFacts(fm: Formats, context: ColumnContext): seq<Fact>
    requires IsGrounded(context)
  {
    var subject := context.urn.value + "#" + context.ref.fieldPath;
    [Fact(context.urn.value, LOGICAL_NAME, context.ref.dataset),
     Fact(subject, "datahub.tags", fm.compact(context.tags)),
     Fact(subject, "datahub.glossary_terms", fm.compact(context.glossaryTerms)),
     Fact(subject, "toxicjoin.sensitivity_category", CategoryName(context.category)),
     Fact(subject, "datahub.lineage_transport_complete", "true"),
     Fact(subject, "toxicjoin.lineage_governance_complete", "true")]
  }

  predicate IsGroundedSource(source: LineageSource) {
    source.category != Unclassified && source.urn.Some?
  }

  function EdgeFacts(fm: Formats, context: ColumnContext, source: LineageSource): seq<Fact>
    requires IsGrounded(context) && IsGroundedSource(source)
  {
    var target, key := context.urn.value + "#" + context.ref.fieldPath, Lineage.Key(source.ref);
    var edge := target + "::lineage::" + fm.edgeDigest(target, key);
    [Fact(source.urn.value, LOGICAL_NAME, source.ref.dataset),
     Fact(source.urn.value + "#" + source.ref.fieldPath, "toxicjoin.sensitivity_category", CategoryName(source.category)),
     Fact(edge, "datahub.lineage_source_ref", key),
     Fact(edge, "toxicjoin.lineage_source_category", CategoryName(source.category)),
     Fact(edge, "datahub.lineage_source_urn", source.urn.value)]
  }

  function Contexts(e: Evaluation): seq<ColumnContext> {
    e.projected + e.referenced
  }

  /** A fact that one of the four kinds of input contributes. */
  predicate IsContributed(fm: Formats, e: Evaluation, fact: Fact) {
    || fact in SnapshotFacts(e)
    || (fact.property == LOGICAL_NAME && fact.value in e.sourceDatasets && Candidates(e.claims, fact.value) == {fact.subject})
    || exists c | c in Contexts(e) :: IsFromContext(fm, c, fact)
  }

  predicate IsFromContext(fm: Formats, context: ColumnContext, fact: Fact) {
    && IsGrounded(context)
    && (|| fact in ColumnFacts(fm, context)
        || exists s | s in context.sources :: IsGroundedSource(s) && fact in EdgeFacts(fm, context, s))
  }

  /** Each dataset of the plan is claimed by exactly one subject. */
  predicate DatasetsAreMapped(e: Evaluation) {
    forall d | d in e.sourceDatasets :: |Candidates(e.claims, d)| == 1
  }

  /** Contexts of one column are the same context. */
  predicate IsConsistent(contexts: seq<ColumnContext>) {
    forall a, b | a in contexts && b in contexts && Lineage.Key(a.ref) == Lineage.Key(b.ref) :: a == b
  }

  predicate IsFullyGrounded(context: ColumnContext) {
    IsGrounded(context) && forall s | s in context.sources :: IsGroundedSource(s)
  }

  predicate AllGrounded(contexts: seq<ColumnContext>) {
    forall c | c in contexts :: IsFullyGrounded(c)
  }

  ghost predicate FactsAreValid(fm: Formats, e: Evaluation) {
    forall f | IsContributed(fm, e, f) :: IsValidFact(fm, f)
  }

  /** No two contributions disagree about one subject and property. */
  ghost predicate FactsAgree(fm: Formats, e: Evaluation) {
    forall f, g | IsContributed(fm, e, f) && IsContributed(fm, e, g) && f.Key() == g.Key() :: f.value == g.value
  }

  /** What `ColumnContext` enforces on construction. */
  predicate HasDistinctSources(context: ColumnContext) {
    forall i, j | 0 <= i < j < |context.sources| ::
      Lineage.Key(context.sources[i].ref) != Lineage.Key(context.sources[j].ref)
  }

  predicate HasDistinctSourcesAll(contexts: seq<ColumnContext>) {
    forall c | c in contexts :: HasDistinctSources(c)
  }

  // ---------------------------------------------------------------- emissions in program order

  /** One step of the collection: a fact to add, or an error to raise. */
  datatype Emission = Add(fact: Fact) | Fail(error: FactError)

  type Requirements = map<FactKey, string>

  function Step(fm: Formats, requirements: Requirements, emission: Emission): Result<Requirements, FactError> {
    match emission
    case Fail(error) => Err(error)
    case Add(fact) =>
      if !IsValidFact(fm, fact) then Err(InvalidFact)
      else if fact.Key() in requirements && requirements[fact.Key()] != fact.value then Err(RequirementConflict)
      else Ok(requirements[fact.Key() := fact.value])
  }

  function Run(fm: Formats, start: Requirements, emissions: seq<Emission>): Result<Requirements, FactError> {
    if emissions == [] then Ok(start)
    else
      match Run(fm, start, emissions[..|emissions| - 1])
      case Err(error) => Err(error)
      case Ok(requirements) => Step(fm, requirements, emissions[|emissions| - 1])
  }

  function Adds(facts: seq<Fact>): (emissions: seq<Emission>)
    ensures |emissions| == |facts| && forall i | 0 <= i < |facts| :: emissions[i] == Add(facts[i])
  {
    seq(|facts|, i requires 0 <= i < |facts| => Add(facts[i]))
  }

  function Only(s: set<string>): (x: string)
    requires |s| == 1
    ensures s == {x}
  {
    OnlyOne(s);
    var x :| x in s;
    assert s == {x} by {
      forall y ensures y in s <==> y == x {
      }
    }
    x
  }

  lemma OnlyOne(s: set<string>)
    requires |s| == 1
    ensures exists x :: x in s
    ensures forall x, y | x in s && y in s :: x == y
  {
    var x :| x in s;
    var rest := s - {x};
    assert |rest| == 0;
    assert s == rest + {x};
  }

  function DatasetEmission(e: Evaluation, logical: string): Emission {
    var candidates := Candidates(e.claims, logical);
    if candidates == {} then Fail(RequiredFactMissing)
    else if |candidates| != 1 then Fail(DatasetMappingAmbiguous)
    else Add(Fact(Only(candidates), LOGICAL_NAME, logical))
  }

  function DatasetGroups(e: Evaluation, datasets: seq<string>): (groups: seq<seq<Emission>>)
    ensures |groups| == |datasets|
    ensures forall i | 0 <= i < |datasets| :: groups[i] == [DatasetEmission(e, datasets[i])]
  {
    seq(|datasets|, i requires 0 <= i < |datasets| => [DatasetEmission(e, datasets[i])])
  }

  function Concat(groups: seq<seq<Emission>>): seq<Emission> {
    if groups == [] then [] else Concat(groups[..|groups| - 1]) + groups[|groups| - 1]
  }

  function SourceEmissions(fm: Formats, context: ColumnContext, source: LineageSource): seq<Emission>
    requires IsGrounded(context)
  {
    if IsGroundedSource(source) then Adds(EdgeFacts(fm, context, source)) else [Fail(GroundingIncomplete)]
  }

  function SourceGroups(fm: Formats, context: ColumnContext, sources: seq<LineageSource>): (groups: seq<seq<Emission>>)
    requires IsGrounded(context)
    ensures |groups| == |sources|
    ensures forall i | 0 <= i < |sources| :: groups[i] == SourceEmissions(fm, context, sources[i])
  {
    seq(|sources|, i requires 0 <= i < |sources| => SourceEmissions(fm, context, sources[i]))
  }

  /** `sorted(context.lineage_sources, key=...)`, on distinct keys. */
  function SortedSources(context: ColumnContext): seq<LineageSource> {
    InKeyOrder(ByKey(SourceKey, context.sources))
  }

  function ContextEmissions(fm: Formats, context: ColumnContext): seq<Emission> {
    if IsGrounded(context) then
      Adds(ColumnFacts(fm, context)) + Concat(SourceGroups(fm, context, SortedSources(context)))
    else [Fail(GroundingIncomplete)]
  }

  function ContextGroups(fm: Formats, contexts: seq<ColumnContext>): (groups: seq<seq<Emission>>)
    ensures |groups| == |contexts|
    ensures forall i | 0 <= i < |contexts| :: groups[i] == ContextEmissions(fm, contexts[i])
  {
    seq(|contexts|, i requires 0 <= i < |contexts| => ContextEmissions(fm, contexts[i]))
  }

  function ContextKey(context: ColumnContext): string {
    Lineage.Key(context.ref)
  }

  function DatasetOrder(e: Evaluation): seq<string> {
    StringsAreOrdered();
    SortedKeys(StringLess, set d | d in e.sourceDatasets)
  }

  function GroundingEmissions(fm: Formats, contexts: seq<ColumnContext>): seq<Emission> {
    if IsConsistent(contexts) then Concat(ContextGroups(fm, InKeyOrder(ByKey(ContextKey, contexts)))) else [Fail(GroundingConflict)]
  }

  function Emissions(fm: Formats, e: Evaluation): seq<Emission> {
    Adds(SnapshotFacts(e)) + Concat(DatasetGroups(e, DatasetOrder(e))) + GroundingEmissions(fm, Contexts(e))
  }

  /** The facts of the dictionary, by increasing subject and property. */
  function SortedFacts(requirements: Requirements): (facts: seq<Fact>)
    ensures |facts| == |requirements|
  {
    PairsAreOrdered();
    var keys := SortedKeys(PairLess, requirements.Keys);
    seq(|keys|, i requires 0 <= i < |keys| =>
      (assert keys[i] in keys; Fact(keys[i].0, keys[i].1, requirements[keys[i]])))
  }

  function Outcome(fm: Formats, e: Evaluation): Result<seq<Fact>, FactError> {
    match Run(fm, map[], Emissions(fm, e))
    case Err(error) => Err(error)
    case Ok(requirements) => Ok(SortedFacts(requirements))
  }

  // ---------------------------------------------------------------- the collection loops

  /** Running on from an earlier result; a raised error ends the run. */
  function RunOn(fm: Formats, result: Result<Requirements, FactError>, emissions: seq<Emission>)
    : Result<Requirements, FactError>
  {
    match result
    case Err(error) => Err(error)
    case Ok(requirements) => Run(fm, requirements, emissions)
  }

  lemma {:induction false} RunJoins(fm: Formats, start: Requirements, a: seq<Emission>, b: seq<Emission>)
    ensures Run(fm, start, a + b) == RunOn(fm, Run(fm, start, a), b)
  {
    hide Step;
    if b == [] {
      assert a + b == a;
    } else {
      RunJoins(fm, start, a, b[..|b| - 1]);
      assert (a + b)[..|a + b| - 1] == a + b[..|b| - 1];
    }
  }

  lemma RunsNothing(fm: Formats, start: Requirements)
    ensures Run(fm, start, []) == Ok(start)
  {
  }

  lemma RunsOne(fm: Formats, start: Requirements, emission: Emission)
    ensures Run(fm, start, [emission]) == Step(fm, start, emission)
  {
    hide Step;
    assert [emission][..0] == [];
    RunsNothing(fm, start);
  }

  lemma {:induction false} ConcatSplits(groups: seq<seq<Emission>>, i: nat)
    requires i <= |groups|
    ensures Concat(groups) == Concat(groups[..i]) + Concat(groups[i..])
  {
    if i == |groups| {
      assert groups[..i] == groups && groups[i..] == [];
    } else {
      var n := |groups| - 1;
      ConcatSplits(groups[..n], i);
      assert groups[..n][..i] == groups[..i];
      assert groups[i..][..n - i] == groups[..n][i..];
      assert Concat(groups[i..]) == Concat(groups[..n][i..]) + groups[n];
    }
  }

  /** One more group, and, where it raises, the end of the run. */
  lemma GroupSteps(fm: Formats, start: Requirements, groups: seq<seq<Emission>>, i: nat)
    requires i < |groups|
    ensures var next := RunOn(fm, Run(fm, start, Concat(groups[..i])), groups[i]);
            && Run(fm, start, Concat(groups[..i + 1])) == next
            && (next.Err? ==> Run(fm, start, Concat(groups)) == next)
  {
    hide Run;
    assert groups[..i + 1][..i] == groups[..i];
    assert Concat(groups[..i + 1]) == Concat(groups[..i]) + groups[i];
    RunJoins(fm, start, Concat(groups[..i]), groups[i]);
    ConcatSplits(groups, i + 1);
    RunJoins(fm, start, Concat(groups[..i + 1]), Concat(groups[i + 1..]));
  }

  lemma NoGroups(fm: Formats, start: Requirements)
    ensures Run(fm, start, Concat([])) == Ok(start)
  {
  }

  /** The calls of `add` in a row. */
  method AddAll(fm: Formats, facts: seq<Fact>, start: Requirements) returns (result: Result<Requirements, FactError>)
    ensures result == Run(fm, start, Adds(facts))
  {
    hide IsValidFact, Run, Step;
    var requirements := start;
    ghost var emissions := Adds(facts);
    RunsNothing(fm, start);
    for i := 0 to |facts|
      invariant Run(fm, start, emissions[..i]) == Ok(requirements)
    {
      assert emissions[..i + 1] == emissions[..i] + [emissions[i]];
      assert emissions == emissions[..i + 1] + emissions[i + 1..];
      RunJoins(fm, start, emissions[..i], [emissions[i]]);
      RunsOne(fm, requirements, emissions[i]);
      RunJoins(fm, start, emissions[..i + 1], emissions[i + 1..]);
      var next := Step(fm, requirements, Add(facts[i]));
      if next.Err? {
        return next;
      }
      requirements := next.value;
    }
    assert emissions[..|facts|] == emissions;
    return Ok(requirements);
  }

  /** The loop over the plan's datasets. */
  method AddDatasets(fm: Formats, e: Evaluation, start: Requirements) returns (result: Result<Requirements, FactError>)
    ensures result == Run(fm, start, Concat(DatasetGroups(e, DatasetOrder(e))))
  {
    hide Run, Concat, DatasetOrder, Candidates, Step, DatasetEmission;
    var datasets := DatasetOrder(e);
    ghost var groups := DatasetGroups(e, datasets);
    result := Ok(start);
    NoGroups(fm, start);
    for i := 0 to |datasets|
      invariant result.Ok? && Run(fm, start, Concat(groups[..i])) == result
    {
      GroupSteps(fm, start, groups, i);
      RunsOne(fm, result.value, DatasetEmission(e, datasets[i]));
      result := Step(fm, result.value, DatasetEmission(e, datasets[i]));
      if result.Err? {
        return;
      }
    }
    assert groups[..|datasets|] == groups;
  }

  /** The dictionary of contexts by column; two different contexts of one column are a conflict. */
  method CollectContexts(contexts: seq<ColumnContext>)
    returns (result: Result<map<string, ColumnContext>, FactError>)
    ensures result == (if IsConsistent(contexts) then Ok(ByKey(ContextKey, contexts)) else Err(GroundingConflict))
  {
    hide Lineage.Key, ByKey;
    var byKey: map<string, ColumnContext> := map[];
    EmptyByKey();
    for i := 0 to |contexts|
      invariant IsConsistent(contexts[..i]) && byKey == ByKey(ContextKey, contexts[..i])
    {
      var context := contexts[i];
      var key := ContextKey(context);
      ByKeyHolds(ContextKey, contexts[..i]);
      assert contexts[..i + 1] == contexts[..i] + [context];
      if key in byKey && byKey[key] != context {
        assert byKey[key] in contexts[..i] && byKey[key] in contexts && context in contexts;
        return Err(GroundingConflict);
      }
      ByKeySteps(ContextKey, contexts[..i], context);
      ConsistentSteps(contexts[..i], context);
      byKey := byKey[key := context];
    }
    assert contexts[..|contexts|] == contexts;
    return Ok(byKey);
  }

  lemma EmptyByKey()
    ensures ByKey(ContextKey, []) == map[]
  {
  }

  lemma ConsistentSteps(contexts: seq<ColumnContext>, context: ColumnContext)
    requires IsConsistent(contexts)
    requires var key, byKey := ContextKey(context), ByKey(ContextKey, contexts);
             key in byKey ==> byKey[key] == context
    ensures IsConsistent(contexts + [context])
  {
    hide Lineage.Key, ByKey;
    ByKeyHolds(ContextKey, contexts);
    var byKey := ByKey(ContextKey, contexts);
    forall c | c in contexts && Lineage.Key(c.ref) == Lineage.Key(context.ref) ensures c == context {
      assert ContextKey(c) in byKey && byKey[ContextKey(c)] in contexts;
    }
  }

  /** The loop over one column's lineage sources. */
  method AddSources(fm: Formats, context: ColumnContext, sources: seq<LineageSource>, start: Requirements)
    returns (result: Result<Requirements, FactError>)
    requires IsGrounded(context)
    ensures result == Run(fm, start, Concat(SourceGroups(fm, context, sources)))
  {
    hide Run, Concat, EdgeFacts, Step;
    ghost var groups := SourceGroups(fm, context, sources);
    result := Ok(start);
    NoGroups(fm, start);
    for i := 0 to |sources|
      invariant result.Ok? && Run(fm, start, Concat(groups[..i])) == result
    {
      GroupSteps(fm, start, groups, i);
      if !IsGroundedSource(sources[i]) {
        RunFails(fm, result.value, GroundingIncomplete);
        return Err(GroundingIncomplete);
      }
      result := AddAll(fm, EdgeFacts(fm, context, sources[i]), result.value);
      if result.Err? {
        return;
      }
    }
    assert groups[..|sources|] == groups;
  }

  lemma RunFails(fm: Formats, start: Requirements, error: FactError)
    ensures Run(fm, start, [Fail(error)]) == Err(error)
  {
    RunsOne(fm, start, Fail(error));
  }

  /** The loop body for one column. */
  method AddContext(fm: Formats, context: ColumnContext, start: Requirements)
    returns (result: Result<Requirements, FactError>)
    ensures result == Run(fm, start, ContextEmissions(fm, context))
  {
    hide Run, ColumnFacts, SortedSources, Concat, Step;
    if !IsGrounded(context) {
      RunFails(fm, start, GroundingIncomplete);
      return Err(GroundingIncomplete);
    }
    var sources := SortedSources(context);
    RunJoins(fm, start, Adds(ColumnFacts(fm, context)), Concat(SourceGroups(fm, context, sources)));
    result := AddAll(fm, ColumnFacts(fm, context), start);
    if result.Ok? {
      result := AddSources(fm, context, sources, result.value);
    }
  }

  /** The loop over the columns, in key order. */
  method AddGrounding(fm: Formats, contexts: seq<ColumnContext>, start: Requirements)
    returns (result: Result<Requirements, FactError>)
    ensures result == Run(fm, start, GroundingEmissions(fm, contexts))
  {
    hide Run, Concat, Step, InKeyOrder, ContextEmissions, IsConsistent;
    var byKey := CollectContexts(contexts);
    if byKey.Err? {
      RunFails(fm, start, GroundingConflict);
      return Err(byKey.error);
    }
    var ordered := InKeyOrder(byKey.value);
    ghost var groups := ContextGroups(fm, ordered);
    result := Ok(start);
    NoGroups(fm, start);
    for i := 0 to |ordered|
      invariant result.Ok? && Run(fm, start, Concat(groups[..i])) == result
    {
      GroupSteps(fm, start, groups, i);
      result := AddContext(fm, ordered[i], result.value);
      if result.Err? {
        return;
      }
    }
    assert groups[..|ordered|] == groups;
  }

  /** `_required_governance_facts` */
  method RequiredFacts(fm: Formats, e: Evaluation) returns (result: Result<seq<Fact>, FactError>)
    ensures result == Outcome(fm, e)
  {
    hide Run, Step, Concat, GroundingEmissions, DatasetOrder, SortedFacts;
    var snapshot, datasets := SnapshotFacts(e), DatasetOrder(e);
    ghost var a, b := Adds(snapshot), Concat(DatasetGroups(e, datasets));
    ghost var c := GroundingEmissions(fm, Contexts(e));
    RunJoins(fm, map[], a, b);
    RunJoins(fm, map[], a + b, c);
    var requirements := AddAll(fm, snapshot, map[]);
    if requirements.Ok? {
      requirements := AddDatasets(fm, e, requirements.value);
    }
    if requirements.Ok? {
      requirements := AddGrounding(fm, Contexts(e), requirements.value);
    }
    if requirements.Err? {
      return Err(requirements.error);
    }
    return Ok(SortedFacts(requirements.value));
  }

  // ---------------------------------------------------------------- exactly the contributed facts

  predicate NothingFails(emissions: seq<Emission>) {
    forall i | 0 <= i < |emissions| :: emissions[i].Add?
  }

  predicate AddsAreValid(fm: Formats, emissions: seq<Emission>) {
    forall i | 0 <= i < |emissions| && emissions[i].Add? :: IsValidFact(fm, emissions[i].fact)
  }

  predicate AddsAgree(emissions: seq<Emission>) {
    forall f, g | f in emissions && g in emissions && f.Add? && g.Add? && f.fact.Key() == g.fact.Key() ::
      f.fact.value == g.fact.value
  }

  predicate Holds(requirements: Requirements, f: Fact) {
    f.Key() in requirements && requirements[f.Key()] == f.value
  }

  ghost predicate HoldsExactly(requirements: Requirements, emissions: seq<Emission>) {
    && (forall f :: Holds(requirements, f) <==> Add(f) in emissions)
    && (forall k | k in requirements :: Add(Fact(k.0, k.1, requirements[k])) in emissions)
  }

  /** A collection succeeds exactly when no step fails, every fact is valid and no two disagree; it then holds
    * exactly the facts added.
    */
  lemma {:induction false} RunIsExact(fm: Formats, emissions: seq<Emission>)
    ensures Run(fm, map[], emissions).Ok?
       <==> NothingFails(emissions) && AddsAreValid(fm, emissions) && AddsAgree(emissions)
    ensures Run(fm, map[], emissions).Ok? ==> HoldsExactly(Run(fm, map[], emissions).value, emissions)
  {
    hide IsValidFact, Run, Step, NothingFails, AddsAreValid, AddsAgree, HoldsExactly;
    if emissions == [] {
      NothingIsExact(fm);
    } else {
      var n := |emissions| - 1;
      var before, last := emissions[..n], emissions[n];
      RunIsExact(fm, before);
      assert emissions == before + [last];
      RunJoins(fm, map[], before, [last]);
      StepIsExact(fm, before, last);
    }
  }

  lemma NothingIsExact(fm: Formats)
    ensures Run(fm, map[], []) == Ok(map[]) && HoldsExactly(map[], [])
    ensures NothingFails([]) && AddsAreValid(fm, []) && AddsAgree([])
  {
  }

  lemma StepIsExact(fm: Formats, before: seq<Emission>, last: Emission)
    requires Run(fm, map[], before).Ok?
        <==> NothingFails(before) && AddsAreValid(fm, before) && AddsAgree(before)
    requires Run(fm, map[], before).Ok? ==> HoldsExactly(Run(fm, map[], before).value, before)
    ensures var emissions := before + [last];
            var result := RunOn(fm, Run(fm, map[], before), [last]);
            && (result.Ok? <==> NothingFails(emissions) && AddsAreValid(fm, emissions) && AddsAgree(emissions))
            && (result.Ok? ==> HoldsExactly(result.value, emissions))
  {
    hide IsValidFact, Run;
    var emissions := before + [last];
    assert emissions[|before|] == last;
    assert forall i | 0 <= i < |before| :: emissions[i] == before[i];
    if Run(fm, map[], before).Ok? {
      var requirements := Run(fm, map[], before).value;
      RunsOne(fm, requirements, last);
      if last.Add? {
        AddIsExact(requirements, before, last.fact);
      }
    }
  }

  lemma AddIsExact(requirements: Requirements, before: seq<Emission>, fact: Fact)
    requires AddsAgree(before) && HoldsExactly(requirements, before)
    ensures var emissions := before + [Add(fact)];
            var clash := fact.Key() in requirements && requirements[fact.Key()] != fact.value;
            && (AddsAgree(emissions) <==> !clash)
            && (!clash ==> HoldsExactly(requirements[fact.Key() := fact.value], emissions))
  {
    var emissions := before + [Add(fact)];
    var key := fact.Key();
    if key in requirements {
      var other := Fact(key.0, key.1, requirements[key]);
      assert Add(other) in before && Add(other) in emissions && Add(fact) in emissions;
    }
    forall f | f in before && f.Add? && f.fact.Key() == key ensures key in requirements && requirements[key] == f.fact.value {
      assert Holds(requirements, f.fact);
    }
  }

  /** The emissions of several groups are those of each. */
  lemma {:induction false} InConcat(groups: seq<seq<Emission>>, x: Emission)
    ensures x in Concat(groups) <==> exists i | 0 <= i < |groups| :: x in groups[i]
  {
    if groups != [] {
      var n := |groups| - 1;
      InConcat(groups[..n], x);
      assert forall i | 0 <= i < n :: groups[..n][i] == groups[i];
    }
  }

  lemma NothingFailsMeans(emissions: seq<Emission>)
    ensures NothingFails(emissions) <==> forall error :: Fail(error) !in emissions
  {
    if !NothingFails(emissions) {
      var i :| 0 <= i < |emissions| && !emissions[i].Add?;
      assert Fail(emissions[i].error) in emissions;
    }
  }

  lemma InAdds(facts: seq<Fact>, x: Emission)
    ensures x in Adds(facts) <==> x.Add? && x.fact in facts
  {
    var emissions := Adds(facts);
    if x.Add? && x.fact in facts {
      var i :| 0 <= i < |facts| && facts[i] == x.fact;
      assert emissions[i] == x;
    }
  }

  lemma InDatasets(e: Evaluation, x: Emission)
    ensures x in Concat(DatasetGroups(e, DatasetOrder(e)))
       <==> exists d | d in e.sourceDatasets :: x == DatasetEmission(e, d)
  {
    hide DatasetEmission, Concat;
    StringsAreOrdered();
    var datasets := DatasetOrder(e);
    var groups := DatasetGroups(e, datasets);
    InConcat(groups, x);
    if d :| d in e.sourceDatasets && x == DatasetEmission(e, d) {
      assert d in datasets;
      var i :| 0 <= i < |datasets| && datasets[i] == d;
      assert x in groups[i];
    }
    if x in Concat(groups) {
      var i :| 0 <= i < |groups| && x in groups[i];
      assert datasets[i] in datasets;
    }
  }

  lemma SortedSourcesAreSources(context: ColumnContext, s: LineageSource)
    requires HasDistinctSources(context)
    ensures s in SortedSources(context) <==> s in context.sources
  {
    hide Lineage.Key, ByKey;
    var byKey := ByKey(SourceKey, context.sources);
    ListsValues(byKey);
    ByKeyHolds(SourceKey, context.sources);
    if s in context.sources {
      var k := SourceKey(s);
      assert k in byKey && SourceKey(byKey[k]) == k && byKey[k] in context.sources;
      var i :| 0 <= i < |context.sources| && context.sources[i] == s;
      var j :| 0 <= j < |context.sources| && context.sources[j] == byKey[k];
      assert i == j;
    }
  }

  lemma InContext(fm: Formats, context: ColumnContext, x: Emission)
    requires HasDistinctSources(context)
    ensures x.Add? ==> (x in ContextEmissions(fm, context) <==> IsFromContext(fm, context, x.fact))
    ensures (exists error :: Fail(error) in ContextEmissions(fm, context)) <==> !IsFullyGrounded(context)
  {
    hide ColumnFacts, EdgeFacts, SortedSources, Concat, HasDistinctSources;
    if IsGrounded(context) {
      var sources := SortedSources(context);
      var groups := SourceGroups(fm, context, sources);
      forall y ensures y in ContextEmissions(fm, context)
                  <==> (y.Add? && y.fact in ColumnFacts(fm, context)) || exists i | 0 <= i < |groups| :: y in groups[i]
      {
        InAdds(ColumnFacts(fm, context), y);
        InConcat(groups, y);
      }
      InSources(fm, context, x);
    } else {
      assert Fail(GroundingIncomplete) in ContextEmissions(fm, context);
    }
  }

  lemma InSources(fm: Formats, context: ColumnContext, x: Emission)
    requires IsGrounded(context) && HasDistinctSources(context)
    ensures var groups := SourceGroups(fm, context, SortedSources(context));
            && (x.Add? ==> ((exists i | 0 <= i < |groups| :: x in groups[i])
                            <==> exists s | s in context.sources :: IsGroundedSource(s) && x.fact in EdgeFacts(fm, context, s)))
            && ((exists i | 0 <= i < |groups| :: Fail(GroundingIncomplete) in groups[i])
                <==> exists s | s in context.sources :: !IsGroundedSource(s))
            && (forall i, error | 0 <= i < |groups| && Fail(error) in groups[i] :: error == GroundingIncomplete)
  {
    hide EdgeFacts, SortedSources, HasDistinctSources;
    var sources := SortedSources(context);
    var groups := SourceGroups(fm, context, sources);
    forall s ensures s in sources <==> s in context.sources {
      SortedSourcesAreSources(context, s);
    }
    forall i, y: Emission | 0 <= i < |sources| && IsGroundedSource(sources[i])
      ensures y in groups[i] <==> y.Add? && y.fact in EdgeFacts(fm, context, sources[i])
    {
      InAdds(EdgeFacts(fm, context, sources[i]), y);
    }
    forall s | s in context.sources ensures exists i | 0 <= i < |sources| :: sources[i] == s {
      assert s in sources;
    }
  }

  lemma OrderedContextsAreContexts(contexts: seq<ColumnContext>, c: ColumnContext)
    requires IsConsistent(contexts)
    ensures c in InKeyOrder(ByKey(ContextKey, contexts)) <==> c in contexts
  {
    hide Lineage.Key, ByKey;
    var byKey := ByKey(ContextKey, contexts);
    ListsValues(byKey);
    ByKeyHolds(ContextKey, contexts);
    if c in contexts {
      var k := ContextKey(c);
      assert k in byKey && ContextKey(byKey[k]) == k && byKey[k] in contexts;
      assert byKey[k] == c;
    }
  }

  lemma InGrounding(fm: Formats, contexts: seq<ColumnContext>, x: Emission)
    requires IsConsistent(contexts)
    ensures x in GroundingEmissions(fm, contexts) <==> exists c | c in contexts :: x in ContextEmissions(fm, c)
  {
    hide ContextEmissions, Concat, IsConsistent, InKeyOrder;
    var ordered := InKeyOrder(ByKey(ContextKey, contexts));
    var groups := ContextGroups(fm, ordered);
    InConcat(groups, x);
    forall c ensures c in ordered <==> c in contexts {
      OrderedContextsAreContexts(contexts, c);
    }
    if c :| c in contexts && x in ContextEmissions(fm, c) {
      assert c in ordered;
      var i :| 0 <= i < |ordered| && ordered[i] == c;
      assert x in groups[i];
    }
    if x in Concat(groups) {
      var i :| 0 <= i < |groups| && x in groups[i];
      assert ordered[i] in ordered;
    }
  }

  lemma InEmissions(fm: Formats, e: Evaluation, x: Emission)
    ensures x in Emissions(fm, e)
       <==> || x in Adds(SnapshotFacts(e)) || x in Concat(DatasetGroups(e, DatasetOrder(e)))
            || x in GroundingEmissions(fm, Contexts(e))
  {
    hide GroundingEmissions, DatasetOrder, Concat;
  }

  lemma DatasetAdds(e: Evaluation, fact: Fact)
    ensures (exists d | d in e.sourceDatasets :: Add(fact) == DatasetEmission(e, d))
       <==> && fact.property == LOGICAL_NAME && fact.value in e.sourceDatasets
            && Candidates(e.claims, fact.value) == {fact.subject}
  {
    if Candidates(e.claims, fact.value) == {fact.subject} {
      var candidates := Candidates(e.claims, fact.value);
      assert fact.subject in candidates && |candidates| == 1;
    }
  }

  /** The facts added are exactly the contributed ones. */
  lemma AddsContributions(fm: Formats, e: Evaluation, fact: Fact)
    requires IsConsistent(Contexts(e)) && HasDistinctSourcesAll(Contexts(e))
    ensures Add(fact) in Emissions(fm, e) <==> IsContributed(fm, e, fact)
  {
    hide Emissions, GroundingEmissions, DatasetOrder, Concat, DatasetEmission, Candidates, IsFromContext, ContextEmissions,
      SnapshotFacts, IsConsistent, HasDistinctSources;
    InEmissions(fm, e, Add(fact));
    InAdds(SnapshotFacts(e), Add(fact));
    InDatasets(e, Add(fact));
    DatasetAdds(e, fact);
    InGrounding(fm, Contexts(e), Add(fact));
    forall c | c in Contexts(e) ensures Add(fact) in ContextEmissions(fm, c) <==> IsFromContext(fm, c, fact) {
      InContext(fm, c, Add(fact));
    }
  }

  /** No step fails exactly when the datasets are mapped and the contexts consistent and grounded. */
  lemma FailsUnlessGrounded(fm: Formats, e: Evaluation)
    requires HasDistinctSourcesAll(Contexts(e))
    ensures NothingFails(Emissions(fm, e))
       <==> DatasetsAreMapped(e) && IsConsistent(Contexts(e)) && AllGrounded(Contexts(e))
  {
    hide Emissions, DatasetOrder, Concat, Candidates, ContextEmissions, IsFullyGrounded,
      SnapshotFacts, NothingFails, HasDistinctSources, IsConsistent;
    NothingFailsMeans(Emissions(fm, e));
    forall error ensures Fail(error) in Emissions(fm, e)
                    <==> || (exists d | d in e.sourceDatasets :: Fail(error) == DatasetEmission(e, d))
                         || Fail(error) in GroundingEmissions(fm, Contexts(e))
    {
      InEmissions(fm, e, Fail(error));
      InAdds(SnapshotFacts(e), Fail(error));
      InDatasets(e, Fail(error));
    }
    DatasetFailures(e);
    GroundingFailures(fm, Contexts(e));
  }

  lemma DatasetFailures(e: Evaluation)
    ensures (exists d, error | d in e.sourceDatasets :: Fail(error) == DatasetEmission(e, d)) <==> !DatasetsAreMapped(e)
  {
    hide Candidates;
    forall d | d in e.sourceDatasets
      ensures |Candidates(e.claims, d)| == 1 <==> DatasetEmission(e, d).Add?
    {
    }
    if !DatasetsAreMapped(e) {
      var d :| d in e.sourceDatasets && |Candidates(e.claims, d)| != 1;
      assert Fail(DatasetEmission(e, d).error) == DatasetEmission(e, d);
    }
  }

  lemma GroundingFailures(fm: Formats, contexts: seq<ColumnContext>)
    requires HasDistinctSourcesAll(contexts)
    ensures (exists error :: Fail(error) in GroundingEmissions(fm, contexts))
       <==> !(IsConsistent(contexts) && AllGrounded(contexts))
  {
    hide ContextEmissions, IsFullyGrounded, HasDistinctSources, IsConsistent, Concat, InKeyOrder;
    if IsConsistent(contexts) {
      forall error ensures Fail(error) in GroundingEmissions(fm, contexts)
                      <==> exists c | c in contexts :: Fail(error) in ContextEmissions(fm, c)
      {
        InGrounding(fm, contexts, Fail(error));
      }
      forall c | c in contexts
        ensures (exists error :: Fail(error) in ContextEmissions(fm, c)) <==> !IsFullyGrounded(c)
      {
        InContext(fm, c, Fail(InvalidFact));
      }
    } else {
      assert Fail(GroundingConflict) in GroundingEmissions(fm, contexts);
    }
  }

  /** What a successful collection needs. */
  ghost predicate IsCollectable(fm: Formats, e: Evaluation) {
    && DatasetsAreMapped(e) && IsConsistent(Contexts(e)) && AllGrounded(Contexts(e))
    && FactsAreValid(fm, e) && FactsAgree(fm, e)
  }

  function FactKeys(facts: seq<Fact>): (keys: seq<FactKey>)
    ensures |keys| == |facts| && forall i | 0 <= i < |facts| :: keys[i] == facts[i].Key()
  {
    seq(|facts|, i requires 0 <= i < |facts| => facts[i].Key())
  }

  lemma SortedFactsIncrease(requirements: Requirements)
    ensures IsIncreasing(PairLess, FactKeys(SortedFacts(requirements)))
    ensures forall f :: f in SortedFacts(requirements) <==> Holds(requirements, f)
  {
    hide PairLess;
    PairsAreOrdered();
    var keys, facts := SortedKeys(PairLess, requirements.Keys), SortedFacts(requirements);
    SortedIsIncreasing(PairLess, requirements.Keys);
    assert FactKeys(facts) == keys;
    forall f: Fact ensures f in facts <==> Holds(requirements, f) {
      if Holds(requirements, f) {
        assert f.Key() in keys;
        var i :| 0 <= i < |keys| && keys[i] == f.Key();
        assert facts[i] == f;
      }
      if f in facts {
        var i :| 0 <= i < |facts| && facts[i] == f;
        assert keys[i] in keys;
      }
    }
  }

  /** The collection succeeds exactly when every dataset maps to one subject, contexts are consistent and
    * grounded, and the contributed facts are valid and agree; it then returns exactly the contributed facts,
    * by strictly increasing subject and property.
    */
  lemma CollectsExactlyContributions(fm: Formats, e: Evaluation)
    requires HasDistinctSourcesAll(Contexts(e))
    ensures Outcome(fm, e).Ok? <==> IsCollectable(fm, e)
    ensures Outcome(fm, e).Ok? ==>
              && (forall f :: f in Outcome(fm, e).value <==> IsContributed(fm, e, f))
              && IsIncreasing(PairLess, FactKeys(Outcome(fm, e).value))
  {
    hide Emissions, Run, IsContributed, DatasetsAreMapped, IsConsistent, AllGrounded, HasDistinctSourcesAll,
      NothingFails, AddsAreValid, AddsAgree, IsValidFact, SortedFacts, FactsAgree, FactsAreValid, PairLess;
    var emissions := Emissions(fm, e);
    RunIsExact(fm, emissions);
    FailsUnlessGrounded(fm, e);
    if NothingFails(emissions) {
      forall f: Fact ensures Add(f) in emissions <==> IsContributed(fm, e, f) {
        AddsContributions(fm, e, f);
      }
      ValidityAgrees(fm, e);
      AgreementAgrees(fm, e);
    }
    if Outcome(fm, e).Ok? {
      SortedFactsIncrease(Run(fm, map[], emissions).value);
      assert forall f :: Holds(Run(fm, map[], emissions).value, f) <==> IsContributed(fm, e, f);
    }
  }

  lemma ValidityAgrees(fm: Formats, e: Evaluation)
    requires NothingFails(Emissions(fm, e))
    requires forall f :: Add(f) in Emissions(fm, e) <==> IsContributed(fm, e, f)
    ensures AddsAreValid(fm, Emissions(fm, e)) <==> FactsAreValid(fm, e)
  {
    hide Emissions, IsContributed, IsValidFact;
    var emissions := Emissions(fm, e);
    forall i | 0 <= i < |emissions| ensures IsContributed(fm, e, emissions[i].fact) {
      assert emissions[i] in emissions && emissions[i] == Add(emissions[i].fact);
    }
    forall f | IsContributed(fm, e, f) ensures exists i | 0 <= i < |emissions| :: emissions[i] == Add(f) {
      assert Add(f) in emissions;
    }
  }

  lemma AgreementAgrees(fm: Formats, e: Evaluation)
    requires forall f :: Add(f) in Emissions(fm, e) <==> IsContributed(fm, e, f)
    ensures AddsAgree(Emissions(fm, e)) <==> FactsAgree(fm, e)
  {
    hide Emissions, IsContributed;
    var emissions := Emissions(fm, e);
    if FactsAgree(fm, e) {
      forall f, g | f in emissions && g in emissions && f.Add? && g.Add? && f.fact.Key() == g.fact.Key()
        ensures f.fact.value == g.fact.value
      {
        assert f == Add(f.fact) && g == Add(g.fact);
      }
    }
    if AddsAgree(emissions) {
      forall f, g | IsContributed(fm, e, f) && IsContributed(fm, e, g) && f.Key() == g.Key() ensures f.value == g.value {
        assert Add(f) in emissions && Add(g) in emissions;
      }
    }
  }

  // ---------------------------------------------------------------- order and duplication do not matter

  ghost predicate SameElements<T(!new)>(a: seq<T>, b: seq<T>) {
    forall x :: x in a <==> x in b
  }

  /** The same evidence, in any order and with any repetition. */
  ghost predicate SameEvidence(a: Evaluation, b: Evaluation) {
    && a.sourceIdentity == b.sourceIdentity && a.snapshotSha256 == b.snapshotSha256
    && a.catalogVersion == b.catalogVersion
    && SameElements(a.claims, b.claims) && SameElements(a.sourceDatasets, b.sourceDatasets)
    && SameElements(Contexts(a), Contexts(b))
  }

  lemma SameByKey(a: seq<ColumnContext>, b: seq<ColumnContext>)
    requires SameElements(a, b) && IsConsistent(a)
    ensures ByKey(ContextKey, a) == ByKey(ContextKey, b)
  {
    hide Lineage.Key, ByKey;
    ByKeyHolds(ContextKey, a);
    ByKeyHolds(ContextKey, b);
    var x, y := ByKey(ContextKey, a), ByKey(ContextKey, b);
    forall k ensures k in x <==> k in y {
      if k in x {
        assert x[k] in b && ContextKey(x[k]) == k;
      }
      if k in y {
        assert y[k] in a && ContextKey(y[k]) == k;
      }
    }
    forall k | k in x ensures x[k] == y[k] {
      assert ContextKey(x[k]) == ContextKey(y[k]) && x[k] in a && y[k] in a;
    }
  }

  /** The outcome, the error raised included, depends only on which claims, datasets and contexts there are. */
  lemma OrderDoesNotMatter(fm: Formats, a: Evaluation, b: Evaluation)
    requires SameEvidence(a, b)
    ensures Outcome(fm, a) == Outcome(fm, b)
  {
    hide Run, Concat, ContextEmissions, DatasetEmission, InKeyOrder, Candidates, SortedFacts, IsConsistent;
    assert (set d | d in a.sourceDatasets) == (set d | d in b.sourceDatasets);
    assert DatasetOrder(a) == DatasetOrder(b);
    forall d ensures DatasetEmission(a, d) == DatasetEmission(b, d) {
      SameDatasetEmission(a, b, d);
    }
    assert DatasetGroups(a, DatasetOrder(a)) == DatasetGroups(b, DatasetOrder(b));
    SameConsistency(Contexts(a), Contexts(b));
    if IsConsistent(Contexts(a)) {
      SameByKey(Contexts(a), Contexts(b));
    }
    assert Emissions(fm, a) == Emissions(fm, b);
  }

  lemma SameDatasetEmission(a: Evaluation, b: Evaluation, d: string)
    requires SameElements(a.claims, b.claims)
    ensures DatasetEmission(a, d) == DatasetEmission(b, d)
  {
    assert Candidates(a.claims, d) == Candidates(b.claims, d);
  }

  lemma SameConsistency(a: seq<ColumnContext>, b: seq<ColumnContext>)
    requires SameElements(a, b)
    ensures IsConsistent(a) <==> IsConsistent(b)
  {
    hide Lineage.Key;
  }
}
