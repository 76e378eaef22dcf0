/** Resolving a query plan against the governed catalog, as `context/fixture.py` does: a cache and a list of
  * failures are shared by the two passes over a plan's columns.
  */
module ContextResolver {
  import opened Categories
  import opened Foundations
  import opened KeyOrder
  import opened Lineage
  import opened CatalogBinding

  datatype Reason = UnresolvedDataset | UnresolvedColumn | UnclassifiedColumn

  datatype ColumnContext = ColumnContext(
    ref: Ref, category: Category, urn: Option<string>, tags: seq<string>, glossaryTerms: seq<string>,
    sources: seq<LineageSource>, resolved: bool)

  datatype QueryPlan = QueryPlan(
    projected: seq<Ref>, referenced: seq<Ref>, join: seq<Ref>, groupBy: seq<Ref>, containsWildcard: bool)

  datatype Resolution = Resolution(projected: seq<ColumnContext>, all: seq<ColumnContext>, failures: seq<Reason>)

  // ---------------------------------------------------------------- one column

  function UnresolvedContext(ref: Ref): ColumnContext {
    ColumnContext(ref, Unclassified, None, [], [], [], false)
  }

  function ResolveOne(catalog: Catalog, ref: Ref): (ColumnContext, Option<Reason>) {
    if "@" <= ref.dataset || ref.dataset !in catalog then (UnresolvedContext(ref), Some(UnresolvedDataset))
    else
      var dataset := catalog[ref.dataset];
      if ref.fieldPath !in dataset.fields then (UnresolvedContext(ref), Some(UnresolvedColumn))
      else
        var field := dataset.fields[ref.fieldPath];
        (ColumnContext(ref, field.category, Some(dataset.urn), field.tags, field.glossaryTerms,
                       field.lineageSources, true),
         if field.category == Unclassified || HasUnclassified(field.lineageSources) then Some(UnclassifiedColumn)
         else None)
  }

  function ContextOf(catalog: Catalog, ref: Ref): ColumnContext {
    ResolveOne(catalog, ref).0
  }

  function FailureOf(catalog: Catalog, ref: Ref): Option<Reason> {
    ResolveOne(catalog, ref).1
  }

  // ---------------------------------------------------------------- the shared cache

  datatype Progress = Progress(failures: seq<Reason>, cache: map<string, ColumnContext>)

  function Failing(failure: Option<Reason>): seq<Reason> {
    if failure.Some? then [failure.value] else []
  }

  /** Resolving one more reference: a key already cached is not resolved again. */
  function Visit(catalog: Catalog, progress: Progress, ref: Ref): Progress {
    if Key(ref) in progress.cache then progress
    else Progress(progress.failures + Failing(FailureOf(catalog, ref)),
                  progress.cache[Key(ref) := ContextOf(catalog, ref)])
  }

  function VisitAll(catalog: Catalog, progress: Progress, refs: seq<Ref>): Progress {
    if refs == [] then progress
    else Visit(catalog, VisitAll(catalog, progress, refs[..|refs| - 1]), refs[|refs| - 1])
  }

  function Keys(refs: seq<Ref>): set<string> {
    set r | r in refs :: Key(r)
  }

  lemma {:induction false} VisitCaches(catalog: Catalog, progress: Progress, refs: seq<Ref>)
    ensures var after := VisitAll(catalog, progress, refs).cache;
            && after.Keys == progress.cache.Keys + Keys(refs)
            && (forall k | k in progress.cache :: after[k] == progress.cache[k])
  {
    hide Key, ResolveOne;
    if refs != [] {
      var n := |refs| - 1;
      VisitCaches(catalog, progress, refs[..n]);
      assert refs == refs[..n] + [refs[n]];
      assert Keys(refs) == Keys(refs[..n]) + {Key(refs[n])};
    }
  }

  /** The cached contexts of these references, by key. */
  function Contexts(catalog: Catalog, progress: Progress, refs: seq<Ref>): map<string, ColumnContext> {
    VisitCaches(catalog, progress, refs);
    map k | k in Keys(refs) :: VisitAll(catalog, progress, refs).cache[k]
  }

  lemma NothingVisited(catalog: Catalog, progress: Progress)
    ensures VisitAll(catalog, progress, []) == progress && Keys([]) == {}
  {
  }

  lemma VisitSteps(catalog: Catalog, progress: Progress, refs: seq<Ref>, i: nat)
    requires i < |refs|
    ensures VisitAll(catalog, progress, refs[..i + 1]) == Visit(catalog, VisitAll(catalog, progress, refs[..i]), refs[i])
    ensures Keys(refs[..i + 1]) == Keys(refs[..i]) + {Key(refs[i])}
  {
    hide Key, Visit;
    assert refs[..i + 1][..i] == refs[..i];
    assert refs[..i + 1] == refs[..i] + [refs[i]];
  }

  method ResolveMany(catalog: Catalog, refs: seq<Ref>, progress: Progress)
    returns (contexts: seq<ColumnContext>, after: Progress)
    ensures after == VisitAll(catalog, progress, refs)
    ensures contexts == InKeyOrder(Contexts(catalog, progress, refs))
  {
    hide Key, ResolveOne, InKeyOrder, VisitAll, Keys;
    after := progress;
    NothingVisited(catalog, progress);
    var resolved: map<string, ColumnContext> := map[];
    for i := 0 to |refs|
      invariant after == VisitAll(catalog, progress, refs[..i])
      invariant resolved.Keys == Keys(refs[..i])
      invariant forall k | k in resolved :: k in after.cache && resolved[k] == after.cache[k]
    {
      var ref := refs[i];
      VisitSteps(catalog, progress, refs, i);
      if Key(ref) !in after.cache {
        var (context, failure) := ResolveOne(catalog, ref);
        var failures := after.failures;
        if failure.Some? {
          failures := failures + [failure.value];
        }
        after := Progress(failures, after.cache[Key(ref) := context]);
      }
      resolved := resolved[Key(ref) := after.cache[Key(ref)]];
    }
    assert refs[..|refs|] == refs;
    VisitCaches(catalog, progress, refs);
    assert resolved == Contexts(catalog, progress, refs);
    contexts := InKeyOrder(resolved);
  }

  // ---------------------------------------------------------------- merging and deduplicating

  method MergeRefs(refs: seq<Ref>) returns (merged: seq<Ref>)
    ensures merged == InKeyOrder(ByKey(Key, refs))
  {
    hide Key, InKeyOrder;
    var byKey: map<string, Ref> := map[];
    for i := 0 to |refs|
      invariant byKey == ByKey(Key, refs[..i])
    {
      assert refs[..i + 1][..i] == refs[..i];
      byKey := byKey[Key(refs[i]) := refs[i]];
    }
    assert refs[..|refs|] == refs;
    merged := InKeyOrder(byKey);
  }

  /** First occurrences, in order. */
  function Deduplicated(reasons: seq<Reason>): (unique: seq<Reason>)
    ensures forall r :: r in unique <==> r in reasons
    ensures forall i, j | 0 <= i < j < |unique| :: unique[i] != unique[j]
  {
    if reasons == [] then []
    else
      var before, last := Deduplicated(reasons[..|reasons| - 1]), reasons[|reasons| - 1];
      assert reasons == reasons[..|reasons| - 1] + [last];
      if last in before then before else before + [last]
  }

  // ---------------------------------------------------------------- resolving a plan

  /** The second pass: the referenced columns, or all structural ones where the plan lists none. */
  function ReferencedRefs(plan: QueryPlan): seq<Ref> {
    if plan.referenced != [] then plan.referenced
    else InKeyOrder(ByKey(Key, plan.projected + plan.join + plan.groupBy))
  }

  /** Every reference looked at, in order. */
  function Consulted(plan: QueryPlan): seq<Ref> {
    plan.projected + ReferencedRefs(plan)
  }

  function Start(plan: QueryPlan): Progress {
    Progress(if plan.containsWildcard then [UnresolvedColumn] else [], map[])
  }

  function Resolved(catalog: Catalog, plan: QueryPlan): Resolution {
    var first := VisitAll(catalog, Start(plan), plan.projected);
    Resolution(
      InKeyOrder(Contexts(catalog, Start(plan), plan.projected)),
      InKeyOrder(Contexts(catalog, first, ReferencedRefs(plan))),
      Deduplicated(VisitAll(catalog, first, ReferencedRefs(plan)).failures))
  }

  method Resolve(catalog: Catalog, plan: QueryPlan) returns (resolution: Resolution)
    ensures resolution == Resolved(catalog, plan)
  {
    hide Contexts, VisitAll, InKeyOrder, ByKey;
    var projected, progress := ResolveMany(catalog, plan.projected, Start(plan));
    var refs := plan.referenced;
    if refs == [] {
      refs := MergeRefs(plan.projected + plan.join + plan.groupBy);
    }
    var all, after := ResolveMany(catalog, refs, progress);
    return Resolution(projected, all, Deduplicated(after.failures));
  }

  // ---------------------------------------------------------------- what the failures say

  lemma {:induction false} VisitAllJoins(catalog: Catalog, progress: Progress, a: seq<Ref>, b: seq<Ref>)
    ensures VisitAll(catalog, VisitAll(catalog, progress, a), b) == VisitAll(catalog, progress, a + b)
  {
    hide Visit;
    if b == [] {
      assert a + b == a;
    } else {
      VisitAllJoins(catalog, progress, a, b[..|b| - 1]);
      assert (a + b)[..|a + b| - 1] == a + b[..|b| - 1];
    }
  }

  /** The catalog holds this column, and the reference is not one of the loader's own unresolved sources. */
  predicate IsGoverned(catalog: Catalog, ref: Ref) {
    (ref.dataset == "" || ref.dataset[0] != '@') && HasColumn(catalog, ref.dataset, ref.fieldPath)
  }

  /** Why the catalog cannot vouch for a reference, in the catalog's own terms. */
  predicate Fails(catalog: Catalog, ref: Ref, reason: Reason) {
    match reason
    case UnresolvedDataset => (ref.dataset != "" && ref.dataset[0] == '@') || ref.dataset !in catalog
    case UnresolvedColumn =>
      && (ref.dataset == "" || ref.dataset[0] != '@')
      && ref.dataset in catalog && ref.fieldPath !in catalog[ref.dataset].fields
    case UnclassifiedColumn =>
      && IsGoverned(catalog, ref)
      && var field := catalog[ref.dataset].fields[ref.fieldPath];
         || field.category == Unclassified
         || exists i | 0 <= i < |field.lineageSources| :: field.lineageSources[i].category == Unclassified
  }

  lemma FailsExactly(catalog: Catalog, ref: Ref, reason: Reason)
    ensures FailureOf(catalog, ref) == Some(reason) <==> Fails(catalog, ref, reason)
  {
    assert "@" <= ref.dataset <==> ref.dataset != "" && ref.dataset[0] == '@';
  }

  /** A context carries what the catalog holds for its column, or nothing at all. */
  predicate Describes(catalog: Catalog, context: ColumnContext, ref: Ref) {
    && context.ref == ref && (context.resolved <==> IsGoverned(catalog, ref))
    && (context.resolved ==>
          var field := catalog[ref.dataset].fields[ref.fieldPath];
          && context.category == field.category && context.urn == Some(catalog[ref.dataset].urn)
          && context.tags == field.tags && context.glossaryTerms == field.glossaryTerms
          && context.sources == field.lineageSources)
    && (!context.resolved ==>
          && context.category == Unclassified && context.urn == None
          && |context.tags| == |context.glossaryTerms| == |context.sources| == 0)
  }

  lemma DescribesExactly(catalog: Catalog, context: ColumnContext, ref: Ref)
    ensures context == ContextOf(catalog, ref) <==> Describes(catalog, context, ref)
  {
    assert "@" <= ref.dataset <==> ref.dataset != "" && ref.dataset[0] == '@';
  }

  /** No earlier reference has this one's key. */
  predicate IsFirst(refs: seq<Ref>, i: nat) {
    i < |refs| && forall j | 0 <= j < i :: Key(refs[j]) != Key(refs[i])
  }

  predicate FirstFails(catalog: Catalog, refs: seq<Ref>, i: nat, reason: Reason) {
    IsFirst(refs, i) && Fails(catalog, refs[i], reason)
  }

  lemma {:induction false} FailuresOfFirsts(catalog: Catalog, progress: Progress, refs: seq<Ref>, reason: Reason)
    requires progress.cache == map[]
    ensures reason in VisitAll(catalog, progress, refs).failures
       <==> reason in progress.failures || AnyFirstFails(catalog, refs, reason)
  {
    hide Key, ResolveOne, Fails;
    if refs != [] {
      var n := |refs| - 1;
      var before := refs[..n];
      FailuresOfFirsts(catalog, progress, before, reason);
      VisitCaches(catalog, progress, before);
      FirstsSplit(catalog, refs, reason);
      FailsExactly(catalog, refs[n], reason);
      assert IsFirst(refs, n) <==> Key(refs[n]) !in Keys(before) by {
        assert forall i | 0 <= i < n :: before[i] == refs[i];
      }
    }
  }

  predicate AnyFirstFails(catalog: Catalog, refs: seq<Ref>, reason: Reason) {
    exists i | 0 <= i < |refs| :: FirstFails(catalog, refs, i, reason)
  }

  lemma FirstsSplit(catalog: Catalog, refs: seq<Ref>, reason: Reason)
    requires refs != []
    ensures AnyFirstFails(catalog, refs, reason)
       <==> || AnyFirstFails(catalog, refs[..|refs| - 1], reason)
            || FirstFails(catalog, refs, |refs| - 1, reason)
  {
    hide Key, ResolveOne;
    var n := |refs| - 1;
    var before := refs[..n];
    forall i | 0 <= i < n ensures FirstFails(catalog, before, i, reason) <==> FirstFails(catalog, refs, i, reason) {
      assert forall j | 0 <= j <= i :: before[j] == refs[j];
    }
  }

  /** The failures are exactly the wildcard's and those of the first reference with each key. */
  lemma FailuresAreExact(catalog: Catalog, plan: QueryPlan, reason: Reason)
    ensures reason in Resolved(catalog, plan).failures
       <==> || (plan.containsWildcard && reason == UnresolvedColumn)
            || AnyFirstFails(catalog, Consulted(plan), reason)
  {
    hide AnyFirstFails, VisitAll, Contexts, InKeyOrder;
    VisitAllJoins(catalog, Start(plan), plan.projected, ReferencedRefs(plan));
    FailuresOfFirsts(catalog, Start(plan), Consulted(plan), reason);
  }

  lemma {:induction false} FirstWithKey(refs: seq<Ref>, i: nat) returns (first: nat)
    requires i < |refs|
    ensures first <= i && IsFirst(refs, first) && Key(refs[first]) == Key(refs[i])
  {
    hide Key;
    if j: nat :| j < i && Key(refs[j]) == Key(refs[i]) {
      first := FirstWithKey(refs, j);
    } else {
      first := i;
    }
  }

  lemma {:induction false} CacheHoldsFirst(catalog: Catalog, progress: Progress, refs: seq<Ref>, i: nat)
    requires progress.cache == map[] && IsFirst(refs, i)
    ensures var cache := VisitAll(catalog, progress, refs).cache;
            Key(refs[i]) in cache && cache[Key(refs[i])] == ContextOf(catalog, refs[i])
  {
    hide Key, ResolveOne;
    var n := |refs| - 1;
    var before := refs[..n];
    VisitCaches(catalog, progress, before);
    assert forall j | 0 <= j < n :: before[j] == refs[j];
    if i < n {
      CacheHoldsFirst(catalog, progress, before, i);
    } else {
      assert Key(refs[n]) !in Keys(before);
    }
  }

  lemma ContextsOfFirsts(catalog: Catalog, plan: QueryPlan, i: nat)
    requires IsFirst(Consulted(plan), i)
    ensures var ref := Consulted(plan)[i];
            var first := VisitAll(catalog, Start(plan), plan.projected);
            var inProjected, inAll := Contexts(catalog, Start(plan), plan.projected), Contexts(catalog, first, ReferencedRefs(plan));
            && (Key(ref) in inProjected ==> inProjected[Key(ref)] == ContextOf(catalog, ref))
            && (Key(ref) in inAll ==> inAll[Key(ref)] == ContextOf(catalog, ref))
  {
    hide Key, ResolveOne, ReferencedRefs, VisitAll, Keys;
    var first := VisitAll(catalog, Start(plan), plan.projected);
    CacheHoldsFirst(catalog, Start(plan), Consulted(plan), i);
    VisitAllJoins(catalog, Start(plan), plan.projected, ReferencedRefs(plan));
    VisitCaches(catalog, Start(plan), plan.projected);
    VisitCaches(catalog, first, ReferencedRefs(plan));
  }

  function ContextKey(context: ColumnContext): string {
    Key(context.ref)
  }

  /** One context for every key of the references, in increasing key order, each describing the first of the
    * consulted references that has its key.
    */
  ghost predicate ListsFirsts(catalog: Catalog, contexts: seq<ColumnContext>, refs: seq<Ref>, consulted: seq<Ref>) {
    && IsIncreasing(StringLess, KeysOf(ContextKey, contexts))
    && (forall k :: k in KeysOf(ContextKey, contexts) <==> k in Keys(refs))
    && (forall x | x in contexts :: DescribesFirst(catalog, x, consulted))
  }

  predicate DescribesFirst(catalog: Catalog, context: ColumnContext, refs: seq<Ref>) {
    exists i | 0 <= i < |refs| :: IsFirst(refs, i) && Describes(catalog, context, refs[i])
  }

  lemma ListedAreFirsts(catalog: Catalog, contexts: map<string, ColumnContext>, refs: seq<Ref>, consulted: seq<Ref>)
    requires contexts.Keys == Keys(refs)
    requires forall i | 0 <= i < |consulted| && IsFirst(consulted, i) && Key(consulted[i]) in contexts ::
               contexts[Key(consulted[i])] == ContextOf(catalog, consulted[i])
    requires forall r | r in refs :: r in consulted
    ensures ListsFirsts(catalog, InKeyOrder(contexts), refs, consulted)
  {
    hide Key, ResolveOne, InKeyOrder, StringLess;
    forall k | k in contexts ensures ContextKey(contexts[k]) == k && DescribesFirst(catalog, contexts[k], consulted) {
      var r :| r in refs && Key(r) == k;
      var i :| 0 <= i < |consulted| && consulted[i] == r;
      var f := FirstWithKey(consulted, i);
      DescribesExactly(catalog, contexts[k], consulted[f]);
    }
    KeyedListIncreases(ContextKey, contexts);
    ListsValues(contexts);
  }

  /** Both passes list the columns they were asked for and agree on every column they share. */
  lemma ContextsAreOfFirsts(catalog: Catalog, plan: QueryPlan)
    ensures ListsFirsts(catalog, Resolved(catalog, plan).projected, plan.projected, Consulted(plan))
    ensures ListsFirsts(catalog, Resolved(catalog, plan).all, ReferencedRefs(plan), Consulted(plan))
  {
    hide Key, ResolveOne, ReferencedRefs, VisitAll, InKeyOrder, ListsFirsts, ContextOf;
    var first, consulted := VisitAll(catalog, Start(plan), plan.projected), Consulted(plan);
    var inProjected := Contexts(catalog, Start(plan), plan.projected);
    var inAll := Contexts(catalog, first, ReferencedRefs(plan));
    forall i | 0 <= i < |consulted| && IsFirst(consulted, i)
      ensures Key(consulted[i]) in inProjected ==> inProjected[Key(consulted[i])] == ContextOf(catalog, consulted[i])
      ensures Key(consulted[i]) in inAll ==> inAll[Key(consulted[i])] == ContextOf(catalog, consulted[i])
    {
      ContextsOfFirsts(catalog, plan, i);
    }
    ListedAreFirsts(catalog, inProjected, plan.projected, consulted);
    ListedAreFirsts(catalog, inAll, ReferencedRefs(plan), consulted);
  }

  // ---------------------------------------------------------------- unclassified columns are reported

  /** The columns a plan projects, references, joins on or groups by. */
  predicate Mentions(plan: QueryPlan, ref: Ref) {
    ref in plan.projected || ref in plan.referenced || ref in plan.join || ref in plan.groupBy
  }

  /** The model's own consistency check: a plan that lists its referenced columns lists every structural one. */
  predicate ListsStructural(plan: QueryPlan) {
    plan.referenced != [] ==> Keys(plan.projected + plan.join + plan.groupBy) <= Keys(plan.referenced)
  }

  lemma MergedKeepsKeys(refs: seq<Ref>)
    ensures ByKey(Key, refs).Keys == Keys(refs)
    ensures forall k | k in ByKey(Key, refs) :: ByKey(Key, refs)[k] in refs && Key(ByKey(Key, refs)[k]) == k
  {
    hide Key, ByKey;
    ByKeyHolds(Key, refs);
  }

  /** A reference with the key of any mentioned column is consulted, and every consulted one is mentioned. */
  lemma MentionedIsConsulted(plan: QueryPlan, ref: Ref) returns (i: nat)
    requires ListsStructural(plan) && Mentions(plan, ref)
    ensures i < |Consulted(plan)| && Key(Consulted(plan)[i]) == Key(ref)
  {
    hide Key, InKeyOrder;
    var structural := plan.projected + plan.join + plan.groupBy;
    assert Key(ref) in Keys(structural) || Key(ref) in Keys(plan.referenced);
    var consulted, refs := Consulted(plan), ReferencedRefs(plan);
    assert exists r | r in refs :: Key(r) == Key(ref) by {
      if plan.referenced == [] {
        MergedKeepsKeys(structural);
        ListsValues(ByKey(Key, structural));
        assert ByKey(Key, structural)[Key(ref)] in refs;
      }
    }
    var j :| 0 <= j < |refs| && Key(refs[j]) == Key(ref);
    i := |plan.projected| + j;
    assert consulted[i] == refs[j];
  }

  lemma ConsultedIsMentioned(plan: QueryPlan, i: nat)
    requires i < |Consulted(plan)|
    ensures Mentions(plan, Consulted(plan)[i])
  {
    hide Key, InKeyOrder;
    if i >= |plan.projected| && plan.referenced == [] {
      var structural := plan.projected + plan.join + plan.groupBy;
      MergedKeepsKeys(structural);
      ListsValues(ByKey(Key, structural));
      var refs := InKeyOrder(ByKey(Key, structural));
      assert refs[i - |plan.projected|] in refs;
    }
  }

  ghost predicate MentionsUndotted(plan: QueryPlan) {
    forall ref | Mentions(plan, ref) :: '.' !in ref.dataset
  }

  /** What a reference resolves to depends on its dataset and column, not on its alias. */
  lemma SameKeySameColumn(a: Ref, b: Ref)
    requires Key(a) == Key(b) && '.' !in a.dataset && '.' !in b.dataset
    ensures a.dataset == b.dataset && a.fieldPath == b.fieldPath
  {
    assert Key(a) == Key(Ref(a.dataset, a.fieldPath, None)) && Key(b) == Key(Ref(b.dataset, b.fieldPath, None));
    UndottedKeyIsUnique(a.dataset, a.fieldPath, b.dataset, b.fieldPath);
  }

  /** Where no mentioned dataset name has a dot, resolution reports a reason exactly when the catalog fails some
    * mentioned column for it, despite the cache; a wildcard counts as an unresolved column.
    */
  lemma ReasonsAreExact(catalog: Catalog, plan: QueryPlan, reason: Reason)
    requires ListsStructural(plan) && MentionsUndotted(plan)
    ensures reason in Resolved(catalog, plan).failures
       <==> || (plan.containsWildcard && reason == UnresolvedColumn)
            || exists ref :: Mentions(plan, ref) && Fails(catalog, ref, reason)
  {
    hide Key, Resolved, Consulted, Mentions;
    var consulted := Consulted(plan);
    FailuresAreExact(catalog, plan, reason);
    if ref :| Mentions(plan, ref) && Fails(catalog, ref, reason) {
      var i := MentionedIsConsulted(plan, ref);
      var first := FirstWithKey(consulted, i);
      ConsultedIsMentioned(plan, first);
      SameKeySameColumn(consulted[first], ref);
      assert FirstFails(catalog, consulted, first, reason);
    }
    if AnyFirstFails(catalog, consulted, reason) {
      var i: nat :| i < |consulted| && FirstFails(catalog, consulted, i, reason);
      ConsultedIsMentioned(plan, i);
      assert Fails(catalog, consulted[i], reason);
    }
  }

  /** In particular an unclassified column, or one with an unclassified source, is reported exactly when the plan
    * mentions one.
    */
  lemma UnclassifiedIsReported(catalog: Catalog, plan: QueryPlan)
    requires ListsStructural(plan) && MentionsUndotted(plan)
    ensures UnclassifiedColumn in Resolved(catalog, plan).failures
       <==> exists ref :: Mentions(plan, ref) && Fails(catalog, ref, UnclassifiedColumn)
  {
    ReasonsAreExact(catalog, plan, UnclassifiedColumn);
  }

  /** Even where the plan mentions dotted dataset names, mentioning an unclassified column of a catalog without
    * such names never passes silently: the plan fails with that reason or with an unresolved dataset.
    */
  lemma UnclassifiedNeverPasses(catalog: Catalog, plan: QueryPlan, ref: Ref)
    requires NamesAreUndotted(catalog) && ListsStructural(plan)
    requires Mentions(plan, ref) && Fails(catalog, ref, UnclassifiedColumn)
    ensures UnclassifiedColumn in Resolved(catalog, plan).failures || UnresolvedDataset in Resolved(catalog, plan).failures
  {
    hide Key, Resolved, Consulted, ListsStructural, Mentions, HasUnclassified;
    var consulted := Consulted(plan);
    FailuresAreExact(catalog, plan, UnclassifiedColumn);
    FailuresAreExact(catalog, plan, UnresolvedDataset);
    var i := MentionedIsConsulted(plan, ref);
    var first := FirstWithKey(consulted, i);
    if '.' in consulted[first].dataset {
      assert FirstFails(catalog, consulted, first, UnresolvedDataset);
    } else {
      SameKeySameColumn(consulted[first], ref);
      assert FirstFails(catalog, consulted, first, UnclassifiedColumn);
    }
  }

  /** The cache can hide the reason itself: two references that share a key are resolved once, as the first. */
  lemma DottedReferenceHidesReason(catalog: Catalog, ref: Ref, dotted: Ref)
    requires NamesAreUndotted(catalog) && Fails(catalog, ref, UnclassifiedColumn)
    requires Key(ref) == Key(dotted) && '.' in dotted.dataset
    ensures var plan := QueryPlan([dotted, ref], [], [], [], false);
            UnclassifiedColumn !in Resolved(catalog, plan).failures && UnresolvedDataset in Resolved(catalog, plan).failures
  {
    hide Key, Resolved, InKeyOrder, HasUnclassified;
    var plan := QueryPlan([dotted, ref], [], [], [], false);
    FailuresAreExact(catalog, plan, UnclassifiedColumn);
    FailuresAreExact(catalog, plan, UnresolvedDataset);
    var consulted := Consulted(plan);
    assert consulted[0] == dotted;
    forall i | 0 <= i < |consulted| ensures !FirstFails(catalog, consulted, i, UnclassifiedColumn) {
      ConsultedIsMentioned(plan, i);
      assert Key(consulted[i]) == Key(consulted[0]);
    }
    assert FirstFails(catalog, consulted, 0, UnresolvedDataset);
  }

  lemma UnclassifiedSourceFails(catalog: Catalog, ref: Ref)
    requires IsGoverned(catalog, ref) && HasUnclassified(catalog[ref.dataset].fields[ref.fieldPath].lineageSources)
    ensures Fails(catalog, ref, UnclassifiedColumn)
  {
    var sources := catalog[ref.dataset].fields[ref.fieldPath].lineageSources;
    var i :| 0 <= i < |sources| && IsUnclassified(sources[i]);
    assert sources[i].category == Unclassified;
  }

  /** Missing lineage is never lost: after a load, a plan that mentions a field whose lineage payload was
    * truncated, malformed or named an unmapped, unknown or unclassified column is reported as unclassified.
    */
  lemma MissingLineageIsReported(env: Env, catalog: Catalog, fetch: Fetch, plan: QueryPlan, ref: Ref)
    requires NamesArePlain(catalog) && NamesAreUndotted(catalog) && AllValid(catalog, fetch)
    requires ListsStructural(plan) && MentionsUndotted(plan) && Mentions(plan, ref)
    requires HasColumn(catalog, ref.dataset, ref.fieldPath)
    requires IsMissing(env, catalog, Target(ref.dataset, ref.fieldPath),
                       LineageOf(catalog, fetch, ref.dataset, ref.fieldPath))
    ensures UnclassifiedColumn in Resolved(Bound(env, catalog, fetch), plan).failures
  {
    hide Key, Resolved, IsMissing, Mentions, MentionsUndotted, HasUnclassified, Sources, AllValid;
    LoadKeepsMissingLineage(env, catalog, fetch, ref.dataset, ref.fieldPath);
    var loaded := Bound(env, catalog, fetch);
    UnclassifiedSourceFails(loaded, ref);
    UnclassifiedIsReported(loaded, plan);
  }
}
