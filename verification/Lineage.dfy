/** Column lineage as `context/datahub.py` binds it into the catalog.
  *
  * A payload arrives parsed: each relationship's entity URN, its `lineageColumns` and its truncation mark.
  * `str.strip` on a column name and the digest in an unresolved source's name are foreign.
  */
module Lineage {
  import opened Categories
  import opened Foundations
  import opened KeyOrder

  datatype Ref = Ref(dataset: string, fieldPath: string, alias: Option<string>)

  function Key(ref: Ref): string {
    ref.dataset + "." + ref.fieldPath
  }

  datatype LineageSource = LineageSource(ref: Ref, category: Category, urn: Option<string>)

  datatype Field = Field(
    category: Category, tags: seq<string>, glossaryTerms: seq<string>, lineageSources: seq<LineageSource>)

  datatype Dataset = Dataset(urn: string, owner: Option<string>, domain: Option<string>, fields: map<string, Field>)

  type Catalog = map<string, Dataset>

  /** An entry of `lineageColumns`: text, or a JSON value that is not text. */
  datatype Entry = NotText | Text(text: string)

  /** `columns` is `None` when `lineageColumns` is not a list. */
  datatype Relationship = Relationship(urn: Option<string>, columns: Option<seq<Entry>>, truncatedChildren: bool)

  /** `relationships` is `None` when the payload has no list of objects there. */
  datatype LineagePayload = LineagePayload(relationships: Option<seq<Relationship>>, hasMore: bool, truncatedByBudget: bool)

  datatype Discriminator = RelationshipAt(index: nat) | WholePayload

  datatype LineageError = InvalidRelationships

  datatype Env = Env(
    isBlank: string -> bool,
    digest: (string, Discriminator, Option<string>) -> string,
    urnToLogical: map<string, string>)

  // ---------------------------------------------------------------- the sources of one field

  predicate IsColumnName(env: Env, entry: Entry) {
    entry.Text? && !env.isBlank(entry.text)
  }

  predicate AreColumnNames(env: Env, columns: seq<Entry>) {
    forall i | 0 <= i < |columns| :: IsColumnName(env, columns[i])
  }

  predicate Malformed(env: Env, r: Relationship) {
    r.urn.None? || r.columns.None? || r.columns.value == [] || !AreColumnNames(env, r.columns.value)
  }

  /** The texts of a well-formed column list. */
  function Texts(env: Env, columns: seq<Entry>): (texts: seq<string>)
    requires AreColumnNames(env, columns)
    ensures |texts| == |columns| && forall i | 0 <= i < |columns| :: columns[i] == Text(texts[i])
  {
    seq(|columns|, i requires 0 <= i < |columns| => (assert IsColumnName(env, columns[i]); columns[i].text))
  }

  function Unresolved(env: Env, target: Ref, discriminator: Discriminator, urn: Option<string>): LineageSource {
    LineageSource(
      Ref("@datahub-lineage", Key(target) + ":" + env.digest(Key(target), discriminator, urn), None), Unclassified, urn)
  }

  /** The catalog column a URN and a column name stand for, if there is one. */
  predicate IsKnown(env: Env, catalog: Catalog, urn: string, column: string) {
    && urn in env.urnToLogical && env.urnToLogical[urn] in catalog
    && column in catalog[env.urnToLogical[urn]].fields
  }

  /** `None` for the field's own lineage. */
  function ColumnSource(env: Env, catalog: Catalog, target: Ref, urn: string, column: string): Option<LineageSource> {
    if !IsKnown(env, catalog, urn, column) then
      Some(LineageSource(Ref("@datahub:" + urn, column, None), Unclassified, Some(urn)))
    else
      var logical := env.urnToLogical[urn];
      var ref := Ref(logical, column, None);
      if Key(ref) == Key(target) then None
      else Some(LineageSource(ref, catalog[logical].fields[column].category, Some(urn)))
  }

  function Single(source: Option<LineageSource>): seq<LineageSource> {
    if source.Some? then [source.value] else []
  }

  function ColumnSources(env: Env, catalog: Catalog, target: Ref, urn: string, columns: seq<string>): seq<LineageSource>
  {
    if columns == [] then []
    else
      ColumnSources(env, catalog, target, urn, columns[..|columns| - 1])
      + Single(ColumnSource(env, catalog, target, urn, columns[|columns| - 1]))
  }

  function RelationshipSources(env: Env, catalog: Catalog, target: Ref, index: nat, r: Relationship)
    : seq<LineageSource>
  {
    if Malformed(env, r) then [Unresolved(env, target, RelationshipAt(index), r.urn)]
    else ColumnSources(env, catalog, target, r.urn.value, Texts(env, r.columns.value))
  }

  function AllSources(env: Env, catalog: Catalog, target: Ref, rs: seq<Relationship>): seq<LineageSource> {
    if rs == [] then []
    else
      AllSources(env, catalog, target, rs[..|rs| - 1])
      + RelationshipSources(env, catalog, target, |rs| - 1, rs[|rs| - 1])
  }

  predicate AnyMalformed(env: Env, rs: seq<Relationship>) {
    exists i | 0 <= i < |rs| :: Malformed(env, rs[i])
  }

  /** `_lineage_payload_incomplete` */
  predicate IsTruncated(payload: LineagePayload) {
    || payload.hasMore || payload.truncatedByBudget
    || (payload.relationships.Some?
        && exists i | 0 <= i < |payload.relationships.value| :: payload.relationships.value[i].truncatedChildren)
  }

  /** Every source recorded for a field, in the order it is recorded. */
  function Recorded(env: Env, catalog: Catalog, target: Ref, payload: LineagePayload): seq<LineageSource>
    requires payload.relationships.Some?
  {
    AllSources(env, catalog, target, payload.relationships.value)
    + if AnyMalformed(env, payload.relationships.value) || IsTruncated(payload)
      then [Unresolved(env, target, WholePayload, None)] else []
  }

  function SourceKey(source: LineageSource): string {
    Key(source.ref)
  }

  function Sources(env: Env, catalog: Catalog, target: Ref, payload: LineagePayload): seq<LineageSource>
    requires payload.relationships.Some?
  {
    InKeyOrder(ByKey(SourceKey, Recorded(env, catalog, target, payload)))
  }

  method NormalizeLineageSources(env: Env, catalog: Catalog, target: Ref, payload: LineagePayload)
    returns (result: Result<seq<LineageSource>, LineageError>)
    ensures result == (if payload.relationships.None? then Err(InvalidRelationships)
                       else Ok(Sources(env, catalog, target, payload)))
  {
    hide ColumnSource, Key, ByKey, AllSources, Malformed, IsTruncated, RelationshipSources, InKeyOrder;
    if payload.relationships.None? {
      return Err(InvalidRelationships);
    }
    var rs := payload.relationships.value;
    var sources: map<string, LineageSource> := map[];
    var incomplete := IsTruncated(payload);
    NothingRecorded(env, catalog, target);
    for index := 0 to |rs|
      invariant sources == ByKey(SourceKey, AllSources(env, catalog, target, rs[..index]))
      invariant incomplete <==> AnyMalformed(env, rs[..index]) || IsTruncated(payload)
    {
      MalformedSteps(env, rs, index);
      AllSourcesStep(env, catalog, target, rs, index);
      sources := RecordRelationship(
        env, catalog, target, index, rs[index], sources, AllSources(env, catalog, target, rs[..index]));
      incomplete := incomplete || Malformed(env, rs[index]);
    }
    assert rs[..|rs|] == rs;
    ghost var all := AllSources(env, catalog, target, rs);
    if incomplete {
      var unresolved := Unresolved(env, target, WholePayload, None);
      ByKeySteps(SourceKey, all, unresolved);
      sources := sources[Key(unresolved.ref) := unresolved];
    } else {
      assert all + [] == all;
    }
    return Ok(InKeyOrder(sources));
  }

  lemma NothingRecorded(env: Env, catalog: Catalog, target: Ref)
    ensures ByKey(SourceKey, AllSources(env, catalog, target, [])) == map[] && !AnyMalformed(env, [])
  {
  }

  lemma AllSourcesStep(env: Env, catalog: Catalog, target: Ref, rs: seq<Relationship>, index: nat)
    requires index < |rs|
    ensures AllSources(env, catalog, target, rs[..index + 1])
         == AllSources(env, catalog, target, rs[..index]) + RelationshipSources(env, catalog, target, index, rs[index])
  {
    hide RelationshipSources;
    assert rs[..index + 1][..index] == rs[..index];
  }

  /** The body of the loop over relationships. */
  method RecordRelationship(env: Env, catalog: Catalog, target: Ref, index: nat, r: Relationship,
      recorded: map<string, LineageSource>, ghost before: seq<LineageSource>)
    returns (sources: map<string, LineageSource>)
    requires recorded == ByKey(SourceKey, before)
    ensures sources == ByKey(SourceKey, before + RelationshipSources(env, catalog, target, index, r))
  {
    hide ColumnSource, Key, ByKey, ColumnSources;
    if Malformed(env, r) {
      var unresolved := Unresolved(env, target, RelationshipAt(index), r.urn);
      ByKeySteps(SourceKey, before, unresolved);
      sources := recorded[Key(unresolved.ref) := unresolved];
    } else {
      sources := RecordColumns(env, catalog, target, r.urn.value, Texts(env, r.columns.value), recorded, before);
    }
  }

  /** The loop over the columns of one relationship. */
  method RecordColumns(env: Env, catalog: Catalog, target: Ref, urn: string, columns: seq<string>,
      recorded: map<string, LineageSource>, ghost before: seq<LineageSource>)
    returns (sources: map<string, LineageSource>)
    requires recorded == ByKey(SourceKey, before)
    ensures sources == ByKey(SourceKey, before + ColumnSources(env, catalog, target, urn, columns))
  {
    hide ColumnSource, Key, ByKey, ColumnSources;
    sources := recorded;
    assert columns[..0] == [];
    NoColumns(env, catalog, target, urn, before);
    for i := 0 to |columns|
      invariant sources == ByKey(SourceKey, before + ColumnSources(env, catalog, target, urn, columns[..i]))
    {
      ColumnSteps(env, catalog, target, urn, columns, i, before);
      var source := ColumnSource(env, catalog, target, urn, columns[i]);
      if source.Some? {
        sources := sources[Key(source.value.ref) := source.value];
      }
    }
    assert columns[..|columns|] == columns;
  }

  lemma NoColumns(env: Env, catalog: Catalog, target: Ref, urn: string, before: seq<LineageSource>)
    ensures before + ColumnSources(env, catalog, target, urn, []) == before
  {
  }

  lemma ColumnSteps(env: Env, catalog: Catalog, target: Ref, urn: string, columns: seq<string>, i: nat,
      before: seq<LineageSource>)
    requires i < |columns|
    ensures var source := ColumnSource(env, catalog, target, urn, columns[i]);
            var keyed := ByKey(SourceKey, before + ColumnSources(env, catalog, target, urn, columns[..i]));
            ByKey(SourceKey, before + ColumnSources(env, catalog, target, urn, columns[..i + 1]))
            == if source.Some? then keyed[Key(source.value.ref) := source.value] else keyed
  {
    hide ColumnSource, Key, ByKey;
    assert columns[..i + 1][..i] == columns[..i];
    var source := ColumnSource(env, catalog, target, urn, columns[i]);
    var done := ColumnSources(env, catalog, target, urn, columns[..i]);
    assert before + (done + Single(source)) == before + done + Single(source);
    if source.Some? {
      ByKeySteps(SourceKey, before + done, source.value);
    } else {
      assert before + done + [] == before + done;
    }
  }

  lemma MalformedSteps(env: Env, rs: seq<Relationship>, index: nat)
    requires index < |rs|
    ensures AnyMalformed(env, rs[..index + 1]) <==> AnyMalformed(env, rs[..index]) || Malformed(env, rs[index])
  {
    hide Malformed;
    var shorter, longer := rs[..index], rs[..index + 1];
    assert longer[index] == rs[index];
    assert forall i | 0 <= i < index :: longer[i] == shorter[i];
  }

  // ---------------------------------------------------------------- missing lineage

  predicate IsUnclassified(source: LineageSource) {
    source.category == Unclassified
  }

  predicate HasUnclassified(sources: seq<LineageSource>) {
    exists i | 0 <= i < |sources| :: IsUnclassified(sources[i])
  }

  /** A column that is not in the catalog, or that is unclassified there and is not the target itself. */
  predicate IsGap(env: Env, catalog: Catalog, target: Ref, urn: string, column: string) {
    IsKnown(env, catalog, urn, column) ==>
      var logical := env.urnToLogical[urn];
      && catalog[logical].fields[column].category == Unclassified
      && (logical, column) != (target.dataset, target.fieldPath)
  }

  predicate AnyGap(env: Env, catalog: Catalog, target: Ref, urn: string, columns: seq<string>) {
    exists i | 0 <= i < |columns| :: IsGap(env, catalog, target, urn, columns[i])
  }

  predicate HasGap(env: Env, catalog: Catalog, target: Ref, r: Relationship) {
    Malformed(env, r) || AnyGap(env, catalog, target, r.urn.value, Texts(env, r.columns.value))
  }

  /** An entry that is not a column name, or names a column that is unknown, or unclassified and not the target. */
  predicate IsUnaccountedEntry(env: Env, catalog: Catalog, target: Ref, urn: string, entry: Entry) {
    || entry.NotText? || env.isBlank(entry.text)
    || urn !in env.urnToLogical || !HasColumn(catalog, env.urnToLogical[urn], entry.text)
    || (&& catalog[env.urnToLogical[urn]].fields[entry.text].category == Unclassified
        && (env.urnToLogical[urn] != target.dataset || entry.text != target.fieldPath))
  }

  /** A relationship that is truncated, locates no dataset, lists no columns, or has an entry like that. */
  predicate IsUnaccounted(env: Env, catalog: Catalog, target: Ref, r: Relationship) {
    || r.truncatedChildren || r.urn == None || r.columns == None || |r.columns.value| == 0
    || exists j | 0 <= j < |r.columns.value| :: IsUnaccountedEntry(env, catalog, target, r.urn.value, r.columns.value[j])
  }

  /** The payload does not account for all of the field's lineage: it is truncated, or one of its relationships
    * does not account for itself.
    */
  predicate IsMissing(env: Env, catalog: Catalog, target: Ref, payload: LineagePayload)
    requires payload.relationships.Some?
  {
    || payload.hasMore || payload.truncatedByBudget
    || exists i | 0 <= i < |payload.relationships.value| ::
         IsUnaccounted(env, catalog, target, payload.relationships.value[i])
  }

  lemma UnaccountedExactly(env: Env, catalog: Catalog, target: Ref, r: Relationship)
    ensures IsUnaccounted(env, catalog, target, r) <==> r.truncatedChildren || HasGap(env, catalog, target, r)
  {
    if r.urn.Some? && r.columns.Some? {
      var urn, columns := r.urn.value, r.columns.value;
      forall j | 0 <= j < |columns|
        ensures IsUnaccountedEntry(env, catalog, target, urn, columns[j])
           <==> !IsColumnName(env, columns[j]) || IsGap(env, catalog, target, urn, columns[j].text)
      {
      }
      if AreColumnNames(env, columns) {
        assert forall j | 0 <= j < |columns| :: columns[j] == Text(Texts(env, columns)[j]);
      }
    }
  }

  lemma MissingExactly(env: Env, catalog: Catalog, target: Ref, payload: LineagePayload)
    requires payload.relationships.Some?
    ensures IsMissing(env, catalog, target, payload)
       <==> IsTruncated(payload) || AnyHasGap(env, catalog, target, payload.relationships.value)
  {
    hide IsUnaccounted, HasGap;
    var rs := payload.relationships.value;
    forall i | 0 <= i < |rs|
      ensures IsUnaccounted(env, catalog, target, rs[i]) <==> rs[i].truncatedChildren || HasGap(env, catalog, target, rs[i])
    {
      UnaccountedExactly(env, catalog, target, rs[i]);
    }
  }

  /** No logical name is empty or starts with `@`. */
  predicate NamesArePlain(catalog: Catalog) {
    forall n | n in catalog :: n != "" && n[0] != '@'
  }

  predicate HasColumn(catalog: Catalog, n: string, c: string) {
    n in catalog && c in catalog[n].fields
  }

  /** The key of an unclassified column other than the target is also the target's or a classified column's. */
  predicate IsShadowed(catalog: Catalog, target: Ref, n: string, c: string, n2: string, c2: string) {
    && HasColumn(catalog, n, c) && catalog[n].fields[c].category == Unclassified
    && (n, c) != (target.dataset, target.fieldPath)
    && Key(Ref(n, c, None)) == Key(Ref(n2, c2, None))
    && ((n2, c2) == (target.dataset, target.fieldPath)
        || (HasColumn(catalog, n2, c2) && catalog[n2].fields[c2].category != Unclassified))
  }

  ghost predicate NothingIsShadowed(catalog: Catalog, target: Ref) {
    forall n, c, n2, c2 :: !IsShadowed(catalog, target, n, c, n2, c2)
  }

  /** A source made up for missing lineage. */
  predicate IsMadeUp(source: LineageSource) {
    IsUnclassified(source) && "@datahub" <= source.ref.dataset
  }

  /** A source that is a catalog column other than the target. */
  predicate IsCatalogColumn(catalog: Catalog, target: Ref, source: LineageSource) {
    && HasColumn(catalog, source.ref.dataset, source.ref.fieldPath) && source.ref.alias.None?
    && source.category == catalog[source.ref.dataset].fields[source.ref.fieldPath].category
    && Key(source.ref) != Key(target)
  }

  predicate IsAccounted(catalog: Catalog, target: Ref, source: LineageSource) {
    IsMadeUp(source) || IsCatalogColumn(catalog, target, source)
  }

  predicate AllAccounted(catalog: Catalog, target: Ref, sources: seq<LineageSource>) {
    forall i | 0 <= i < |sources| :: IsAccounted(catalog, target, sources[i])
  }

  lemma ColumnIsAccounted(env: Env, catalog: Catalog, target: Ref, urn: string, column: string)
    requires NothingIsShadowed(catalog, target)
    ensures var source := ColumnSource(env, catalog, target, urn, column);
            && (source.Some? ==> IsAccounted(catalog, target, source.value))
            && (source.Some? && IsUnclassified(source.value) <==> IsGap(env, catalog, target, urn, column))
  {
    if IsKnown(env, catalog, urn, column) {
      var logical := env.urnToLogical[urn];
      var ref := Ref(logical, column, None);
      assert !IsShadowed(catalog, target, logical, column, target.dataset, target.fieldPath);
      assert Key(target) == Key(Ref(target.dataset, target.fieldPath, None));
    }
  }

  lemma Joins(a: seq<LineageSource>, b: seq<LineageSource>)
    ensures HasUnclassified(a + b) <==> HasUnclassified(a) || HasUnclassified(b)
  {
    if HasUnclassified(a) {
      var i :| 0 <= i < |a| && IsUnclassified(a[i]);
      assert (a + b)[i] == a[i];
    }
    if HasUnclassified(b) {
      var i :| 0 <= i < |b| && IsUnclassified(b[i]);
      assert (a + b)[|a| + i] == b[i];
    }
  }

  lemma SingleHasUnclassified(source: Option<LineageSource>)
    ensures HasUnclassified(Single(source)) <==> source.Some? && IsUnclassified(source.value)
  {
    if source.Some? {
      assert Single(source)[0] == source.value;
    }
  }

  lemma {:induction false} ColumnsAreAccounted(
      env: Env, catalog: Catalog, target: Ref, urn: string, columns: seq<string>)
    requires NothingIsShadowed(catalog, target)
    ensures var sources := ColumnSources(env, catalog, target, urn, columns);
            && AllAccounted(catalog, target, sources)
            && (HasUnclassified(sources) <==> AnyGap(env, catalog, target, urn, columns))
  {
    hide IsAccounted, IsGap, IsUnclassified, NothingIsShadowed, ColumnSource;
    if columns != [] {
      var n := |columns| - 1;
      var before, last := columns[..n], columns[n];
      var source := ColumnSource(env, catalog, target, urn, last);
      ColumnsAreAccounted(env, catalog, target, urn, before);
      ColumnIsAccounted(env, catalog, target, urn, last);
      Joins(ColumnSources(env, catalog, target, urn, before), Single(source));
      SingleHasUnclassified(source);
      assert forall i | 0 <= i < n :: before[i] == columns[i];
    }
  }

  predicate AnyHasGap(env: Env, catalog: Catalog, target: Ref, rs: seq<Relationship>) {
    exists i | 0 <= i < |rs| :: HasGap(env, catalog, target, rs[i])
  }

  lemma RelationshipIsAccounted(env: Env, catalog: Catalog, target: Ref, index: nat, r: Relationship)
    requires NothingIsShadowed(catalog, target)
    ensures var sources := RelationshipSources(env, catalog, target, index, r);
            && AllAccounted(catalog, target, sources)
            && (HasUnclassified(sources) <==> HasGap(env, catalog, target, r))
  {
    hide NothingIsShadowed, IsGap;
    if Malformed(env, r) {
      assert IsUnclassified(RelationshipSources(env, catalog, target, index, r)[0]);
    } else {
      ColumnsAreAccounted(env, catalog, target, r.urn.value, Texts(env, r.columns.value));
    }
  }

  lemma {:induction false} RelationshipsAreAccounted(env: Env, catalog: Catalog, target: Ref, rs: seq<Relationship>)
    requires NothingIsShadowed(catalog, target)
    ensures var sources := AllSources(env, catalog, target, rs);
            && AllAccounted(catalog, target, sources)
            && (HasUnclassified(sources) <==> AnyHasGap(env, catalog, target, rs))
  {
    hide IsAccounted, HasGap, IsUnclassified, NothingIsShadowed, RelationshipSources;
    if rs != [] {
      var n := |rs| - 1;
      var before := rs[..n];
      RelationshipsAreAccounted(env, catalog, target, before);
      RelationshipIsAccounted(env, catalog, target, n, rs[n]);
      Joins(AllSources(env, catalog, target, before), RelationshipSources(env, catalog, target, n, rs[n]));
      assert forall i | 0 <= i < n :: before[i] == rs[i];
    }
  }

  lemma RecordedIsAccounted(env: Env, catalog: Catalog, target: Ref, payload: LineagePayload)
    requires payload.relationships.Some? && NothingIsShadowed(catalog, target)
    ensures var sources := Recorded(env, catalog, target, payload);
            && AllAccounted(catalog, target, sources)
            && (HasUnclassified(sources) <==> IsMissing(env, catalog, target, payload))
  {
    hide NothingIsShadowed, IsTruncated, AllSources, Malformed, IsMissing;
    var rs := payload.relationships.value;
    MissingExactly(env, catalog, target, payload);
    RelationshipsAreAccounted(env, catalog, target, rs);
    if AnyMalformed(env, rs) || IsTruncated(payload) {
      var whole := [Unresolved(env, target, WholePayload, None)];
      assert IsUnclassified(whole[0]);
      Joins(AllSources(env, catalog, target, rs), whole);
      if AnyMalformed(env, rs) {
        var i :| 0 <= i < |rs| && Malformed(env, rs[i]);
        assert HasGap(env, catalog, target, rs[i]);
      }
    } else {
      Joins(AllSources(env, catalog, target, rs), []);
    }
  }

  /** Sources that share a key are both unclassified or both classified. */
  ghost predicate KeysAgree(sources: seq<LineageSource>) {
    forall i, j | 0 <= i < |sources| && 0 <= j < |sources| && Key(sources[i].ref) == Key(sources[j].ref) ::
      IsUnclassified(sources[i]) <==> IsUnclassified(sources[j])
  }

  lemma AccountedKeysAgree(catalog: Catalog, target: Ref, sources: seq<LineageSource>)
    requires NamesArePlain(catalog) && NothingIsShadowed(catalog, target) && AllAccounted(catalog, target, sources)
    ensures KeysAgree(sources)
  {
    hide NothingIsShadowed, NamesArePlain, IsAccounted, IsUnclassified, Key;
    forall i, j | 0 <= i < |sources| && 0 <= j < |sources| && Key(sources[i].ref) == Key(sources[j].ref)
      ensures IsUnclassified(sources[i]) <==> IsUnclassified(sources[j])
    {
      AccountedPairAgrees(catalog, target, sources[i], sources[j]);
    }
  }

  lemma AccountedPairAgrees(catalog: Catalog, target: Ref, a: LineageSource, b: LineageSource)
    requires NamesArePlain(catalog) && NothingIsShadowed(catalog, target)
    requires IsAccounted(catalog, target, a) && IsAccounted(catalog, target, b) && Key(a.ref) == Key(b.ref)
    ensures IsUnclassified(a) <==> IsUnclassified(b)
  {
    assert Key(a.ref)[0] == a.ref.dataset[0] || a.ref.dataset == "";
    assert Key(b.ref)[0] == b.ref.dataset[0] || b.ref.dataset == "";
    assert Key(a.ref) == Key(Ref(a.ref.dataset, a.ref.fieldPath, None));
    assert Key(b.ref) == Key(Ref(b.ref.dataset, b.ref.fieldPath, None));
    assert !IsShadowed(catalog, target, a.ref.dataset, a.ref.fieldPath, b.ref.dataset, b.ref.fieldPath);
    assert !IsShadowed(catalog, target, b.ref.dataset, b.ref.fieldPath, a.ref.dataset, a.ref.fieldPath);
    assert (a.ref.dataset, a.ref.fieldPath) == (target.dataset, target.fieldPath) ==> Key(a.ref) == Key(target);
    assert (b.ref.dataset, b.ref.fieldPath) == (target.dataset, target.fieldPath) ==> Key(b.ref) == Key(target);
  }

  lemma KeyingKeepsUnclassified(sources: seq<LineageSource>)
    requires KeysAgree(sources)
    ensures HasUnclassified(InKeyOrder(ByKey(SourceKey, sources))) <==> HasUnclassified(sources)
  {
    hide Key, IsUnclassified, ByKey;
    var keyed := ByKey(SourceKey, sources);
    var values := InKeyOrder(keyed);
    ListsValues(keyed);
    ByKeyHolds(SourceKey, sources);
    if HasUnclassified(sources) {
      var i :| 0 <= i < |sources| && IsUnclassified(sources[i]);
      var k := SourceKey(sources[i]);
      assert sources[i] in sources && k in keyed && keyed[k] in sources;
      var j :| 0 <= j < |sources| && sources[j] == keyed[k];
      assert IsUnclassified(sources[j]);
      assert keyed[k] in values;
      var p :| 0 <= p < |values| && values[p] == keyed[k];
    }
    if HasUnclassified(values) {
      var p :| 0 <= p < |values| && IsUnclassified(values[p]);
      assert values[p] in values;
      var k :| k in keyed && keyed[k] == values[p];
      assert keyed[k] in sources;
    }
  }

  /** Where no key is shadowed, a field gets an unclassified source exactly when its lineage is missing. */
  lemma MissingLineageIsKept(env: Env, catalog: Catalog, target: Ref, payload: LineagePayload)
    requires payload.relationships.Some? && NamesArePlain(catalog) && NothingIsShadowed(catalog, target)
    ensures HasUnclassified(Sources(env, catalog, target, payload)) <==> IsMissing(env, catalog, target, payload)
  {
    hide NothingIsShadowed, NamesArePlain, Recorded, IsMissing, AllAccounted, KeysAgree, ByKey, InKeyOrder;
    var sources := Recorded(env, catalog, target, payload);
    RecordedIsAccounted(env, catalog, target, payload);
    AccountedKeysAgree(catalog, target, sources);
    KeyingKeepsUnclassified(sources);
  }

  // ---------------------------------------------------------------- the sources are sorted by key

  /** A field's sources come in strictly increasing key order, so no governed column is listed twice. */
  lemma SourcesIncrease(env: Env, catalog: Catalog, target: Ref, payload: LineagePayload)
    requires payload.relationships.Some?
    ensures IsIncreasing(StringLess, KeysOf(SourceKey, Sources(env, catalog, target, payload)))
  {
    ListedKeysIncrease(SourceKey, Recorded(env, catalog, target, payload));
  }

  // ---------------------------------------------------------------- when keys are shadowed

  /** No logical name has a dot. */
  predicate NamesAreUndotted(catalog: Catalog) {
    forall n | n in catalog :: '.' !in n
  }

  /** A key splits at its first dot. */
  lemma LongerNameHasDot(n: string, c: string, n2: string, c2: string)
    requires n + "." + c == n2 + "." + c2 && |n| < |n2|
    ensures '.' in n2
  {
    assert n2[|n|] == (n2 + "." + c2)[|n|] == (n + "." + c)[|n|];
  }

  lemma UndottedKeyIsUnique(n: string, c: string, n2: string, c2: string)
    requires '.' !in n && '.' !in n2
    ensures Key(Ref(n, c, None)) == Key(Ref(n2, c2, None)) <==> (n, c) == (n2, c2)
  {
    var a, b := Key(Ref(n, c, None)), Key(Ref(n2, c2, None));
    if a == b {
      if |n| < |n2| {
        LongerNameHasDot(n, c, n2, c2);
      } else if |n2| < |n| {
        LongerNameHasDot(n2, c2, n, c);
      }
      assert n == a[..|n|] && c == a[|n| + 1..];
      assert n2 == b[..|n2|] && c2 == b[|n2| + 1..];
    }
  }

  /** Undotted names shadow nothing. */
  lemma UndottedNamesShadowNothing(catalog: Catalog, target: Ref)
    requires NamesAreUndotted(catalog) && '.' !in target.dataset
    ensures NothingIsShadowed(catalog, target)
  {
    hide Key;
    forall n, c, n2, c2 ensures !IsShadowed(catalog, target, n, c, n2, c2) {
      if IsShadowed(catalog, target, n, c, n2, c2) {
        UndottedKeyIsUnique(n, c, n2, c2);
        assert false;
      }
    }
  }

  /** The payload that names just the listed columns, one relationship each. */
  function NamingPayload(first: (string, string), second: (string, string)): LineagePayload {
    LineagePayload(Some([Relationship(Some(first.0), Some([Text(first.1)]), false),
                  Relationship(Some(second.0), Some([Text(second.1)]), false)]), false, false)
  }

  predicate Names(env: Env, catalog: Catalog, urn: string, n: string, c: string) {
    urn in env.urnToLogical && env.urnToLogical[urn] == n && HasColumn(catalog, n, c) && !env.isBlank(c)
  }

  /** Where a key is shadowed, a payload that names both columns loses the unclassified one: its lineage is
    * missing and no source says so.
    */
  lemma ShadowedLineageIsLost(env: Env, catalog: Catalog, target: Ref,
      n: string, c: string, n2: string, c2: string, urn: string, urn2: string)
    requires IsShadowed(catalog, target, n, c, n2, c2)
    requires Names(env, catalog, urn, n, c) && Names(env, catalog, urn2, n2, c2)
    ensures var payload := NamingPayload((urn, c), (urn2, c2));
            IsMissing(env, catalog, target, payload) && !HasUnclassified(Sources(env, catalog, target, payload))
  {
    hide ByKey, InKeyOrder, IsMissing, Sources;
    var payload := NamingPayload((urn, c), (urn2, c2));
    NamesGap(env, catalog, target, n, c, n2, c2, urn, urn2);
    RecordsBoth(env, catalog, target, urn, c, urn2, c2);
    var first, second := ColumnSource(env, catalog, target, urn, c), ColumnSource(env, catalog, target, urn2, c2);
    ShadowedPairIsReplaced(catalog, target, first, second);
    NothingUnclassified(env, catalog, target, payload, Single(first) + Single(second));
  }

  lemma NamesGap(env: Env, catalog: Catalog, target: Ref,
      n: string, c: string, n2: string, c2: string, urn: string, urn2: string)
    requires IsShadowed(catalog, target, n, c, n2, c2) && Names(env, catalog, urn, n, c)
    ensures IsMissing(env, catalog, target, NamingPayload((urn, c), (urn2, c2)))
  {
    hide Key;
    var rs := NamingPayload((urn, c), (urn2, c2)).relationships.value;
    assert IsUnaccountedEntry(env, catalog, target, urn, rs[0].columns.value[0]);
    assert IsUnaccounted(env, catalog, target, rs[0]);
  }

  lemma NothingUnclassified(env: Env, catalog: Catalog, target: Ref, payload: LineagePayload, recorded: seq<LineageSource>)
    requires payload.relationships.Some? && Recorded(env, catalog, target, payload) == recorded
    requires forall k | k in ByKey(SourceKey, recorded) :: !IsUnclassified(ByKey(SourceKey, recorded)[k])
    ensures !HasUnclassified(Sources(env, catalog, target, payload))
  {
    hide ByKey, InKeyOrder, Recorded;
    var values := InKeyOrder(ByKey(SourceKey, recorded));
    ListsValues(ByKey(SourceKey, recorded));
    forall p | 0 <= p < |values| ensures !IsUnclassified(values[p]) {
      assert values[p] in values;
    }
  }

  lemma RecordsBoth(env: Env, catalog: Catalog, target: Ref, urn: string, c: string, urn2: string, c2: string)
    requires !env.isBlank(c) && !env.isBlank(c2)
    ensures Recorded(env, catalog, target, NamingPayload((urn, c), (urn2, c2)))
         == Single(ColumnSource(env, catalog, target, urn, c)) + Single(ColumnSource(env, catalog, target, urn2, c2))
  {
    hide ColumnSource, AllSources;
    var payload := NamingPayload((urn, c), (urn2, c2));
    var rs := payload.relationships.value;
    OneColumnEach(env, catalog, target, rs[0], rs[1], urn, c, urn2, c2);
    assert rs == [rs[0], rs[1]];
    assert !Malformed(env, rs[0]) && !Malformed(env, rs[1]);
    assert AllSources(env, catalog, target, rs) + [] == AllSources(env, catalog, target, rs);
  }

  lemma OneColumn(env: Env, catalog: Catalog, target: Ref, index: nat, r: Relationship, urn: string, c: string)
    requires !env.isBlank(c) && r == Relationship(Some(urn), Some([Text(c)]), false)
    ensures RelationshipSources(env, catalog, target, index, r) == Single(ColumnSource(env, catalog, target, urn, c))
  {
    hide ColumnSource;
    assert Texts(env, [Text(c)]) == [c];
    assert [c][..0] == [] && !Malformed(env, r);
    assert ColumnSources(env, catalog, target, urn, [c]) == [] + Single(ColumnSource(env, catalog, target, urn, c));
    assert [] + Single(ColumnSource(env, catalog, target, urn, c)) == Single(ColumnSource(env, catalog, target, urn, c));
  }

  lemma OneColumnEach(env: Env, catalog: Catalog, target: Ref, a: Relationship, b: Relationship,
      urn: string, c: string, urn2: string, c2: string)
    requires !env.isBlank(c) && !env.isBlank(c2)
    requires a == Relationship(Some(urn), Some([Text(c)]), false) && b == Relationship(Some(urn2), Some([Text(c2)]), false)
    ensures AllSources(env, catalog, target, [a, b])
         == Single(ColumnSource(env, catalog, target, urn, c)) + Single(ColumnSource(env, catalog, target, urn2, c2))
  {
    hide ColumnSource;
    assert [a, b][..1] == [a] && [a][..0] == [];
    OneColumn(env, catalog, target, 0, a, urn, c);
    OneColumn(env, catalog, target, 1, b, urn2, c2);
    assert AllSources(env, catalog, target, [a]) == [] + RelationshipSources(env, catalog, target, 0, a);
  }

  lemma ShadowedPairIsReplaced(catalog: Catalog, target: Ref, first: Option<LineageSource>, second: Option<LineageSource>)
    requires second.Some? ==> !IsUnclassified(second.value)
    requires first.Some? ==> second.Some? && Key(first.value.ref) == Key(second.value.ref)
    ensures forall k | k in ByKey(SourceKey, Single(first) + Single(second)) ::
              !IsUnclassified(ByKey(SourceKey, Single(first) + Single(second))[k])
  {
    hide Key;
    if first.Some? {
      assert Single(first) + Single(second) == [first.value, second.value];
      assert [first.value, second.value][..1] == [first.value];
      assert [first.value][..0] == [];
      var k := Key(first.value.ref);
      assert ByKey(SourceKey, [first.value]) == map[k := first.value];
      assert ByKey(SourceKey, [first.value, second.value]) == map[k := second.value];
    } else if second.Some? {
      assert [] + [second.value] == [second.value];
      assert [second.value][..0] == [];
    }
  }
}
