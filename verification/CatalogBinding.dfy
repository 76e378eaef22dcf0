/** Binding every field's lineage into the catalog, as the loader of `context/datahub.py` does.
  *
  * `Fetch` is the metadata server: the upstream lineage it returns for one column of a dataset.
  */
module CatalogBinding {
  import opened Foundations
  import opened Lineage

  type Fetch = (string, string) -> LineagePayload

  function Target(n: string, c: string): Ref {
    Ref(n, c, None)
  }

  function LineageOf(catalog: Catalog, fetch: Fetch, n: string, c: string): LineagePayload
    requires n in catalog
  {
    fetch(catalog[n].urn, c)
  }

  predicate IsValid(catalog: Catalog, fetch: Fetch, n: string, c: string)
    requires n in catalog
  {
    LineageOf(catalog, fetch, n, c).relationships.Some?
  }

  /** Every payload the loader would fetch has a list of relationships. */
  predicate AllValid(catalog: Catalog, fetch: Fetch) {
    forall n | n in catalog :: forall c | c in catalog[n].fields :: IsValid(catalog, fetch, n, c)
  }

  /** The field with its lineage sources, computed from the catalog as it was first read. */
  function BoundField(env: Env, catalog: Catalog, fetch: Fetch, n: string, c: string): Field
    requires HasColumn(catalog, n, c) && IsValid(catalog, fetch, n, c)
  {
    catalog[n].fields[c].(lineageSources := Sources(env, catalog, Target(n, c), LineageOf(catalog, fetch, n, c)))
  }

  predicate DatasetValid(catalog: Catalog, fetch: Fetch, n: string)
    requires n in catalog
  {
    forall c | c in catalog[n].fields :: IsValid(catalog, fetch, n, c)
  }

  function BoundDataset(env: Env, catalog: Catalog, fetch: Fetch, n: string): Dataset
    requires n in catalog && DatasetValid(catalog, fetch, n)
  {
    catalog[n].(fields := map c | c in catalog[n].fields :: BoundField(env, catalog, fetch, n, c))
  }

  /** The catalog a successful load returns. It mentions no order of datasets or fields. */
  function Bound(env: Env, catalog: Catalog, fetch: Fetch): Catalog
    requires AllValid(catalog, fetch)
  {
    map n | n in catalog :: BoundDataset(env, catalog, fetch, n)
  }

  // ---------------------------------------------------------------- rebinding does not matter

  predicate SameColumns(a: Dataset, b: Dataset) {
    a.fields.Keys == b.fields.Keys && forall c | c in a.fields :: a.fields[c].category == b.fields[c].category
  }

  /** The same columns with the same categories; lineage may differ. */
  predicate SameShape(a: Catalog, b: Catalog) {
    a.Keys == b.Keys && forall n | n in a :: SameColumns(a[n], b[n])
  }

  lemma {:induction false} ShapeDecidesColumns(
      env: Env, a: Catalog, b: Catalog, target: Ref, urn: string, columns: seq<string>)
    requires SameShape(a, b)
    ensures ColumnSources(env, a, target, urn, columns) == ColumnSources(env, b, target, urn, columns)
  {
    hide Key;
    if columns != [] {
      ShapeDecidesColumns(env, a, b, target, urn, columns[..|columns| - 1]);
    }
  }

  lemma {:induction false} ShapeDecidesAll(env: Env, a: Catalog, b: Catalog, target: Ref, rs: seq<Relationship>)
    requires SameShape(a, b)
    ensures AllSources(env, a, target, rs) == AllSources(env, b, target, rs)
  {
    hide SameShape, ColumnSources;
    if rs != [] {
      var n := |rs| - 1;
      ShapeDecidesAll(env, a, b, target, rs[..n]);
      if !Malformed(env, rs[n]) {
        ShapeDecidesColumns(env, a, b, target, rs[n].urn.value, Texts(env, rs[n].columns.value));
      }
    }
  }

  /** What a lineage payload means depends on the catalog's columns and categories only. */
  lemma ShapeDecidesSources(env: Env, a: Catalog, b: Catalog, target: Ref, payload: LineagePayload)
    requires SameShape(a, b) && payload.relationships.Some?
    ensures Sources(env, a, target, payload) == Sources(env, b, target, payload)
  {
    hide SameShape, AllSources;
    ShapeDecidesAll(env, a, b, target, payload.relationships.value);
  }

  // ---------------------------------------------------------------- the loader's loops

  /** Partly bound: datasets still to do are as first read, the others are bound. */
  predicate PartlyBound(env: Env, catalog: Catalog, fetch: Fetch, datasets: Catalog, todo: set<string>) {
    && datasets.Keys == catalog.Keys
    && forall n | n in catalog ::
         if n in todo then datasets[n] == catalog[n]
         else DatasetValid(catalog, fetch, n) && datasets[n] == BoundDataset(env, catalog, fetch, n)
  }

  lemma PartlyBoundKeepsShape(env: Env, catalog: Catalog, fetch: Fetch, datasets: Catalog, todo: set<string>)
    requires PartlyBound(env, catalog, fetch, datasets, todo)
    ensures SameShape(datasets, catalog)
  {
    hide Sources;
    forall n | n in datasets ensures SameColumns(datasets[n], catalog[n]) {
      assert n in catalog;
    }
  }

  /** The loop over the fields of one dataset, in whatever order they come. */
  method BindDataset(env: Env, datasets: Catalog, ghost catalog: Catalog, fetch: Fetch, n: string)
    returns (result: Result<Dataset, LineageError>)
    requires n in datasets && n in catalog && datasets[n] == catalog[n] && SameShape(datasets, catalog)
    ensures result == (if DatasetValid(catalog, fetch, n) then Ok(BoundDataset(env, catalog, fetch, n))
                       else Err(InvalidRelationships))
  {
    hide SameShape, Sources;
    var dataset := datasets[n];
    var updated: map<string, Field> := map[];
    var todo := dataset.fields.Keys;
    while todo != {}
      invariant todo <= dataset.fields.Keys && updated.Keys == dataset.fields.Keys - todo
      invariant forall c | c in updated ::
                  IsValid(catalog, fetch, n, c) && updated[c] == BoundField(env, catalog, fetch, n, c)
      decreases |todo|
    {
      var c :| c in todo;
      todo := todo - {c};
      var lineage := fetch(dataset.urn, c);
      var sources := NormalizeLineageSources(env, datasets, Target(n, c), lineage);
      if sources.Err? {
        assert !IsValid(catalog, fetch, n, c);
        return Err(InvalidRelationships);
      }
      ShapeDecidesSources(env, datasets, catalog, Target(n, c), lineage);
      updated := updated[c := dataset.fields[c].(lineageSources := sources.value)];
    }
    assert updated == BoundDataset(env, catalog, fetch, n).fields;
    return Ok(dataset.(fields := updated));
  }

  /** The loop over the datasets. Each pass reads a catalog some of whose datasets are already rebound, and the
    * datasets may come in any order; the result is the same.
    */
  method BindLineage(env: Env, catalog: Catalog, fetch: Fetch) returns (result: Result<Catalog, LineageError>)
    ensures result == (if AllValid(catalog, fetch) then Ok(Bound(env, catalog, fetch)) else Err(InvalidRelationships))
  {
    hide SameShape, BoundDataset;
    var datasets := catalog;
    var todo := catalog.Keys;
    while todo != {}
      invariant todo <= catalog.Keys
      invariant PartlyBound(env, catalog, fetch, datasets, todo)
      decreases |todo|
    {
      PartlyBoundKeepsShape(env, catalog, fetch, datasets, todo);
      var n :| n in todo;
      todo := todo - {n};
      var dataset := BindDataset(env, datasets, catalog, fetch, n);
      if dataset.Err? {
        assert !DatasetValid(catalog, fetch, n);
        return Err(InvalidRelationships);
      }
      datasets := datasets[n := dataset.value];
    }
    assert AllValid(catalog, fetch) by {
      forall n | n in catalog ensures forall c | c in catalog[n].fields :: IsValid(catalog, fetch, n, c) {
        assert DatasetValid(catalog, fetch, n);
      }
    }
    assert datasets == Bound(env, catalog, fetch);
    return Ok(datasets);
  }

  /** After a successful load, a field has an unclassified source exactly when its lineage was missing. */
  lemma LoadKeepsMissingLineage(env: Env, catalog: Catalog, fetch: Fetch, n: string, c: string)
    requires NamesArePlain(catalog) && NamesAreUndotted(catalog)
    requires AllValid(catalog, fetch) && HasColumn(catalog, n, c)
    ensures HasColumn(Bound(env, catalog, fetch), n, c)
    ensures HasUnclassified(Bound(env, catalog, fetch)[n].fields[c].lineageSources)
       <==> IsMissing(env, catalog, Target(n, c), LineageOf(catalog, fetch, n, c))
  {
    hide NamesArePlain, Sources, IsMissing, HasUnclassified;
    assert IsValid(catalog, fetch, n, c) && DatasetValid(catalog, fetch, n);
    UndottedNamesShadowNothing(catalog, Target(n, c));
    MissingLineageIsKept(env, catalog, Target(n, c), LineageOf(catalog, fetch, n, c));
  }
}
