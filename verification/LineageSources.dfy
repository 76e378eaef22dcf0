/** Which sources a lineage payload gives a field: where each comes from, and that no named column is dropped. */
module LineageSources {
  import opened Categories
  import opened Foundations
  import opened KeyOrder
  import opened Lineage

  /** The source stands for the column this entry names: the catalog's, with its category, or an unknown one. */
  predicate IsNamedBy(env: Env, catalog: Catalog, source: LineageSource, urn: string, entry: Entry) {
    && entry.Text? && source.urn == Some(urn)
    && if urn in env.urnToLogical && HasColumn(catalog, env.urnToLogical[urn], entry.text) then
         && source.ref == Ref(env.urnToLogical[urn], entry.text, None)
         && source.category == catalog[env.urnToLogical[urn]].fields[entry.text].category
       else source.ref == Ref("@datahub:" + urn, entry.text, None) && source.category == Unclassified
  }

  /** The source stands for lineage of the target that is not known, told apart by a digest. */
  predicate IsUnresolvedSource(env: Env, target: Ref, source: LineageSource, d: Discriminator, urn: Option<string>) {
    var key := target.dataset + "." + target.fieldPath;
    && source.ref == Ref("@datahub-lineage", key + ":" + env.digest(key, d, urn), None)
    && source.category == Unclassified && source.urn == urn
  }

  /** A list of column names, none of them blank. */
  predicate IsReadable(env: Env, r: Relationship) {
    && r.urn.Some? && r.columns.Some? && |r.columns.value| > 0
    && forall j | 0 <= j < |r.columns.value| :: r.columns.value[j].Text? && !env.isBlank(r.columns.value[j].text)
  }

  predicate ComesFromRelationship(
      env: Env, catalog: Catalog, target: Ref, source: LineageSource, index: nat, r: Relationship)
  {
    || (!IsReadable(env, r) && IsUnresolvedSource(env, target, source, RelationshipAt(index), r.urn))
    || (r.urn.Some? && r.columns.Some?
        && exists j | 0 <= j < |r.columns.value| :: IsNamedBy(env, catalog, source, r.urn.value, r.columns.value[j]))
  }

  predicate ComesFromPayload(env: Env, catalog: Catalog, target: Ref, source: LineageSource, payload: LineagePayload)
    requires payload.relationships.Some?
  {
    || IsUnresolvedSource(env, target, source, WholePayload, None)
    || exists i | 0 <= i < |payload.relationships.value| ::
         ComesFromRelationship(env, catalog, target, source, i, payload.relationships.value[i])
  }

  lemma {:induction false} InColumnSources(env: Env, catalog: Catalog, target: Ref, urn: string, columns: seq<string>, s: LineageSource)
    ensures s in ColumnSources(env, catalog, target, urn, columns)
       <==> exists j | 0 <= j < |columns| :: ColumnSource(env, catalog, target, urn, columns[j]) == Some(s)
  {
    hide ColumnSource;
    if columns != [] {
      var n := |columns| - 1;
      var before := columns[..n];
      InColumnSources(env, catalog, target, urn, before, s);
      assert forall j | 0 <= j < n :: before[j] == columns[j];
    }
  }

  lemma {:induction false} InAllSources(env: Env, catalog: Catalog, target: Ref, rs: seq<Relationship>, s: LineageSource)
    ensures s in AllSources(env, catalog, target, rs)
       <==> exists i | 0 <= i < |rs| :: s in RelationshipSources(env, catalog, target, i, rs[i])
  {
    hide RelationshipSources;
    if rs != [] {
      var n := |rs| - 1;
      var before := rs[..n];
      InAllSources(env, catalog, target, before, s);
      assert forall i | 0 <= i < n :: before[i] == rs[i];
    }
  }

  lemma ColumnComesFrom(env: Env, catalog: Catalog, target: Ref, urn: string, column: string, s: LineageSource)
    ensures ColumnSource(env, catalog, target, urn, column) == Some(s) ==> IsNamedBy(env, catalog, s, urn, Text(column))
    ensures ColumnSource(env, catalog, target, urn, column) == None ==>
              && urn in env.urnToLogical && HasColumn(catalog, env.urnToLogical[urn], column)
              && env.urnToLogical[urn] + "." + column == target.dataset + "." + target.fieldPath
  {
  }

  lemma RelationshipComesFrom(env: Env, catalog: Catalog, target: Ref, index: nat, r: Relationship, s: LineageSource)
    requires s in RelationshipSources(env, catalog, target, index, r)
    ensures ComesFromRelationship(env, catalog, target, s, index, r)
  {
    hide ColumnSource, ColumnSources, IsNamedBy;
    ReadableIsWellFormed(env, r);
    if !Malformed(env, r) {
      var columns := Texts(env, r.columns.value);
      InColumnSources(env, catalog, target, r.urn.value, columns, s);
      var j :| 0 <= j < |columns| && ColumnSource(env, catalog, target, r.urn.value, columns[j]) == Some(s);
      ColumnComesFrom(env, catalog, target, r.urn.value, columns[j], s);
      assert r.columns.value[j] == Text(columns[j]);
    }
  }

  /** No source is made up: each stands for a column the payload names, with the category the catalog gives it, or
    * for lineage that is missing.
    */
  lemma SourcesComeFromPayload(env: Env, catalog: Catalog, target: Ref, payload: LineagePayload, s: LineageSource)
    requires payload.relationships.Some? && s in Sources(env, catalog, target, payload)
    ensures ComesFromPayload(env, catalog, target, s, payload)
  {
    hide ByKey, InKeyOrder, AllSources, RelationshipSources, ComesFromRelationship;
    var rs := payload.relationships.value;
    var recorded := Recorded(env, catalog, target, payload);
    ByKeyHolds(SourceKey, recorded);
    ListsValues(ByKey(SourceKey, recorded));
    assert s in recorded;
    InAllSources(env, catalog, target, rs, s);
    if s in AllSources(env, catalog, target, rs) {
      var i: nat :| i < |rs| && s in RelationshipSources(env, catalog, target, i, rs[i]);
      RelationshipComesFrom(env, catalog, target, i, rs[i], s);
    }
  }

  /** The key under which a named column is listed. */
  function NamedKey(env: Env, catalog: Catalog, urn: string, column: string): string {
    if urn in env.urnToLogical && HasColumn(catalog, env.urnToLogical[urn], column) then env.urnToLogical[urn] + "." + column
    else "@datahub:" + urn + "." + column
  }

  /** No named column is dropped: it has a source under its key, unless it is a catalog column with the target's. */
  lemma NamedColumnsAreListed(env: Env, catalog: Catalog, target: Ref, payload: LineagePayload, i: nat, j: nat)
    requires payload.relationships.Some? && i < |payload.relationships.value|
    requires IsReadable(env, payload.relationships.value[i])
    requires j < |payload.relationships.value[i].columns.value|
    ensures var r := payload.relationships.value[i];
            var (urn, column) := (r.urn.value, r.columns.value[j].text);
            var key := NamedKey(env, catalog, urn, column);
            || (exists s | s in Sources(env, catalog, target, payload) :: s.ref.dataset + "." + s.ref.fieldPath == key)
            || (&& urn in env.urnToLogical && HasColumn(catalog, env.urnToLogical[urn], column)
                && key == target.dataset + "." + target.fieldPath)
  {
    hide ByKey, InKeyOrder, AllSources, ColumnSources;
    var rs := payload.relationships.value;
    var urn, column := rs[i].urn.value, rs[i].columns.value[j].text;
    var source := ColumnSource(env, catalog, target, urn, column);
    if source.Some? {
      ReadableIsWellFormed(env, rs[i]);
      var columns := Texts(env, rs[i].columns.value);
      assert rs[i].columns.value[j] == Text(columns[j]);
      InColumnSources(env, catalog, target, urn, columns, source.value);
      InAllSources(env, catalog, target, rs, source.value);
      var recorded := Recorded(env, catalog, target, payload);
      ByKeyHolds(SourceKey, recorded);
      ListsValues(ByKey(SourceKey, recorded));
      var listed := ByKey(SourceKey, recorded)[SourceKey(source.value)];
      assert listed in Sources(env, catalog, target, payload);
      assert SourceKey(listed) == SourceKey(source.value);
    }
  }

  lemma ReadableIsWellFormed(env: Env, r: Relationship)
    ensures IsReadable(env, r) <==> !Malformed(env, r)
  {
    if IsReadable(env, r) {
      assert forall j | 0 <= j < |r.columns.value| :: IsColumnName(env, r.columns.value[j]);
    }
    if !Malformed(env, r) {
      assert forall j | 0 <= j < |r.columns.value| :: IsColumnName(env, r.columns.value[j]);
    }
  }

  predicate IsListed(sources: seq<LineageSource>, key: string) {
    exists s | s in sources :: s.ref.dataset + "." + s.ref.fieldPath == key
  }

  function UnresolvedKey(env: Env, target: Ref, d: Discriminator, urn: Option<string>): string {
    var key := target.dataset + "." + target.fieldPath;
    "@datahub-lineage" + "." + (key + ":" + env.digest(key, d, urn))
  }

  /** Missing lineage is listed: for every relationship that cannot be read, and for a payload that is truncated or
    * has such a relationship.
    */
  lemma MissingLineageIsListed(env: Env, catalog: Catalog, target: Ref, payload: LineagePayload)
    requires payload.relationships.Some?
    ensures var rs := payload.relationships.value;
            var sources := Sources(env, catalog, target, payload);
            && (forall i | 0 <= i < |rs| && !IsReadable(env, rs[i]) ::
                  IsListed(sources, UnresolvedKey(env, target, RelationshipAt(i), rs[i].urn)))
            && (payload.hasMore || payload.truncatedByBudget
                || (exists i | 0 <= i < |rs| :: rs[i].truncatedChildren || !IsReadable(env, rs[i])) ==>
                  IsListed(sources, UnresolvedKey(env, target, WholePayload, None)))
  {
    hide IsReadable, Malformed, IsListed, AllSources, Sources;
    var rs := payload.relationships.value;
    forall i | 0 <= i < |rs| ensures IsReadable(env, rs[i]) <==> !Malformed(env, rs[i]) {
      ReadableIsWellFormed(env, rs[i]);
    }
    forall i | 0 <= i < |rs| && !IsReadable(env, rs[i])
      ensures IsListed(Sources(env, catalog, target, payload), UnresolvedKey(env, target, RelationshipAt(i), rs[i].urn))
    {
      var s := Unresolved(env, target, RelationshipAt(i), rs[i].urn);
      assert s in RelationshipSources(env, catalog, target, i, rs[i]);
      InAllSources(env, catalog, target, rs, s);
      RecordedIsListed(env, catalog, target, payload, s);
    }
    if AnyMalformed(env, rs) || IsTruncated(payload) {
      RecordedIsListed(env, catalog, target, payload, Unresolved(env, target, WholePayload, None));
    }
  }

  lemma RecordedIsListed(env: Env, catalog: Catalog, target: Ref, payload: LineagePayload, s: LineageSource)
    requires payload.relationships.Some? && s in Recorded(env, catalog, target, payload)
    ensures IsListed(Sources(env, catalog, target, payload), s.ref.dataset + "." + s.ref.fieldPath)
  {
    hide ByKey, InKeyOrder, Recorded;
    var recorded := Recorded(env, catalog, target, payload);
    ByKeyHolds(SourceKey, recorded);
    ListsValues(ByKey(SourceKey, recorded));
    var listed := ByKey(SourceKey, recorded)[SourceKey(s)];
    assert listed in Sources(env, catalog, target, payload);
    assert SourceKey(listed) == SourceKey(s);
  }
}
