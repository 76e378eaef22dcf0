/** The records of `disclosure/models.py`: frozen values and the hashes that bind them.
  *
  * SHA-256 over canonical JSON, the keyed HMAC, `casefold` and the SQL canonicalizer are foreign
  * code. They appear as function values in `Config`; what is assumed of them is stated as an
  * explicit hypothesis (`CollisionFree`, and for one theorem `TellsCohortsApart`). Times are integers, in microseconds: the
  * resolution of `datetime`, and of what is hashed.
  */
module DisclosureModels {
  import opened Categories
  import opened Foundations

  datatype GovernedColumn = GovernedColumn(datasetUrn: string, fieldPath: string, category: Category)

  datatype SemanticOutput = SemanticOutput(kind: string, sources: seq<GovernedColumn>)

  datatype SemanticRelease = SemanticRelease(
    sourceDatasetUrns: seq<string>,
    outputs: seq<SemanticOutput>,
    referencedColumns: seq<GovernedColumn>,
    joinColumns: seq<GovernedColumn>,
    groupKeys: seq<GovernedColumn>,
    aggregateFunctions: seq<string>,
    minimumGroupSize: Option<int>,
    semanticSha256: string)

  datatype SubjectDomain = SubjectDomain(
    fieldPath: string,
    category: Category,
    datasetUrns: seq<string>,
    governanceDomains: seq<string>,
    namespaceSha256: string)

  datatype Scope = Scope(principalId: string, agentId: Option<string>, subject: SubjectDomain, scopeSha256: string)

  datatype Composition = Composition(
    protectedRelease: bool, releaseFamilySha256: string, cohortHmacSha256: string)

  datatype Event = Event(
    scope: Scope,
    credentialId: string,
    receiptId: string,
    policyVersion: string,
    semantic: SemanticRelease,
    composition: Option<Composition>)

  datatype Record = Record(
    schemaVersion: string,
    recordId: string,
    sequence: int,
    createdAt: int,
    event: Event,
    eventSha256: string,
    previousContentSha256: Option<string>,
    contentSha256: string)

  datatype Commitment = Commitment(
    recordId: string, receiptId: string, scopeSha256: string, eventSha256: string, contentSha256: string)

  /** The JSON payloads that are ever hashed; their field names keep the kinds apart. */
  datatype Payload =
    | NamespacePayload(fieldPath: string, category: Category)
    | ScopePayload(principalId: string, agent: string, namespaceSha256: string)
    | EventPayload(event: Event)
    | RecordPayload(
        schemaVersion: string,
        recordId: string,
        sequence: int,
        createdAt: int,
        recordEvent: Event,
        eventSha256: string,
        previousContentSha256: Option<string>)

  datatype Config = Config(
    sha: Payload -> string,
    casefold: string -> string,
    canonicalize: (string, string) -> Option<string>,
    hmac: string -> string,
    maxProtectedReleases: int,
    windowMicroseconds: int)

  /** SHA-256 never maps two payloads to one digest. */
  ghost predicate CollisionFree(c: Config) {
    forall p: Payload, q: Payload :: NoCollision(c, p, q)
  }

  ghost predicate NoCollision(c: Config, p: Payload, q: Payload) {
    c.sha(p) == c.sha(q) ==> p == q
  }

  /** The keyed hash tells canonical queries apart. */
  ghost predicate TellsCohortsApart(c: Config) {
    forall a, b :: c.hmac(a) == c.hmac(b) ==> a == b
  }

  /** The bounds pydantic puts on the disclosure budget. A positive `window_seconds` below half a microsecond
    * becomes an empty `timedelta`.
    */
  predicate ValidBudget(c: Config) {
    1 <= c.maxProtectedReleases <= 1000 && 0 <= c.windowMicroseconds <= 31_536_000_000_000
  }

  predicate IsAlphanumeric(ch: char) {
    'A' <= ch <= 'Z' || 'a' <= ch <= 'z' || '0' <= ch <= '9'
  }

  predicate IsIdentifierChar(ch: char) {
    IsAlphanumeric(ch) || ch == '.' || ch == '_' || ch == ':' || ch == '@' || ch == '/' || ch == '-'
  }

  /** `^[A-Za-z0-9][A-Za-z0-9._:@/-]{0,127}$` */
  predicate IsIdentifier(s: string) {
    && 1 <= |s| <= 128
    && IsAlphanumeric(s[0])
    && forall i | 0 <= i < |s| :: IsIdentifierChar(s[i])
  }

  /** `^tj_auth_[0-9a-f]{32}$` */
  predicate IsAuthorizationId(s: string) {
    && |s| == 40
    && s[..8] == "tj_auth_"
    && forall i | 8 <= i < 40 :: '0' <= s[i] <= '9' || 'a' <= s[i] <= 'f'
  }

  predicate ValidSubject(c: Config, subject: SubjectDomain) {
    && (subject.category == DirectIdentifier || subject.category == StablePseudonym)
    && subject.namespaceSha256 == c.sha(NamespacePayload(c.casefold(subject.fieldPath), subject.category))
  }

  /** `agent_id or "@principal"` */
  function AgentLabel(agentId: Option<string>): string {
    if agentId.None? || agentId.value == "" then "@principal" else agentId.value
  }

  predicate ValidScope(c: Config, scope: Scope) {
    && IsIdentifier(scope.principalId)
    && (scope.agentId.Some? ==> IsIdentifier(scope.agentId.value))
    && ValidSubject(c, scope.subject)
    && scope.scopeSha256
       == c.sha(ScopePayload(scope.principalId, AgentLabel(scope.agentId), scope.subject.namespaceSha256))
  }

  predicate ValidEvent(c: Config, event: Event) {
    && ValidScope(c, event.scope)
    && (event.composition.Some? ==>
          event.composition.value.releaseFamilySha256 == event.semantic.semanticSha256)
  }

  function EventSha256(c: Config, event: Event): string {
    c.sha(EventPayload(event))
  }

  /** Every field of a record except its own content hash. */
  function RecordPayloadOf(r: Record): Payload {
    RecordPayload(
      r.schemaVersion, r.recordId, r.sequence, r.createdAt, r.event, r.eventSha256, r.previousContentSha256)
  }

  function RecordSha256(c: Config, r: Record): string {
    c.sha(RecordPayloadOf(r))
  }

  predicate ValidRecord(c: Config, r: Record) {
    && ValidEvent(c, r.event)
    && r.eventSha256 == EventSha256(c, r.event)
    && r.contentSha256 == RecordSha256(c, r)
  }

  /** Compare the security-partitioning fields only. */
  predicate SamePrivacyScope(c: Config, left: Scope, right: Scope) {
    && left.scopeSha256 == right.scopeSha256
    && left.principalId == right.principalId
    && left.agentId == right.agentId
    && left.subject.namespaceSha256 == right.subject.namespaceSha256
    && c.casefold(left.subject.fieldPath) == c.casefold(right.subject.fieldPath)
    && left.subject.category == right.subject.category
  }

  /** Equal scope hashes identify equal privacy scopes, also when one scope has no agent:
    * `@principal` is not an identifier, so it cannot be somebody's agent id.
    */
  lemma ScopeHashIdentifiesScope(c: Config, left: Scope, right: Scope)
    requires CollisionFree(c)
    requires ValidScope(c, left) && ValidScope(c, right)
    ensures left.scopeSha256 == right.scopeSha256 <==> SamePrivacyScope(c, left, right)
  {
    if left.scopeSha256 == right.scopeSha256 {
      assert NoCollision(
          c, ScopePayload(left.principalId, AgentLabel(left.agentId), left.subject.namespaceSha256),
          ScopePayload(right.principalId, AgentLabel(right.agentId), right.subject.namespaceSha256));
      assert NoCollision(
          c, NamespacePayload(c.casefold(left.subject.fieldPath), left.subject.category),
          NamespacePayload(c.casefold(right.subject.fieldPath), right.subject.category));
      assert !IsIdentifier("@principal");
    }
  }

  /** The two conditions of a hash chain: every record carries the hash of its own content, and names
    * the content hash of the record before it (the first names none).
    */
  predicate Sealed(c: Config, records: seq<Record>) {
    forall i | 0 <= i < |records| :: records[i].contentSha256 == RecordSha256(c, records[i])
  }

  predicate Linked(records: seq<Record>) {
    forall i | 0 <= i < |records| :: LinkedAt(records, i)
  }

  predicate LinkedAt(records: seq<Record>, i: nat)
    requires i < |records|
  {
    records[i].previousContentSha256 == HashBefore(records, i)
  }

  function HashBefore(records: seq<Record>, i: nat): Option<string>
    requires i <= |records|
  {
    if i == 0 then None else Some(records[i - 1].contentSha256)
  }

  lemma PrefixIsLinked(records: seq<Record>, n: nat)
    requires Linked(records) && n <= |records|
    ensures Linked(records[..n])
  {
    forall i | 0 <= i < n
      ensures LinkedAt(records[..n], i)
    {
      assert LinkedAt(records, i);
    }
  }

  lemma EqualHashesEqualRecords(c: Config, l: Record, r: Record)
    requires CollisionFree(c)
    requires l.contentSha256 == RecordSha256(c, l) && r.contentSha256 == RecordSha256(c, r)
    requires l.contentSha256 == r.contentSha256
    ensures l == r
  {
    assert NoCollision(c, RecordPayloadOf(l), RecordPayloadOf(r));
  }

  /** The head commits to the whole history: two chains whose last records have one content hash
    * are the same chain, record for record.
    */
  lemma {:induction false} HeadCommitsToHistory(c: Config, left: seq<Record>, right: seq<Record>)
    requires CollisionFree(c)
    requires Sealed(c, left) && Linked(left) && Sealed(c, right) && Linked(right)
    requires left != [] && right != []
    requires left[|left| - 1].contentSha256 == right[|right| - 1].contentSha256
    ensures left == right
  {
    var m, n := |left| - 1, |right| - 1;
    EqualHashesEqualRecords(c, left[m], right[n]);
    assert LinkedAt(left, m) && LinkedAt(right, n);
    if m > 0 && n > 0 {
      PrefixIsLinked(left, m);
      PrefixIsLinked(right, n);
      HeadCommitsToHistory(c, left[..m], right[..n]);
      assert left == left[..m] + [left[m]];
      assert right == right[..n] + [right[n]];
    }
  }

  /** A head hash found anywhere in another chain marks exactly the prefix that ends there. */
  lemma EarlierHeadMarksPrefix(c: Config, earlier: seq<Record>, current: seq<Record>, i: nat)
    requires CollisionFree(c)
    requires Sealed(c, earlier) && Linked(earlier) && Sealed(c, current) && Linked(current)
    requires earlier != [] && i < |current|
    requires earlier[|earlier| - 1].contentSha256 == current[i].contentSha256
    ensures earlier == current[..i + 1]
  {
    PrefixIsLinked(current, i + 1);
    HeadCommitsToHistory(c, earlier, current[..i + 1]);
  }
}
