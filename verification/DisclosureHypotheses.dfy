/** The hypothesis of the ledger's theorems can be met: what is hashed is countable (texts, integers and lists of
  * them), so a function can tell all of it apart and no theorem is empty.
  */
module DisclosureHypotheses {
  import opened Categories
  import opened Foundations
  import opened SelfDelimitingCodes
  import opened DisclosureModels

  function CategoryView(category: Category): int {
    match category
    case DirectIdentifier => 0
    case StablePseudonym => 1
    case QuasiIdentifier => 2
    case SensitiveAttribute => 3
    case PublicOrLowRisk => 4
    case Unclassified => 5
  }

  function CategoryCode(): Category -> string {
    Via(CategoryView, IntCode())
  }

  lemma CategoryIsCode()
    ensures IsCode(CategoryCode())
  {
    IntIsCode();
    forall a, b ensures SameImage(CategoryView, a, b) {
    }
    ViaIsCode(CategoryView, IntCode());
  }

  type ColumnTuple = (string, (string, Category))

  function ColumnView(c: GovernedColumn): ColumnTuple {
    (c.datasetUrn, (c.fieldPath, c.category))
  }

  function ColumnCode(): GovernedColumn -> string {
    Via(ColumnView, PairCode(StringCode(), PairCode(StringCode(), CategoryCode())))
  }

  lemma ColumnIsCode()
    ensures IsCode(ColumnCode())
  {
    StringIsCode();
    CategoryIsCode();
    PairIsCode(StringCode(), CategoryCode());
    PairIsCode(StringCode(), PairCode(StringCode(), CategoryCode()));
    forall a, b ensures SameImage(ColumnView, a, b) {
    }
    ViaIsCode(ColumnView, PairCode(StringCode(), PairCode(StringCode(), CategoryCode())));
  }

  function OutputView(o: SemanticOutput): (string, seq<GovernedColumn>) {
    (o.kind, o.sources)
  }

  function OutputCode(): SemanticOutput -> string {
    Via(OutputView, PairCode(StringCode(), ListCode(ColumnCode())))
  }

  lemma OutputIsCode()
    ensures IsCode(OutputCode())
  {
    StringIsCode();
    ColumnIsCode();
    ListIsCode(ColumnCode());
    PairIsCode(StringCode(), ListCode(ColumnCode()));
    forall a, b ensures SameImage(OutputView, a, b) {
    }
    ViaIsCode(OutputView, PairCode(StringCode(), ListCode(ColumnCode())));
  }

  /** The columns of a release, its texts, its outputs and its threshold. */
  function ReleaseView(r: SemanticRelease)
    : (seq<seq<GovernedColumn>>, (seq<seq<string>>, (seq<SemanticOutput>, Option<int>)))
  {
    ([r.referencedColumns, r.joinColumns, r.groupKeys],
     ([r.sourceDatasetUrns, r.aggregateFunctions, [r.semanticSha256]], (r.outputs, r.minimumGroupSize)))
  }

  function ReleaseCode(): SemanticRelease -> string {
    Via(ReleaseView,
        PairCode(ListCode(ListCode(ColumnCode())),
                 PairCode(ListCode(ListCode(StringCode())), PairCode(ListCode(OutputCode()), OptionCode(IntCode())))))
  }

  lemma ReleaseIsCode()
    ensures IsCode(ReleaseCode())
  {
    ColumnIsCode();
    ListIsCode(ColumnCode());
    ListIsCode(ListCode(ColumnCode()));
    TextListsAreCode();
    OutputIsCode();
    ListIsCode(OutputCode());
    IntIsCode();
    OptionIsCode(IntCode());
    PairIsCode(ListCode(OutputCode()), OptionCode(IntCode()));
    var rest := PairCode(ListCode(OutputCode()), OptionCode(IntCode()));
    PairIsCode(ListCode(ListCode(StringCode())), rest);
    PairIsCode(ListCode(ListCode(ColumnCode())), PairCode(ListCode(ListCode(StringCode())), rest));
    forall a, b ensures SameImage(ReleaseView, a, b) {
      if ReleaseView(a) == ReleaseView(b) {
        var p, q := ReleaseView(a), ReleaseView(b);
        assert forall i | 0 <= i < 3 :: p.0[i] == q.0[i] && p.1.0[i] == q.1.0[i];
        assert p.1.0[2][0] == q.1.0[2][0];
      }
    }
    ViaIsCode(ReleaseView, PairCode(ListCode(ListCode(ColumnCode())), PairCode(ListCode(ListCode(StringCode())), rest)));
  }

  /** A scope, its subject included, as texts and a category. */
  function ScopeView(s: Scope): (seq<seq<string>>, Category) {
    ([[s.principalId, s.scopeSha256, s.subject.fieldPath, s.subject.namespaceSha256], Texts(s.agentId),
      s.subject.datasetUrns, s.subject.governanceDomains], s.subject.category)
  }

  function ScopeCode(): Scope -> string {
    Via(ScopeView, PairCode(ListCode(ListCode(StringCode())), CategoryCode()))
  }

  lemma ScopeIsCode()
    ensures IsCode(ScopeCode())
  {
    TextListsAreCode();
    CategoryIsCode();
    PairIsCode(ListCode(ListCode(StringCode())), CategoryCode());
    ScopeViewIsInjective();
    ViaIsCode(ScopeView, PairCode(ListCode(ListCode(StringCode())), CategoryCode()));
  }

  lemma ScopeViewIsInjective()
    ensures IsInjective(ScopeView)
  {
    forall a, b ensures SameImage(ScopeView, a, b) {
      if ScopeView(a) == ScopeView(b) {
        var p, q := ScopeView(a).0, ScopeView(b).0;
        assert forall i | 0 <= i < 4 :: p[i] == q[i];
        assert forall i | 0 <= i < 4 :: p[0][i] == q[0][i];
        assert |p[1]| == |q[1]| && (p[1] != [] ==> p[1][0] == q[1][0]);
      }
    }
  }

  function CompositionView(c: Composition): (bool, seq<string>) {
    (c.protectedRelease, [c.releaseFamilySha256, c.cohortHmacSha256])
  }

  function CompositionCode(): Composition -> string {
    Via(CompositionView, PairCode(BoolCode(), ListCode(StringCode())))
  }

  lemma CompositionIsCode()
    ensures IsCode(CompositionCode())
  {
    BoolIsCode();
    TextListsAreCode();
    PairIsCode(BoolCode(), ListCode(StringCode()));
    forall a, b ensures SameImage(CompositionView, a, b) {
      if CompositionView(a) == CompositionView(b) {
        var p, q := CompositionView(a).1, CompositionView(b).1;
        assert p[0] == q[0] && p[1] == q[1];
      }
    }
    ViaIsCode(CompositionView, PairCode(BoolCode(), ListCode(StringCode())));
  }

  function EventView(e: Event): (seq<string>, (Scope, (SemanticRelease, Option<Composition>))) {
    ([e.credentialId, e.receiptId, e.policyVersion], (e.scope, (e.semantic, e.composition)))
  }

  function EventCode(): Event -> string {
    Via(EventView, PairCode(ListCode(StringCode()),
                            PairCode(ScopeCode(), PairCode(ReleaseCode(), OptionCode(CompositionCode())))))
  }

  lemma EventIsCode()
    ensures IsCode(EventCode())
  {
    TextListsAreCode();
    ScopeIsCode();
    ReleaseIsCode();
    CompositionIsCode();
    OptionIsCode(CompositionCode());
    var rest := PairCode(ReleaseCode(), OptionCode(CompositionCode()));
    PairIsCode(ReleaseCode(), OptionCode(CompositionCode()));
    PairIsCode(ScopeCode(), rest);
    PairIsCode(ListCode(StringCode()), PairCode(ScopeCode(), rest));
    forall a, b ensures SameImage(EventView, a, b) {
      if EventView(a) == EventView(b) {
        var p, q := EventView(a).0, EventView(b).0;
        assert p[0] == q[0] && p[1] == q[1] && p[2] == q[2];
      }
    }
    ViaIsCode(EventView, PairCode(ListCode(StringCode()), PairCode(ScopeCode(), rest)));
  }

  /** The kind of a payload and its parts: texts, integers, categories and events. */
  function PayloadView(p: Payload): (seq<int>, (seq<seq<string>>, (seq<Category>, seq<Event>))) {
    match p
    case NamespacePayload(fieldPath, category) => ([0], ([[fieldPath]], ([category], [])))
    case ScopePayload(principalId, agent, namespaceSha256) => ([1], ([[principalId, agent, namespaceSha256]], ([], [])))
    case EventPayload(event) => ([2], ([], ([], [event])))
    case RecordPayload(schemaVersion, recordId, sequence, createdAt, event, eventSha256, previous) =>
      ([3, sequence, createdAt], ([[schemaVersion, recordId, eventSha256], Texts(previous)], ([], [event])))
  }

  lemma PayloadViewIsInjective()
    ensures IsInjective(PayloadView)
  {
    forall a, b ensures SameImage(PayloadView, a, b) {
      if PayloadView(a) == PayloadView(b) {
        var (kind, (texts, (categories, events))) := PayloadView(a);
        var (kind', (texts', (categories', events'))) := PayloadView(b);
        assert kind[0] == kind'[0];
        match a
        case NamespacePayload(_, _) => assert texts[0][0] == texts'[0][0] && categories[0] == categories'[0];
        case ScopePayload(_, _, _) => assert forall i | 0 <= i < 3 :: texts[0][i] == texts'[0][i];
        case EventPayload(_) => assert events[0] == events'[0];
        case RecordPayload(_, _, _, _, _, _, _) =>
          assert kind[1] == kind'[1] && kind[2] == kind'[2] && events[0] == events'[0];
          assert forall i | 0 <= i < 3 :: texts[0][i] == texts'[0][i];
          assert texts[1] == texts'[1] && |texts[1]| == |texts'[1]| && (texts[1] != [] ==> texts[1][0] == texts'[1][0]);
      }
    }
  }

  function PayloadCode(): Payload -> string {
    Via(PayloadView,
        PairCode(ListCode(IntCode()),
                 PairCode(ListCode(ListCode(StringCode())), PairCode(ListCode(CategoryCode()), ListCode(EventCode())))))
  }

  lemma PayloadIsCode()
    ensures IsCode(PayloadCode())
  {
    IntIsCode();
    ListIsCode(IntCode());
    TextListsAreCode();
    CategoryIsCode();
    ListIsCode(CategoryCode());
    EventIsCode();
    ListIsCode(EventCode());
    var rest := PairCode(ListCode(CategoryCode()), ListCode(EventCode()));
    PairIsCode(ListCode(CategoryCode()), ListCode(EventCode()));
    PairIsCode(ListCode(ListCode(StringCode())), rest);
    PairIsCode(ListCode(IntCode()), PairCode(ListCode(ListCode(StringCode())), rest));
    PayloadViewIsInjective();
    ViaIsCode(PayloadView, PairCode(ListCode(IntCode()), PairCode(ListCode(ListCode(StringCode())), rest)));
  }

  /** Every configuration of the ledger has a collision-free hash, and a keyed one that tells queries apart. */
  lemma LedgerHashesExist(c: Config)
    ensures CollisionFree(c.(sha := PayloadCode()))
    ensures TellsCohortsApart(c.(hmac := text => text))
  {
    PayloadIsCode();
    CodeIsInjective(PayloadCode());
    forall p, q ensures NoCollision(c.(sha := PayloadCode()), p, q) {
      assert SameImage(PayloadCode(), p, q);
    }
  }
}
