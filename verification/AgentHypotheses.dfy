/** The hypothesis about proposal hashes can be met: proposals are texts and integers. */
module AgentHypotheses {
  import opened Foundations
  import opened SelfDelimitingCodes
  import opened AgentSession

  function ProposalView(b: ProposalBody): (bool, (int, seq<seq<string>>)) {
    (b.capability.Propose?,
     (b.iteration,
      [[b.goalSha256, b.dataContextSha256, b.taskPurpose, b.sql, b.sqlSha256, b.queryPlanSha256],
       Texts(b.priorProposalSha256), Texts(b.feedbackSha256)]))
  }

  lemma ProposalViewIsInjective()
    ensures IsInjective(ProposalView)
  {
    forall a, b ensures SameImage(ProposalView, a, b) {
      if ProposalView(a) == ProposalView(b) {
        var p, q := ProposalView(a).1.1, ProposalView(b).1.1;
        assert forall i | 0 <= i < 3 :: p[i] == q[i];
        assert forall i | 0 <= i < 6 :: p[0][i] == q[0][i];
        assert |p[1]| == |q[1]| && (p[1] != [] ==> p[1][0] == q[1][0]);
        assert |p[2]| == |q[2]| && (p[2] != [] ==> p[2][0] == q[2][0]);
      }
    }
  }

  function ProposalCode(): ProposalBody -> string {
    Via(ProposalView, PairCode(BoolCode(), PairCode(IntCode(), ListCode(ListCode(StringCode())))))
  }

  /** Every agent environment has a distinct hash for every proposal. */
  lemma ProposalHashesExist(env: Env)
    ensures ProposalHashesAreDistinct(env.(proposalHash := ProposalCode()))
  {
    BoolIsCode();
    IntIsCode();
    TextListsAreCode();
    PairIsCode(IntCode(), ListCode(ListCode(StringCode())));
    var code := PairCode(BoolCode(), PairCode(IntCode(), ListCode(ListCode(StringCode()))));
    PairIsCode(BoolCode(), PairCode(IntCode(), ListCode(ListCode(StringCode()))));
    ProposalViewIsInjective();
    ViaIsCode(ProposalView, code);
    CodeIsInjective(ProposalCode());
    forall a, b | ProposalCode()(a) == ProposalCode()(b) ensures a == b {
      assert SameImage(ProposalCode(), a, b);
    }
  }
}
