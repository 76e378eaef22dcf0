/** The governed agent's propose/adapt session: `agent/runtime.py`, `agent/governed.py` and `agent/models.py`.
  *
  * Hashes, `strip`, the SQL analyser, the planner and the safety pipeline are foreign. The planner and the
  * pipeline are indexed by the attempt, so that they may answer differently every time they are asked.
  */
module AgentSession {
  import opened Foundations
  import opened KeyOrder

  const MAX_AGENT_ATTEMPTS := 4
  const MAX_ADAPTATIONS := 8
  const MAX_ITERATIONS := 8
  const REASON_COUNT := 20

  datatype Decision = Allow | Rewrite | Block

  /** A reason code, as its position in the enumeration. */
  type Reason = r: nat | r < REASON_COUNT

  datatype Capability = Propose | Adapt

  datatype Goal = Goal(goal: string, goalSha256: string)

  datatype DataContext = DataContext(surface: map<string, set<string>>, contextSha256: string)

  datatype Draft = Draft(taskPurpose: string, sql: string)

  /** What the planner returns: an exception, something that is not a draft, or draft-shaped data. */
  datatype Reply = Raises | NotADraft | Drafted(draft: Draft)

  datatype Plan = Plan(containsWildcard: bool, sourceDatasets: seq<string>, referenced: seq<(string, string)>, planSha256: string)

  datatype FeedbackBody = FeedbackBody(previousProposalSha256: string, decision: Decision, reasonCodes: seq<Reason>)

  datatype Feedback = Feedback(body: FeedbackBody, feedbackSha256: string)

  datatype ProposalBody = ProposalBody(
    capability: Capability,
    iteration: int,
    goalSha256: string,
    dataContextSha256: string,
    priorProposalSha256: Option<string>,
    feedbackSha256: Option<string>,
    taskPurpose: string,
    sql: string,
    sqlSha256: string,
    queryPlanSha256: string)

  datatype Proposal = Proposal(body: ProposalBody, proposalSha256: string)

  datatype Verdict = Verdict(
    decision: Decision,
    initialReasons: seq<Reason>,
    finalReasons: Option<seq<Reason>>,
    safeSql: Option<string>,
    receiptId: string,
    releasedRows: Option<nat>)

  datatype AgentError =
    | InvalidGoal
    | GoalInvalid
    | ContextInvalid
    | PreviousProposalInvalid
    | FeedbackInvalid
    | GoalBindingMismatch
    | ContextBindingMismatch
    | FeedbackBindingMismatch
    | IterationLimit
    | PlannerFailed
    | DraftInvalid
    | SqlAnalysisFailed
    | WildcardNotAllowed
    | DatasetOutsideContext
    | ColumnOutsideContext
    | ProposalInvalid

  datatype Env = Env(
    strip: string -> string,
    textHash: string -> string,
    contextHash: map<string, set<string>> -> string,
    feedbackHash: FeedbackBody -> string,
    proposalHash: ProposalBody -> string,
    analyze: string -> Option<Plan>)

  // ---------------------------------------------------------------- goals, feedback and proposals

  /** What `AgentGoal` accepts: it strips again and checks the hash. */
  predicate IsValidGoal(env: Env, g: Goal) {
    && 1 <= |g.goal| <= 8192 && env.strip(g.goal) != ""
    && g.goalSha256 == env.textHash(env.strip(g.goal))
  }

  /** `None` where constructing the goal raises. */
  function BuildGoal(env: Env, text: string): Option<Goal> {
    var normalized := env.strip(text);
    var goal := Goal(normalized, env.textHash(normalized));
    if IsValidGoal(env, goal) then Some(Goal(env.strip(normalized), goal.goalSha256)) else None
  }

  predicate IsValidContext(env: Env, context: DataContext) {
    context.contextSha256 == env.contextHash(context.surface)
  }

  /** The listed reasons, each once, in the enumeration's order. */
  function CanonicalUpTo(reasons: seq<Reason>, n: nat): seq<Reason>
    requires n <= REASON_COUNT
  {
    if n == 0 then []
    else CanonicalUpTo(reasons, n - 1) + if (n - 1) as Reason in reasons then [(n - 1) as Reason] else []
  }

  function Canonical(reasons: seq<Reason>): seq<Reason> {
    CanonicalUpTo(reasons, REASON_COUNT)
  }

  function BuildFeedback(env: Env, previousSha256: string, decision: Decision, reasons: seq<Reason>): Feedback {
    var body := FeedbackBody(previousSha256, decision, Canonical(reasons));
    Feedback(body, env.feedbackHash(body))
  }

  predicate IsValidFeedback(env: Env, f: Feedback) {
    f.body.reasonCodes == Canonical(f.body.reasonCodes) && f.feedbackSha256 == env.feedbackHash(f.body)
  }

  predicate IsValidDraft(env: Env, d: Draft) {
    1 <= |d.taskPurpose| <= 4096 && 1 <= |d.sql| <= 100000 && env.strip(d.taskPurpose) != "" && env.strip(d.sql) != ""
  }

  predicate IsValidProposal(env: Env, p: Proposal) {
    var b := p.body;
    && 0 <= b.iteration <= MAX_ITERATIONS && 1 <= |b.taskPurpose| <= 4096 && 1 <= |b.sql| <= 100000
    && (match b.capability
        case Propose => b.iteration == 0 && b.priorProposalSha256.None? && b.feedbackSha256.None?
        case Adapt => b.iteration >= 1 && b.priorProposalSha256.Some? && b.feedbackSha256.Some?)
    && b.sqlSha256 == env.textHash(b.sql) && p.proposalSha256 == env.proposalHash(b)
  }

  /** Why the analysed SQL may not be proposed, if it may not. */
  function SurfaceError(plan: Plan, context: DataContext): Option<AgentError> {
    if plan.containsWildcard then Some(WildcardNotAllowed)
    else if exists d | d in plan.sourceDatasets :: d !in context.surface then Some(DatasetOutsideContext)
    else if exists r | r in plan.referenced :: !(r.0 in context.surface && r.1 in context.surface[r.0]) then
      Some(ColumnOutsideContext)
    else None
  }

  function BuildProposal(env: Env, capability: Capability, iteration: int, goal: Goal, context: DataContext,
    draft: Draft, prior: Option<string>, feedbackSha256: Option<string>): Result<Proposal, AgentError>
  {
    match env.analyze(draft.sql)
    case None => Err(SqlAnalysisFailed)
    case Some(plan) =>
      match SurfaceError(plan, context)
      case Some(error) => Err(error)
      case None =>
        var body := ProposalBody(capability, iteration, goal.goalSha256, context.contextSha256, prior, feedbackSha256,
                                 draft.taskPurpose, draft.sql, env.textHash(draft.sql), plan.planSha256);
        var proposal := Proposal(body, env.proposalHash(body));
        if IsValidProposal(env, proposal) then Ok(proposal) else Err(ProposalInvalid)
  }

  // ---------------------------------------------------------------- the governed agent

  function DraftOf(env: Env, reply: Reply): Result<Draft, AgentError> {
    match reply
    case Raises => Err(PlannerFailed)
    case NotADraft => Err(DraftInvalid)
    case Drafted(draft) => if IsValidDraft(env, draft) then Ok(draft) else Err(DraftInvalid)
  }

  /** The planner's reply, validated and built into a proposal. */
  function Answer(env: Env, capability: Capability, iteration: int, goal: Goal, context: DataContext,
    reply: Reply, prior: Option<string>, feedbackSha256: Option<string>): Result<Proposal, AgentError>
  {
    match DraftOf(env, reply)
    case Err(error) => Err(error)
    case Ok(draft) => BuildProposal(env, capability, iteration, goal, context, draft, prior, feedbackSha256)
  }

  function ProposeFirst(env: Env, goal: Goal, context: DataContext, reply: Reply): Result<Proposal, AgentError> {
    if !IsValidGoal(env, goal) then Err(GoalInvalid)
    else if !IsValidContext(env, context) then Err(ContextInvalid)
    else Answer(env, Propose, 0, goal, context, reply, None, None)
  }

  /** The error of the checks on the previous proposal and the feedback, if one fails. */
  function BindingError(env: Env, goal: Goal, context: DataContext, previous: Proposal, feedback: Feedback)
    : Option<AgentError>
  {
    if !IsValidProposal(env, previous) then Some(PreviousProposalInvalid)
    else if !IsValidFeedback(env, feedback) then Some(FeedbackInvalid)
    else if previous.body.goalSha256 != goal.goalSha256 then Some(GoalBindingMismatch)
    else if previous.body.dataContextSha256 != context.contextSha256 then Some(ContextBindingMismatch)
    else if feedback.body.previousProposalSha256 != previous.proposalSha256 then Some(FeedbackBindingMismatch)
    else if previous.body.iteration >= MAX_ADAPTATIONS then Some(IterationLimit)
    else None
  }

  function AdaptNext(env: Env, goal: Goal, context: DataContext, previous: Proposal, feedback: Feedback, reply: Reply)
    : Result<Proposal, AgentError>
  {
    if !IsValidGoal(env, goal) then Err(GoalInvalid)
    else if !IsValidContext(env, context) then Err(ContextInvalid)
    else if BindingError(env, goal, context, previous, feedback).Some? then
      Err(BindingError(env, goal, context, previous, feedback).value)
    else
      Answer(env, Adapt, previous.body.iteration + 1, goal, context, reply,
             Some(previous.proposalSha256), Some(feedback.feedbackSha256))
  }

  // ---------------------------------------------------------------- the session

  datatype Session = Session(
    env: Env,
    context: DataContext,
    maxAttempts: int,
    firstReply: Reply,
    nextReply: (nat, Proposal, Feedback) -> Reply,
    verdict: (nat, Proposal) -> Verdict)

  /** What the session's constructor ensures. */
  predicate IsOpen(s: Session) {
    1 <= s.maxAttempts <= MAX_AGENT_ATTEMPTS && IsValidContext(s.env, s.context)
  }

  datatype Attempt = Attempt(
    iteration: int, capability: Capability, taskPurpose: string, sql: string, proposalSha256: string,
    decision: Decision, reasonCodes: seq<Reason>, safeSql: Option<string>, receiptId: string, releasedRows: Option<nat>)

  datatype SessionResult = SessionResult(
    goal: string, goalSha256: string, dataContextSha256: string, attempts: seq<Attempt>,
    finalDecision: Decision, succeeded: bool, exhausted: bool)

  function EffectiveReasons(v: Verdict): seq<Reason> {
    if v.finalReasons.Some? && v.finalReasons.value != [] then v.finalReasons.value else v.initialReasons
  }

  function AttemptOf(p: Proposal, v: Verdict): Attempt {
    Attempt(p.body.iteration, p.body.capability, p.body.taskPurpose, p.body.sql, p.proposalSha256, v.decision,
            EffectiveReasons(v), v.safeSql, v.receiptId, v.releasedRows)
  }

  function FeedbackOn(s: Session, i: nat, p: Proposal): Feedback {
    var v := s.verdict(i, p);
    BuildFeedback(s.env, p.proposalSha256, v.decision, EffectiveReasons(v))
  }

  function Next(s: Session, goal: Goal, i: nat, p: Proposal): Result<Proposal, AgentError> {
    var feedback := FeedbackOn(s, i, p);
    AdaptNext(s.env, goal, s.context, p, feedback, s.nextReply(i, p, feedback))
  }

  function Prepend(p: Proposal, rest: Result<seq<Proposal>, AgentError>): Result<seq<Proposal>, AgentError> {
    match rest
    case Err(error) => Err(error)
    case Ok(proposals) => Ok([p] + proposals)
  }

  /** The proposals attempted from attempt `i` on, which evaluates `p`. */
  function Attempted(s: Session, goal: Goal, i: nat, p: Proposal): Result<seq<Proposal>, AgentError>
    requires i < s.maxAttempts
    decreases s.maxAttempts - i
  {
    if s.verdict(i, p).decision == Allow || i == s.maxAttempts - 1 then Ok([p])
    else
      match Next(s, goal, i, p)
      case Err(error) => Err(error)
      case Ok(next) => Prepend(p, Attempted(s, goal, i + 1, next))
  }

  function Attempts(s: Session, i: nat, proposals: seq<Proposal>): (attempts: seq<Attempt>)
    ensures |attempts| == |proposals|
    ensures forall k | 0 <= k < |proposals| :: attempts[k] == AttemptOf(proposals[k], s.verdict(i + k, proposals[k]))
  {
    seq(|proposals|, k requires 0 <= k < |proposals| => AttemptOf(proposals[k], s.verdict(i + k, proposals[k])))
  }

  function Report(s: Session, goal: Goal, attempts: seq<Attempt>): SessionResult
    requires attempts != []
  {
    var last := attempts[|attempts| - 1].decision;
    SessionResult(goal.goal, goal.goalSha256, s.context.contextSha256, attempts, last, last == Allow, last != Allow)
  }

  /** All proposals a session attempts. */
  function Proposals(s: Session, text: string): Result<seq<Proposal>, AgentError>
    requires IsOpen(s)
  {
    match BuildGoal(s.env, text)
    case None => Err(InvalidGoal)
    case Some(goal) =>
      match ProposeFirst(s.env, goal, s.context, s.firstReply)
      case Err(error) => Err(error)
      case Ok(first) => Attempted(s, goal, 0, first)
  }

  lemma AttemptedSteps(s: Session, goal: Goal, i: nat, p: Proposal)
    requires i < s.maxAttempts
    ensures var next := Next(s, goal, i, p);
            Attempted(s, goal, i, p)
            == if s.verdict(i, p).decision == Allow || i == s.maxAttempts - 1 then Ok([p])
               else if next.Err? then Err(next.error)
               else Prepend(p, Attempted(s, goal, i + 1, next.value))
  {
    hide AdaptNext, BuildFeedback;
  }

  method Run(s: Session, text: string) returns (result: Result<SessionResult, AgentError>)
    requires IsOpen(s)
    ensures match Proposals(s, text)
            case Err(error) => result == Err(error)
            case Ok(proposals) =>
              proposals != [] && result == Ok(Report(s, BuildGoal(s.env, text).value, Attempts(s, 0, proposals)))
  {
    hide AdaptNext, ProposeFirst, BuildGoal, BuildFeedback, Attempted, AttemptOf, IsValidContext;
    var built := BuildGoal(s.env, text);
    if built.None? {
      return Err(InvalidGoal);
    }
    var goal := built.value;
    var first := ProposeFirst(s.env, goal, s.context, s.firstReply);
    if first.Err? {
      return Err(first.error);
    }
    var attempts: seq<Attempt>, proposal := [], first.value;
    ghost var before: seq<Proposal> := [];
    var iteration := 0;
    ExtendNothing(Attempted(s, goal, 0, proposal));
    while true
      invariant 0 <= iteration < s.maxAttempts
      invariant |before| == iteration && attempts == Attempts(s, 0, before)
      invariant Extend(before, Attempted(s, goal, iteration, proposal)) == Attempted(s, goal, 0, first.value)
      decreases s.maxAttempts - iteration
    {
      var verdict := s.verdict(iteration, proposal);
      attempts := attempts + [AttemptOf(proposal, verdict)];
      assert attempts == Attempts(s, 0, before + [proposal]);
      AttemptedSteps(s, goal, iteration, proposal);
      if verdict.decision == Allow || iteration == s.maxAttempts - 1 {
        return Ok(Report(s, goal, attempts));
      }
      var feedback := BuildFeedback(s.env, proposal.proposalSha256, verdict.decision, EffectiveReasons(verdict));
      var next := AdaptNext(s.env, goal, s.context, proposal, feedback, s.nextReply(iteration, proposal, feedback));
      if next.Err? {
        return Err(next.error);
      }
      ExtendMoves(before, proposal, Attempted(s, goal, iteration + 1, next.value));
      before := before + [proposal];
      proposal, iteration := next.value, iteration + 1;
    }
  }

  function Extend(before: seq<Proposal>, rest: Result<seq<Proposal>, AgentError>): Result<seq<Proposal>, AgentError> {
    match rest
    case Err(error) => Err(error)
    case Ok(proposals) => Ok(before + proposals)
  }

  lemma ExtendNothing(rest: Result<seq<Proposal>, AgentError>)
    ensures Extend([], rest) == rest
  {
    if rest.Ok? {
      assert [] + rest.value == rest.value;
    }
  }

  lemma ExtendMoves(before: seq<Proposal>, p: Proposal, rest: Result<seq<Proposal>, AgentError>)
    ensures Extend(before, Prepend(p, rest)) == Extend(before + [p], rest)
  {
    if rest.Ok? {
      assert before + ([p] + rest.value) == before + [p] + rest.value;
    }
  }

  // ---------------------------------------------------------------- what the agent accepts

  /** The SQL reads discovered datasets only. */
  predicate ReadsDiscovered(plan: Plan, surface: map<string, set<string>>) {
    forall i | 0 <= i < |plan.sourceDatasets| :: plan.sourceDatasets[i] in surface
  }

  /** The SQL selects no wildcard, reads discovered datasets and refers to their discovered fields. */
  predicate StaysInside(plan: Plan, surface: map<string, set<string>>) {
    && !plan.containsWildcard && ReadsDiscovered(plan, surface)
    && (forall i | 0 <= i < |plan.referenced| ::
          plan.referenced[i].0 in surface.Keys && plan.referenced[i].1 in surface[plan.referenced[i].0])
  }

  /** A draft within the limits whose SQL analyses to something inside the discovered surface. */
  predicate IsAcceptable(env: Env, context: DataContext, reply: Reply) {
    && reply.Drafted?
    && (var (purpose, sql) := (reply.draft.taskPurpose, reply.draft.sql);
        && 0 < |purpose| < 4097 && env.strip(purpose) != [] && 0 < |sql| < 100001 && env.strip(sql) != []
        && env.analyze(sql).Some? && StaysInside(env.analyze(sql).value, context.surface))
  }

  /** One thing that must hold, and the error that says it does not. */
  datatype Check = Check(error: AgentError, holds: bool)

  /** The error of the first check that fails. */
  predicate FirstFailure(checks: seq<Check>, error: AgentError) {
    exists i | 0 <= i < |checks| ::
      !checks[i].holds && checks[i].error == error && forall j | 0 <= j < i :: checks[j].holds
  }

  predicate AllHold(checks: seq<Check>) {
    forall i | 0 <= i < |checks| :: checks[i].holds
  }

  /** What a reply is asked, in order. */
  function ReplyChecks(env: Env, context: DataContext, reply: Reply): seq<Check> {
    var within := reply.Drafted?
      && 0 < |reply.draft.taskPurpose| < 4097 && env.strip(reply.draft.taskPurpose) != []
      && 0 < |reply.draft.sql| < 100001 && env.strip(reply.draft.sql) != [];
    var analysed := if within then env.analyze(reply.draft.sql) else None;
    [ Check(PlannerFailed, !reply.Raises?),
      Check(DraftInvalid, within),
      Check(SqlAnalysisFailed, analysed.Some?),
      Check(WildcardNotAllowed, analysed.Some? && !analysed.value.containsWildcard),
      Check(DatasetOutsideContext,
            analysed.Some? && ReadsDiscovered(analysed.value, context.surface)),
      Check(ColumnOutsideContext, analysed.Some? && StaysInside(analysed.value, context.surface)) ]
  }

  function GoalChecks(env: Env, goal: Goal, context: DataContext): seq<Check> {
    [ Check(GoalInvalid,
            0 < |goal.goal| < 8193 && env.strip(goal.goal) != [] && goal.goalSha256 == env.textHash(env.strip(goal.goal))),
      Check(ContextInvalid, env.contextHash(context.surface) == context.contextSha256) ]
  }

  /** A proposal's own validation: its limits, its place in the chain and its two hashes. */
  predicate IsIntact(env: Env, p: Proposal) {
    var b := p.body;
    && 0 < |b.taskPurpose| < 4097 && 0 < |b.sql| < 100001
    && env.textHash(b.sql) == b.sqlSha256 && env.proposalHash(b) == p.proposalSha256
    && (b.capability == Propose ==>
          b.iteration == 0 && b.priorProposalSha256 == None && b.feedbackSha256 == None)
    && (b.capability == Adapt ==>
          0 < b.iteration < 9 && b.priorProposalSha256 != None && b.feedbackSha256 != None)
  }

  lemma IntactExactly(env: Env, p: Proposal)
    ensures IsValidProposal(env, p) <==> IsIntact(env, p)
  {
  }

  predicate AreIncreasing(reasons: seq<Reason>) {
    forall i, j | 0 <= i < j < |reasons| :: reasons[i] < reasons[j]
  }

  /** What the previous proposal and the feedback are asked before the planner is. */
  function AdaptChecks(env: Env, goal: Goal, context: DataContext, previous: Proposal, feedback: Feedback): seq<Check> {
    [ Check(PreviousProposalInvalid, IsIntact(env, previous)),
      Check(FeedbackInvalid,
            AreIncreasing(feedback.body.reasonCodes) && env.feedbackHash(feedback.body) == feedback.feedbackSha256),
      Check(GoalBindingMismatch, goal.goalSha256 == previous.body.goalSha256),
      Check(ContextBindingMismatch, context.contextSha256 == previous.body.dataContextSha256),
      Check(FeedbackBindingMismatch, previous.proposalSha256 == feedback.body.previousProposalSha256),
      Check(IterationLimit, previous.body.iteration < 8) ]
  }

  /** The proposal's SQL analyses to a plan inside the surface, and the proposal names that plan. */
  predicate IsInside(env: Env, context: DataContext, p: Proposal) {
    var analysed := env.analyze(p.body.sql);
    && analysed.Some? && StaysInside(analysed.value, context.surface)
    && p.body.queryPlanSha256 == analysed.value.planSha256
  }

  /** The proposal is the planner's draft, bound to the goal, the context and the plan of its SQL. */
  predicate CarriesDraft(env: Env, goal: Goal, context: DataContext, reply: Reply, p: Proposal) {
    && reply == Drafted(Draft(p.body.taskPurpose, p.body.sql))
    && p.body.goalSha256 == goal.goalSha256 && p.body.dataContextSha256 == context.contextSha256
    && IsInside(env, context, p)
  }

  lemma SurfaceExactly(plan: Plan, context: DataContext)
    ensures var error := SurfaceError(plan, context);
            var datasetsInside := ReadsDiscovered(plan, context.surface);
            && (error == Some(WildcardNotAllowed) <==> plan.containsWildcard)
            && (error == Some(DatasetOutsideContext) <==> !plan.containsWildcard && !datasetsInside)
            && (error == Some(ColumnOutsideContext) <==>
                  !plan.containsWildcard && datasetsInside && !StaysInside(plan, context.surface))
            && (error == None <==> StaysInside(plan, context.surface))
  {
    assert forall d :: d in plan.sourceDatasets <==> exists i | 0 <= i < |plan.sourceDatasets| :: plan.sourceDatasets[i] == d;
    assert forall r :: r in plan.referenced <==> exists i | 0 <= i < |plan.referenced| :: plan.referenced[i] == r;
  }

  lemma AllHoldJoined(before: seq<Check>, after: seq<Check>)
    ensures AllHold(before + after) <==> AllHold(before) && AllHold(after)
  {
    var all, n := before + after, |before|;
    assert forall i | 0 <= i < n :: before[i] == all[i];
    assert forall i | 0 <= i < |after| :: after[i] == all[n + i];
  }

  /** The first failure is that of the earlier checks, or of the later ones when all earlier ones hold. */
  lemma ChecksJoin(before: seq<Check>, after: seq<Check>, error: AgentError)
    ensures AllHold(before + after) <==> AllHold(before) && AllHold(after)
    ensures FirstFailure(before, error) ==> FirstFailure(before + after, error)
    ensures AllHold(before) && FirstFailure(after, error) ==> FirstFailure(before + after, error)
  {
    AllHoldJoined(before, after);
    if FirstFailure(before, error) {
      FailsEarly(before, after, error);
    }
    if AllHold(before) && FirstFailure(after, error) {
      FailsLate(before, after, error);
    }
  }

  lemma FailsEarly(before: seq<Check>, after: seq<Check>, error: AgentError)
    requires FirstFailure(before, error)
    ensures FirstFailure(before + after, error)
  {
    var i :| 0 <= i < |before| && !before[i].holds && before[i].error == error && forall j | 0 <= j < i :: before[j].holds;
    assert forall j | 0 <= j <= i :: (before + after)[j] == before[j];
  }

  lemma FailsLate(before: seq<Check>, after: seq<Check>, error: AgentError)
    requires AllHold(before) && FirstFailure(after, error)
    ensures FirstFailure(before + after, error)
  {
    var all, n := before + after, |before|;
    var i :| 0 <= i < |after| && !after[i].holds && after[i].error == error && forall j | 0 <= j < i :: after[j].holds;
    forall j | 0 <= j < n + i ensures all[j].holds {
      assert all[j] == if j < n then before[j] else after[j - n];
    }
    assert all[n + i] == after[i];
  }

  /** A failing check, with those before it holding, is the first failure. */
  lemma FailsAt(checks: seq<Check>, i: nat)
    requires i < |checks| && !checks[i].holds && forall j | 0 <= j < i :: checks[j].holds
    ensures FirstFailure(checks, checks[i].error) && !AllHold(checks)
  {
  }

  lemma StaysInsideParts(plan: Plan, surface: map<string, set<string>>)
    ensures StaysInside(plan, surface) ==> !plan.containsWildcard && ReadsDiscovered(plan, surface)
  {
  }

  lemma FirstOfSix(checks: seq<Check>)
    requires |checks| == 6
    ensures AllHold(checks)
       <==> && checks[0].holds && checks[1].holds && checks[2].holds
            && checks[3].holds && checks[4].holds && checks[5].holds
    ensures !AllHold(checks) ==>
              FirstFailure(checks, if !checks[0].holds then checks[0].error else if !checks[1].holds then checks[1].error
                                   else if !checks[2].holds then checks[2].error else if !checks[3].holds then checks[3].error
                                   else if !checks[4].holds then checks[4].error else checks[5].error)
  {
    if !checks[0].holds {
      FailsAt(checks, 0);
    } else if !checks[1].holds {
      FailsAt(checks, 1);
    } else if !checks[2].holds {
      FailsAt(checks, 2);
    } else if !checks[3].holds {
      FailsAt(checks, 3);
    } else if !checks[4].holds {
      FailsAt(checks, 4);
    } else if !checks[5].holds {
      FailsAt(checks, 5);
    } else {
      assert AllHold(checks);
    }
  }

  lemma AnswersExactly(env: Env, capability: Capability, iteration: int, goal: Goal, context: DataContext,
      reply: Reply, prior: Option<string>, feedbackSha256: Option<string>)
    requires if capability == Propose then iteration == 0 && prior == feedbackSha256 == None
             else 0 < iteration <= MAX_ITERATIONS && prior.Some? && feedbackSha256.Some?
    ensures var result := Answer(env, capability, iteration, goal, context, reply, prior, feedbackSha256);
            && (result.Ok? <==> IsAcceptable(env, context, reply))
            && (result.Ok? <==> AllHold(ReplyChecks(env, context, reply)))
            && (result.Err? ==> FirstFailure(ReplyChecks(env, context, reply), result.error))
            && (result.Ok? ==>
                 && IsIntact(env, result.value) && CarriesDraft(env, goal, context, reply, result.value)
                 && result.value.body.iteration == iteration && result.value.body.capability == capability
                 && result.value.body.priorProposalSha256 == prior
                 && result.value.body.feedbackSha256 == feedbackSha256)
  {
    hide SurfaceError, FirstFailure, AllHold, StaysInside, ReadsDiscovered;
    var checks := ReplyChecks(env, context, reply);
    FirstOfSix(checks);
    if checks[2].holds {
      var plan := env.analyze(reply.draft.sql).value;
      SurfaceExactly(plan, context);
      StaysInsideParts(plan, context.surface);
      assert checks[0].holds && checks[1].holds;
      assert checks[3].holds <==> SurfaceError(plan, context) != Some(WildcardNotAllowed);
      assert checks[3].holds ==> (checks[4].holds <==> SurfaceError(plan, context) != Some(DatasetOutsideContext));
      assert checks[5].holds <==> SurfaceError(plan, context) == None;
    }
  }

  lemma GoalExactly(env: Env, goal: Goal, context: DataContext)
    ensures var checks := GoalChecks(env, goal, context);
            && (AllHold(checks) <==> IsValidGoal(env, goal) && IsValidContext(env, context))
            && (!IsValidGoal(env, goal) ==> FirstFailure(checks, GoalInvalid))
            && (IsValidGoal(env, goal) && !IsValidContext(env, context) ==> FirstFailure(checks, ContextInvalid))
  {
    var checks := GoalChecks(env, goal, context);
    if !checks[0].holds {
      FailsAt(checks, 0);
    } else if !checks[1].holds {
      FailsAt(checks, 1);
    }
  }

  /** Whatever it is given, the agent proposes or raises the error of the first check that fails. */
  lemma ProposesExactly(env: Env, goal: Goal, context: DataContext, reply: Reply)
    ensures var result := ProposeFirst(env, goal, context, reply);
            var checks := GoalChecks(env, goal, context) + ReplyChecks(env, context, reply);
            && (result.Ok? <==> AllHold(checks))
            && (result.Err? ==> FirstFailure(checks, result.error))
            && (result.Ok? ==>
                 && IsIntact(env, result.value) && CarriesDraft(env, goal, context, reply, result.value)
                 && result.value.body.iteration == 0 && result.value.body.capability == Propose)
  {
    hide StaysInside, ReplyChecks, FirstFailure, AllHold, IsAcceptable, CarriesDraft, Answer, GoalChecks;
    var goalChecks, replyChecks := GoalChecks(env, goal, context), ReplyChecks(env, context, reply);
    AnswersExactly(env, Propose, 0, goal, context, reply, None, None);
    GoalExactly(env, goal, context);
    var result := ProposeFirst(env, goal, context, reply);
    ChecksJoin(goalChecks, replyChecks, if result.Err? then result.error else GoalInvalid);
  }

  lemma {:induction false} CanonicalElements(reasons: seq<Reason>, n: nat)
    requires n <= REASON_COUNT
    ensures forall r: Reason :: r in CanonicalUpTo(reasons, n) <==> r < n && r in reasons
  {
    if n > 0 {
      CanonicalElements(reasons, n - 1);
    }
  }

  lemma {:induction false} CanonicalDependsOnElements(a: seq<Reason>, b: seq<Reason>, n: nat)
    requires n <= REASON_COUNT && forall r: Reason | r < n :: r in a <==> r in b
    ensures CanonicalUpTo(a, n) == CanonicalUpTo(b, n)
  {
    if n > 0 {
      CanonicalDependsOnElements(a, b, n - 1);
    }
  }

  lemma {:induction false} CanonicalIncreases(reasons: seq<Reason>, n: nat)
    requires n <= REASON_COUNT
    ensures AreIncreasing(CanonicalUpTo(reasons, n))
  {
    if n > 0 {
      CanonicalIncreases(reasons, n - 1);
      CanonicalElements(reasons, n - 1);
      var before := CanonicalUpTo(reasons, n - 1);
      forall i | 0 <= i < |before| ensures before[i] < n - 1 {
        assert before[i] in before;
      }
    }
  }

  /** The canonical reasons are the reasons in increasing order, each once. */
  lemma CanonicalExactly(reasons: seq<Reason>)
    ensures AreIncreasing(Canonical(reasons)) && forall r: Reason :: r in Canonical(reasons) <==> r in reasons
    ensures Canonical(reasons) == reasons <==> AreIncreasing(reasons)
  {
    CanonicalElements(reasons, REASON_COUNT);
    CanonicalIncreases(reasons, REASON_COUNT);
    if AreIncreasing(reasons) {
      IncreasingIsUnique((a: Reason, b: Reason) => a < b, Canonical(reasons), reasons);
    }
  }

  lemma IntactIteration(env: Env, p: Proposal)
    ensures IsIntact(env, p) ==> 0 <= p.body.iteration <= MAX_ITERATIONS
  {
  }

  lemma BindingExactly(env: Env, goal: Goal, context: DataContext, previous: Proposal, feedback: Feedback)
    ensures var checks := AdaptChecks(env, goal, context, previous, feedback);
            var error := BindingError(env, goal, context, previous, feedback);
            && (AllHold(checks) <==> error.None?)
            && (error.Some? ==> FirstFailure(checks, error.value))
            && (error.None? ==> 0 <= previous.body.iteration < 8)
  {
    hide IsValidProposal, IsIntact, AreIncreasing, Canonical, FirstFailure, AllHold;
    var checks := AdaptChecks(env, goal, context, previous, feedback);
    IntactExactly(env, previous);
    IntactIteration(env, previous);
    CanonicalExactly(feedback.body.reasonCodes);
    FirstOfSix(checks);
  }

  /** Likewise for adapting, whatever previous proposal and feedback it is given. */
  lemma AdaptsExactly(env: Env, goal: Goal, context: DataContext, previous: Proposal, feedback: Feedback, reply: Reply)
    ensures var result := AdaptNext(env, goal, context, previous, feedback, reply);
            var checks := GoalChecks(env, goal, context) + AdaptChecks(env, goal, context, previous, feedback)
                          + ReplyChecks(env, context, reply);
            && (result.Ok? <==> AllHold(checks))
            && (result.Err? ==> FirstFailure(checks, result.error))
            && (result.Ok? ==>
                 && IsIntact(env, result.value) && CarriesDraft(env, goal, context, reply, result.value)
                 && result.value.body.iteration == previous.body.iteration + 1
                 && result.value.body.capability == Adapt
                 && result.value.body.priorProposalSha256 == Some(previous.proposalSha256)
                 && result.value.body.feedbackSha256 == Some(feedback.feedbackSha256))
  {
    hide StaysInside, ReplyChecks, GoalChecks, AdaptChecks, FirstFailure, AllHold, IsAcceptable, CarriesDraft;
    hide Answer, BindingError, IsIntact, IsValidGoal, IsValidContext, IsValidProposal, IsValidFeedback;
    var goalChecks, replyChecks := GoalChecks(env, goal, context), ReplyChecks(env, context, reply);
    var adaptChecks := AdaptChecks(env, goal, context, previous, feedback);
    GoalExactly(env, goal, context);
    BindingExactly(env, goal, context, previous, feedback);
    if BindingError(env, goal, context, previous, feedback).None? {
      AnswersExactly(env, Adapt, previous.body.iteration + 1, goal, context, reply,
                     Some(previous.proposalSha256), Some(feedback.feedbackSha256));
    }
    var result := AdaptNext(env, goal, context, previous, feedback, reply);
    var error := if result.Err? then result.error else GoalInvalid;
    ChecksJoin(goalChecks, adaptChecks, error);
    ChecksJoin(goalChecks + adaptChecks, replyChecks, error);
  }

  // ---------------------------------------------------------------- the chain

  /** Attempt `k` stays inside the surface, and is what the planner drafted to adapt the previous proposal by the
    * feedback on it.
    */
  predicate IsLinked(s: Session, goal: Goal, proposals: seq<Proposal>, start: nat, k: nat) {
    && k < |proposals|
    && var b := proposals[k].body;
       && IsIntact(s.env, proposals[k]) && IsInside(s.env, s.context, proposals[k])
       && b.iteration == start + k
       && b.goalSha256 == goal.goalSha256 && b.dataContextSha256 == s.context.contextSha256
       && (k > 0 ==>
             && b.capability == Adapt
             && b.priorProposalSha256 == Some(proposals[k - 1].proposalSha256)
             && var feedback := FeedbackOn(s, start + k - 1, proposals[k - 1]);
                && b.feedbackSha256 == Some(feedback.feedbackSha256)
                && s.nextReply(start + k - 1, proposals[k - 1], feedback) == Drafted(Draft(b.taskPurpose, b.sql)))
  }

  predicate IsChain(s: Session, goal: Goal, proposals: seq<Proposal>, start: nat) {
    && proposals != [] && start + |proposals| <= s.maxAttempts
    && (forall k | 0 <= k < |proposals| :: IsLinked(s, goal, proposals, start, k))
    && (forall k | 0 <= k < |proposals| - 1 :: s.verdict(start + k, proposals[k]).decision != Allow)
    && var last := |proposals| - 1;
       s.verdict(start + last, proposals[last]).decision == Allow || start + |proposals| == s.maxAttempts
  }

  predicate IsBound(s: Session, goal: Goal, i: nat, p: Proposal) {
    && IsIntact(s.env, p) && IsInside(s.env, s.context, p) && p.body.iteration == i
    && p.body.goalSha256 == goal.goalSha256 && p.body.dataContextSha256 == s.context.contextSha256
  }

  /** The errors that only the planner's reply can cause. */
  predicate IsReplyError(error: AgentError) {
    error in {PlannerFailed, DraftInvalid, SqlAnalysisFailed, WildcardNotAllowed, DatasetOutsideContext, ColumnOutsideContext}
  }

  /** What the planner is told of an attempt: the verdict on it and the reasons, the final ones if there are any,
    * else the initial ones, each once and in order.
    */
  lemma FeedbackTellsVerdict(s: Session, i: nat, p: Proposal)
    ensures var f := FeedbackOn(s, i, p);
            var v := s.verdict(i, p);
            && f.body.previousProposalSha256 == p.proposalSha256 && f.body.decision == v.decision
            && AreIncreasing(f.body.reasonCodes)
            && (forall r: Reason :: r in f.body.reasonCodes <==>
                  if v.finalReasons.None? || |v.finalReasons.value| == 0 then r in v.initialReasons
                  else r in v.finalReasons.value)
            && f.feedbackSha256 == s.env.feedbackHash(f.body)
  {
    CanonicalExactly(EffectiveReasons(s.verdict(i, p)));
  }

  /** Feedback built from any verdict passes its own validation. */
  lemma BuiltFeedbackIsValid(env: Env, previousSha256: string, decision: Decision, reasons: seq<Reason>)
    ensures IsValidFeedback(env, BuildFeedback(env, previousSha256, decision, reasons))
  {
    CanonicalElements(reasons, REASON_COUNT);
    CanonicalDependsOnElements(Canonical(reasons), reasons, REASON_COUNT);
  }

  lemma ReplyFailureIsReplyError(env: Env, context: DataContext, reply: Reply, error: AgentError)
    requires FirstFailure(ReplyChecks(env, context, reply), error)
    ensures IsReplyError(error)
  {
  }

  /** A proposal in the session either is adapted, or fails for the planner's reply alone. */
  lemma AdaptsUnlessReplyFails(s: Session, goal: Goal, i: nat, p: Proposal)
    requires IsOpen(s) && IsValidGoal(s.env, goal) && IsBound(s, goal, i, p) && i < MAX_ADAPTATIONS
    ensures var next := Next(s, goal, i, p);
            var feedback := FeedbackOn(s, i, p);
            var reply := s.nextReply(i, p, feedback);
            && (next.Ok? <==> IsAcceptable(s.env, s.context, reply))
            && (next.Err? ==> FirstFailure(ReplyChecks(s.env, s.context, reply), next.error))
            && (next.Ok? ==>
                 && IsBound(s, goal, i + 1, next.value) && next.value.body.capability == Adapt
                 && reply == Drafted(Draft(next.value.body.taskPurpose, next.value.body.sql))
                 && next.value.body.priorProposalSha256 == Some(p.proposalSha256)
                 && next.value.body.feedbackSha256 == Some(feedback.feedbackSha256))
  {
    hide Canonical, Answer, IsAcceptable, ReplyChecks, FirstFailure, IsIntact, IsInside, AllHold;
    var v := s.verdict(i, p);
    BuiltFeedbackIsValid(s.env, p.proposalSha256, v.decision, EffectiveReasons(v));
    IntactExactly(s.env, p);
    var feedback := FeedbackOn(s, i, p);
    AnswersExactly(s.env, Adapt, i + 1, goal, s.context, s.nextReply(i, p, feedback),
                   Some(p.proposalSha256), Some(feedback.feedbackSha256));
  }

  /** The reply some attempt got fails this way. */
  ghost predicate IsEndedBy(s: Session, error: AgentError) {
    || FirstFailure(ReplyChecks(s.env, s.context, s.firstReply), error)
    || exists i, p, f :: FirstFailure(ReplyChecks(s.env, s.context, s.nextReply(i, p, f)), error)
  }

  lemma {:induction false} AttemptedIsChain(s: Session, goal: Goal, i: nat, p: Proposal)
    requires IsOpen(s) && IsValidGoal(s.env, goal) && i < s.maxAttempts && IsBound(s, goal, i, p)
    ensures var result := Attempted(s, goal, i, p);
            && (result.Ok? ==> IsChain(s, goal, result.value, i) && result.value[0] == p)
            && (result.Err? ==> IsEndedBy(s, result.error))
    decreases s.maxAttempts - i
  {
    hide Next, IsValidGoal, FeedbackOn, IsIntact, IsInside, IsAcceptable, ReplyChecks, FirstFailure;
    if !(s.verdict(i, p).decision == Allow || i == s.maxAttempts - 1) {
      AdaptsUnlessReplyFails(s, goal, i, p);
      var next := Next(s, goal, i, p);
      if next.Ok? {
        AttemptedIsChain(s, goal, i + 1, next.value);
        var rest := Attempted(s, goal, i + 1, next.value);
        if rest.Ok? {
          ChainGrows(s, goal, i, p, rest.value);
        }
      }
    }
  }

  lemma ChainGrows(s: Session, goal: Goal, i: nat, p: Proposal, rest: seq<Proposal>)
    requires IsBound(s, goal, i, p) && s.verdict(i, p).decision != Allow && IsChain(s, goal, rest, i + 1)
    requires rest[0].body.capability == Adapt && rest[0].body.priorProposalSha256 == Some(p.proposalSha256)
    requires rest[0].body.feedbackSha256 == Some(FeedbackOn(s, i, p).feedbackSha256)
    requires s.nextReply(i, p, FeedbackOn(s, i, p)) == Drafted(Draft(rest[0].body.taskPurpose, rest[0].body.sql))
    ensures IsChain(s, goal, [p] + rest, i)
  {
    hide IsIntact, IsInside, FeedbackOn;
    var all := [p] + rest;
    forall k | 0 <= k < |all| ensures IsLinked(s, goal, all, i, k) {
      if k > 0 {
        assert IsLinked(s, goal, rest, i + 1, k - 1);
        assert all[k] == rest[k - 1];
      }
    }
    forall k | 0 <= k < |all| - 1 ensures s.verdict(i + k, all[k]).decision != Allow {
      if k > 0 {
        assert all[k] == rest[k - 1];
      }
    }
  }

  ghost predicate StripsOnce(env: Env) {
    forall text :: env.strip(env.strip(text)) == env.strip(text)
  }

  /** The goal is the stripped text, which must have 1 to 8192 characters. */
  lemma GoalIsStripped(env: Env, text: string)
    requires StripsOnce(env)
    ensures var stripped := env.strip(text);
            BuildGoal(env, text)
            == if 0 < |stripped| < 8193 then Some(Goal(stripped, env.textHash(stripped))) else None
  {
  }

  /** The first proposal is bound to the goal and the context, or fails for the planner's reply alone. */
  lemma ProposesUnlessReplyFails(s: Session, goal: Goal)
    requires IsOpen(s) && IsValidGoal(s.env, goal)
    ensures var first := ProposeFirst(s.env, goal, s.context, s.firstReply);
            && (first.Ok? <==> IsAcceptable(s.env, s.context, s.firstReply))
            && (first.Err? ==> FirstFailure(ReplyChecks(s.env, s.context, s.firstReply), first.error))
            && (first.Ok? ==>
                 && IsBound(s, goal, 0, first.value) && first.value.body.capability == Propose
                 && s.firstReply == Drafted(Draft(first.value.body.taskPurpose, first.value.body.sql)))
  {
    hide Answer, IsAcceptable, ReplyChecks, FirstFailure, IsIntact, IsInside, AllHold;
    AnswersExactly(s.env, Propose, 0, goal, s.context, s.firstReply, None, None);
  }

  /** Every session's proposals form a linked chain of at most `maxAttempts`, in which only the last may be
    * allowed, and each of which is what the planner drafted and stays inside the discovered surface. A session
    * ends early only for the goal itself or for what the planner replied, and with the error of the first check
    * the reply fails. No binding, validation or iteration-limit error can be raised.
    */
  lemma SessionIsChain(s: Session, text: string)
    requires IsOpen(s) && StripsOnce(s.env)
    ensures var result := Proposals(s, text);
            var goal := Goal(s.env.strip(text), s.env.textHash(s.env.strip(text)));
            && (result == Err(InvalidGoal) <==> !(0 < |goal.goal| < 8193))
            && (result.Err? ==> result.error == InvalidGoal || (IsReplyError(result.error) && IsEndedBy(s, result.error)))
            && (result.Ok? ==>
                 && IsChain(s, goal, result.value, 0)
                 && result.value[0].body.capability == Propose
                 && s.firstReply == Drafted(Draft(result.value[0].body.taskPurpose, result.value[0].body.sql)))
  {
    hide Attempted, IsValidGoal, IsIntact, IsInside, IsChain, ProposeFirst, BuildGoal, FirstFailure, ReplyChecks, IsAcceptable;
    GoalIsStripped(s.env, text);
    if BuildGoal(s.env, text).Some? {
      var goal := BuildGoal(s.env, text).value;
      BuiltGoalIsValid(s.env, text);
      ProposesUnlessReplyFails(s, goal);
      var first := ProposeFirst(s.env, goal, s.context, s.firstReply);
      if first.Ok? {
        AttemptedIsChain(s, goal, 0, first.value);
      }
      var result := Proposals(s, text);
      if result.Err? {
        EndingIsReplyError(s, result.error);
      }
    }
  }

  lemma BuiltGoalIsValid(env: Env, text: string)
    requires StripsOnce(env) && BuildGoal(env, text).Some?
    ensures IsValidGoal(env, BuildGoal(env, text).value)
  {
  }

  lemma EndingIsReplyError(s: Session, error: AgentError)
    requires IsEndedBy(s, error)
    ensures IsReplyError(error)
  {
    hide ReplyChecks, FirstFailure, IsReplyError;
    if FirstFailure(ReplyChecks(s.env, s.context, s.firstReply), error) {
      ReplyFailureIsReplyError(s.env, s.context, s.firstReply, error);
    } else {
      var i, p, f :| FirstFailure(ReplyChecks(s.env, s.context, s.nextReply(i, p, f)), error);
      ReplyFailureIsReplyError(s.env, s.context, s.nextReply(i, p, f), error);
    }
  }

  /** The report of one attempt: what was proposed, the verdict on it, and the final reasons if there are any,
    * else the initial ones.
    */
  predicate TellsAttempt(a: Attempt, k: nat, p: Proposal, v: Verdict) {
    && a.iteration == k && a.proposalSha256 == p.proposalSha256 && a.capability == p.body.capability
    && a.taskPurpose == p.body.taskPurpose && a.sql == p.body.sql
    && a.decision == v.decision && a.safeSql == v.safeSql && a.receiptId == v.receiptId
    && a.releasedRows == v.releasedRows
    && (v.finalReasons.None? || |v.finalReasons.value| == 0 ==> a.reasonCodes == v.initialReasons)
    && (v.finalReasons.Some? && |v.finalReasons.value| > 0 ==> a.reasonCodes == v.finalReasons.value)
  }

  /** What the report of a chain says: one to `maxAttempts` attempts numbered from zero, none but the last
    * allowed, success exactly when the last is, and otherwise the whole budget spent.
    */
  lemma ReportTellsOutcome(s: Session, goal: Goal, proposals: seq<Proposal>)
    requires IsOpen(s) && IsChain(s, goal, proposals, 0)
    ensures var r := Report(s, goal, Attempts(s, 0, proposals));
            && r.goal == goal.goal && r.goalSha256 == goal.goalSha256 && r.dataContextSha256 == s.context.contextSha256
            && 1 <= |r.attempts| == |proposals| <= s.maxAttempts <= 4
            && (forall k | 0 <= k < |r.attempts| :: TellsAttempt(r.attempts[k], k, proposals[k], s.verdict(k, proposals[k])))
            && (forall k | 0 <= k < |r.attempts| - 1 :: r.attempts[k].decision != Allow)
            && r.finalDecision == r.attempts[|r.attempts| - 1].decision
            && (r.succeeded <==> r.finalDecision == Allow)
            && r.exhausted == !r.succeeded
            && (r.exhausted ==> |r.attempts| == s.maxAttempts)
  {
    hide IsIntact, IsInside, FeedbackOn, IsValidContext;
    forall k | 0 <= k < |proposals| ensures proposals[k].body.iteration == k {
      assert IsLinked(s, goal, proposals, 0, k);
    }
  }

  ghost predicate AlwaysAcceptable(s: Session) {
    && IsAcceptable(s.env, s.context, s.firstReply)
    && forall i, p, f :: IsAcceptable(s.env, s.context, s.nextReply(i, p, f))
  }

  /** With a planner whose drafts are always acceptable, a session with a goal always reports. */
  lemma ValidPlannerCompletes(s: Session, text: string)
    requires IsOpen(s) && StripsOnce(s.env) && AlwaysAcceptable(s) && BuildGoal(s.env, text).Some?
    ensures Proposals(s, text).Ok?
  {
    hide Attempted, IsValidGoal, IsIntact, IsInside, IsAcceptable, ProposeFirst, ReplyChecks;
    BuiltGoalIsValid(s.env, text);
    var goal := BuildGoal(s.env, text).value;
    ProposesUnlessReplyFails(s, goal);
    AttemptsComplete(s, goal, 0, ProposeFirst(s.env, goal, s.context, s.firstReply).value);
  }

  lemma {:induction false} AttemptsComplete(s: Session, goal: Goal, i: nat, p: Proposal)
    requires IsOpen(s) && AlwaysAcceptable(s) && IsValidGoal(s.env, goal)
    requires i < s.maxAttempts && IsBound(s, goal, i, p)
    ensures Attempted(s, goal, i, p).Ok?
    decreases s.maxAttempts - i
  {
    hide Next, IsValidGoal, IsIntact, IsInside, FeedbackOn, IsAcceptable, ReplyChecks;
    if !(s.verdict(i, p).decision == Allow || i == s.maxAttempts - 1) {
      AdaptsUnlessReplyFails(s, goal, i, p);
      AttemptsComplete(s, goal, i + 1, Next(s, goal, i, p).value);
    }
  }

  // ---------------------------------------------------------------- the last proposal commits to the chain

  ghost predicate ProposalHashesAreDistinct(env: Env) {
    forall a, b | env.proposalHash(a) == env.proposalHash(b) :: a == b
  }

  /** Two chains, of whatever sessions, whose last proposals have the same hash are the same chain. */
  lemma LastProposalFixesChain(s: Session, t: Session, g: Goal, h: Goal, a: seq<Proposal>, b: seq<Proposal>)
    requires s.env == t.env && ProposalHashesAreDistinct(s.env)
    requires IsChain(s, g, a, 0) && IsChain(t, h, b, 0)
    requires a[|a| - 1].proposalSha256 == b[|b| - 1].proposalSha256
    ensures a == b
  {
    hide IsIntact, IsInside, FeedbackOn, ProposalHashesAreDistinct;
    LinkFixesProposal(s, t, g, h, a, b, |a| - 1, |b| - 1);
    assert |a| == |b|;
    EarlierAreFixed(s, t, g, h, a, b, |a| - 1);
  }

  lemma LinkFixesProposal(s: Session, t: Session, g: Goal, h: Goal, a: seq<Proposal>, b: seq<Proposal>, i: nat, k: nat)
    requires s.env == t.env && ProposalHashesAreDistinct(s.env)
    requires IsLinked(s, g, a, 0, i) && IsLinked(t, h, b, 0, k) && a[i].proposalSha256 == b[k].proposalSha256
    ensures a[i] == b[k] && i == k
  {
    hide FeedbackOn, IsInside;
    assert s.env.proposalHash(a[i].body) == s.env.proposalHash(b[k].body);
  }

  lemma {:induction false} EarlierAreFixed(
      s: Session, t: Session, g: Goal, h: Goal, a: seq<Proposal>, b: seq<Proposal>, k: nat)
    requires s.env == t.env && ProposalHashesAreDistinct(s.env)
    requires IsChain(s, g, a, 0) && IsChain(t, h, b, 0) && k < |a| && k < |b|
    requires a[k].proposalSha256 == b[k].proposalSha256
    ensures forall j | 0 <= j <= k :: a[j] == b[j]
  {
    hide IsIntact, IsInside, FeedbackOn, ProposalHashesAreDistinct;
    assert IsLinked(s, g, a, 0, k) && IsLinked(t, h, b, 0, k);
    LinkFixesProposal(s, t, g, h, a, b, k, k);
    if k > 0 {
      EarlierAreFixed(s, t, g, h, a, b, k - 1);
    }
  }
}
