/** The `system.run` pipeline: parse, decide, check twice, commit and run, as one trace of effects. */
module SystemRun {
  import opened Options
  import opened SystemRunPolicy

  datatype Source = NoSource | AskFallback | AutoReview | UnknownSource

  datatype Request = Request(
    commandOk: bool,
    argvEmpty: bool,
    planGiven: bool,
    planValid: bool,
    planMatches: bool,
    planSnapshot: bool,
    planOperand: bool,
    source: Source,
    approvedGiven: bool,
    approved: bool,
    decisionGiven: bool,
    decision: Decision,
    envAssignmentBlocked: bool,
    envOverrideRejected: bool,
    screenRecording: bool)

  datatype Risk = Low | Medium | High

  datatype Review = ReviewDeny | ReviewAsk | ReviewAllow(risk: Risk)

  /** What the host, its configuration and its auto-review answer while the policy is decided. */
  datatype Host = Host(
    snapshotCurrent: bool,
    security: Security,
    ask: Ask,
    askFallback: Security,
    analysisOk: bool,
    allowlistSatisfied: bool,
    inlineHit: bool,
    windowsCmdWrapper: bool,
    durable: bool,
    inlineTrusted: bool,
    auditSuppression: bool,
    bindingOk: bool,
    autoReview: bool,
    shellStartup: bool,
    eligible: bool,
    reviewable: bool,
    review: Review,
    hardenOk: bool,
    hardenSnapshot: bool,
    captureOk: bool,
    planArgv: bool,
    needsApproval: (Ask, Security, bool, bool, bool) -> bool)

  datatype Companion = NoReply | Refuses(because: Option<Reason>) | Replies

  /** What is answered while the command is executed. */
  datatype Answers = Answers(
    firstCheck: bool,
    operandOk: bool,
    operandFound: bool,
    execArgv: bool,
    preferCompanion: bool,
    companionEnforced: bool,
    fallbackAllowed: bool,
    companion: Companion,
    commitOk: bool,
    secondCheck: bool,
    currentBefore: bool,
    currentDuring: bool,
    runReturns: bool)

  /** One invocation. The signal reads as aborted from look number `abort` on. */
  datatype Call = Call(r: Request, h: Host, x: Answers, abort: nat)

  datatype Code = Invalid | Unavailable | DeniedCode

  datatype Effect =
    | Allowed
    | Revalidated(ok: bool)
    | AskedCompanion
    | Committed
    | Launched
    | DeniedEvent(reason: Reason)
    | FinishedEvent
    | Failed(code: Code)
    | Succeeded

  predicate AbortedAt(c: Call, look: nat) {
    c.abort <= look
  }

  function Denial(reason: Reason): seq<Effect> {
    [DeniedEvent(reason), Failed(if reason.CompanionUnavailable? then Unavailable else DeniedCode)]
  }

  // ---------- what each phase requires ----------

  predicate HasPlan(r: Request) {
    r.planGiven && r.planValid
  }

  predicate Explicit(r: Request) {
    r.approved || !r.decision.NoDecision?
  }

  predicate Delayed(r: Request) {
    r.source.AutoReview? || Explicit(r)
  }

  /** A source comes without an explicit approval, either comes with the plan it was given for, and delay with its snapshot. */
  predicate ValidRequest(r: Request) {
    && r.commandOk && !r.argvEmpty
    && (r.planGiven ==> r.planValid)
    && !r.source.UnknownSource?
    && (!r.source.NoSource? ==> !r.approvedGiven && !r.decisionGiven)
    && (!r.source.NoSource? || Explicit(r) ==> HasPlan(r) && r.planMatches)
    && (Delayed(r) ==> HasPlan(r) && r.planSnapshot)
    && !r.envAssignmentBlocked && !r.envOverrideRejected
  }

  /** A missing field has no value. */
  predicate WellFormed(r: Request) {
    (r.approved ==> r.approvedGiven) && (!r.decision.NoDecision? ==> r.decisionGiven)
  }

  function EffectiveSecurity(c: Call): Security {
    if c.r.source.AskFallback? then Least(c.h.security, c.h.askFallback) else c.h.security
  }

  function EffectiveAsk(c: Call): Ask {
    if c.r.source.AskFallback? then Off else c.h.ask
  }

  function FirstDecision(c: Call): Decision {
    if c.r.source.AutoReview? then AllowOnce else c.r.decision
  }

  function FirstQuery(c: Call): Query {
    Query(EffectiveSecurity(c), EffectiveAsk(c), c.h.analysisOk, c.h.allowlistSatisfied,
          c.h.durable || (c.h.inlineTrusted && c.h.inlineHit), FirstDecision(c), c.r.approved, c.h.windowsCmdWrapper, c.h.needsApproval)
  }

  predicate AuditApproval(c: Call) {
    c.h.auditSuppression && !(c.h.security.Full? && c.h.ask.Off? && !c.r.source.AskFallback?)
  }

  /** Approved before any review: by the request itself, or by a review it carries. */
  predicate ApprovedFirst(c: Call) {
    Delayed(c.r)
  }

  /** A command the policy did not allow may be put to the auto-review. */
  predicate Reviewable(c: Call) {
    && !c.r.source.AskFallback? && c.h.autoReview && !EffectiveAsk(c).Always?
    && EvaluatePolicy(FirstQuery(c)).analysisOk && c.h.reviewable && HasPlan(c.r)
    && !c.h.inlineHit && !c.h.shellStartup && c.h.eligible && !AuditApproval(c)
  }

  /** The auto-review grants a command the policy alone would not have allowed. */
  predicate Granted(c: Call) {
    Reviewable(c) && c.h.review.ReviewAllow? && !c.h.review.risk.High?
  }

  predicate AllowedFirst(c: Call) {
    EvaluatePolicy(FirstQuery(c)).allowed && (AuditApproval(c) ==> ApprovedFirst(c))
  }

  predicate ApprovedInTheEnd(c: Call) {
    ApprovedFirst(c) || !AllowedFirst(c)
  }

  /** A delayed approval is for the policy as it stands, and a review may not wave audit suppression through. */
  predicate Current(c: Call) {
    (Delayed(c.r) ==> c.h.snapshotCurrent) && !(c.r.source.AutoReview? && AuditApproval(c))
  }

  /** Security does not deny, inline code is approved, and the executable is bound where that is asked for. */
  predicate Examined(c: Call) {
    && Current(c)
    && !EffectiveSecurity(c).Deny?
    && (c.h.inlineHit ==> ApprovedFirst(c))
    && (ApprovedFirst(c) || c.r.source.AskFallback? || EffectiveSecurity(c).Allowlist? || c.h.autoReview ==> c.h.bindingOk)
  }

  /** No shell wrapper slips through, and the working directory is pinned where an approval or an allowlist needs it. */
  predicate Pinned(c: Call) {
    var security := EffectiveSecurity(c);
    var bound := ApprovedInTheEnd(c) || c.r.source.AskFallback?;
    && (security.Allowlist? && c.h.windowsCmdWrapper ==> ApprovedInTheEnd(c) || c.h.durable)
    && c.h.hardenOk
    && (if bound && c.h.hardenSnapshot then true else if security.Allowlist? then c.h.captureOk else !bound)
  }

  /** Everything a command needs to leave the policy phase. */
  predicate PolicyPermits(c: Call) {
    Examined(c) && (AllowedFirst(c) || Granted(c)) && Pinned(c) && c.h.planArgv
  }

  /** The allowlist is all that is missing: nothing asks for an approval, and nothing stands in for a match. */
  predicate MissesAllowlist(c: Call) {
    && !Delayed(c.r) && !AuditApproval(c) && !HostAsks(FirstQuery(c))
    && EffectiveSecurity(c).Allowlist? && !c.h.durable && !(c.h.inlineTrusted && c.h.inlineHit)
    && !(c.h.analysisOk && c.h.allowlistSatisfied && !c.h.windowsCmdWrapper)
  }

  predicate SecurityDenies(c: Call) {
    Current(c) && EffectiveSecurity(c).Deny? && (AuditApproval(c) ==> ApprovedFirst(c))
  }

  predicate ReviewDenies(c: Call) {
    Examined(c) && !AllowedFirst(c) && Reviewable(c) && c.h.review.ReviewDeny?
  }

  predicate AllowlistDenies(c: Call) {
    Examined(c) && MissesAllowlist(c) && !(Reviewable(c) && c.h.review.ReviewDeny?) && !Granted(c)
  }

  predicate PlanDenies(c: Call) {
    Examined(c) && (AllowedFirst(c) || Granted(c)) && Pinned(c) && !c.h.planArgv
  }

  /** The reason a denied command is given; whatever has no reason of its own asks for an approval. */
  function DenialReason(c: Call): Reason {
    if SecurityDenies(c) then SecurityDeny
    else if ReviewDenies(c) then AutoReviewDenied
    else if AllowlistDenies(c) then AllowlistMiss
    else if PlanDenies(c) then PlanMiss
    else ApprovalRequired
  }

  /** No command has two reasons of its own, and one that has any does not pass. */
  lemma ReasonsExclude(c: Call)
    ensures SecurityDenies(c) ==> !ReviewDenies(c) && !AllowlistDenies(c) && !PlanDenies(c)
    ensures ReviewDenies(c) ==> !AllowlistDenies(c) && !PlanDenies(c)
    ensures AllowlistDenies(c) ==> !PlanDenies(c)
    ensures PolicyPermits(c) ==> DenialReason(c).ApprovalRequired?
  {
    AllowedIff(FirstQuery(c));
    hide EvaluatePolicy;
  }

  /** The plan binds every script file the command still mentions. */
  predicate OperandsBound(c: Call) {
    HasPlan(c.r) && (ApprovedInTheEnd(c) || !c.r.source.NoSource? || EffectiveSecurity(c).Allowlist?)
    ==> c.x.operandOk && (c.x.operandFound ==> c.r.planOperand)
  }

  /** Everything up to the choice of where to run. */
  predicate Executable(c: Call) {
    PolicyPermits(c) && c.x.firstCheck && OperandsBound(c) && c.x.execArgv
  }

  /** The companion is not preferred, or could not be reached and may be replaced. */
  predicate RunsLocally(c: Call) {
    c.x.preferCompanion ==> !AbortedAt(c, 3) && c.x.companion.NoReply? && !c.x.companionEnforced && c.x.fallbackAllowed
  }

  predicate Launches(c: Call) {
    && !AbortedAt(c, 2) && ValidRequest(c.r) && Executable(c) && RunsLocally(c)
    && !c.r.screenRecording && c.x.commitOk && c.x.secondCheck && !AbortedAt(c, 4) && c.x.currentBefore
  }

  /** The invocation ends without an answer: an abort was noticed, or the run itself threw. */
  predicate Silent(c: Call) {
    || AbortedAt(c, 0)
    || (ValidRequest(c.r) && AbortedAt(c, 1))
    || (ValidRequest(c.r) && PolicyPermits(c) && AbortedAt(c, 2))
    || (ValidRequest(c.r) && Executable(c) && c.x.preferCompanion && AbortedAt(c, 3))
    || (ValidRequest(c.r) && Executable(c) && RunsLocally(c) && !c.r.screenRecording && c.x.commitOk && c.x.secondCheck
        && (AbortedAt(c, 4) || (c.x.currentBefore && c.x.currentDuring && (!c.x.runReturns || AbortedAt(c, 5)))))
  }

  /** The arguments the rule that asks is given for this command. */
  predicate RuleAsks(c: Call) {
    var fallback := c.r.source.AskFallback?;
    var security := if fallback then Least(c.h.security, c.h.askFallback) else c.h.security;
    var blocked := security.Allowlist? && c.h.windowsCmdWrapper;
    c.h.needsApproval(if fallback then Off else c.h.ask, security, c.h.analysisOk && !blocked, c.h.allowlistSatisfied && !blocked,
                      c.h.durable || (c.h.inlineTrusted && c.h.inlineHit))
  }

  /** The host lets its review decide, nothing about the command keeps it from doing so, and it allows it at low or medium risk. */
  predicate ReviewAllows(c: Call) {
    && c.h.autoReview && !c.h.ask.Always? && c.h.reviewable && c.h.eligible && !c.h.shellStartup && !c.h.inlineHit
    && !c.r.source.AskFallback? && c.r.planGiven && c.h.analysisOk && !(c.h.security.Allowlist? && c.h.windowsCmdWrapper)
    && !(c.h.auditSuppression && !(c.h.security.Full? && c.h.ask.Off?))
    && c.h.review.ReviewAllow? && (c.h.review.risk.Low? || c.h.review.risk.Medium?)
  }

  /** Under any security level, a command that nobody approved runs only if the rule that asks says no, or a review of
      low or medium risk allowed it. */
  lemma UnapprovedLaunch(c: Call)
    requires Launches(c) && !c.r.approved && c.r.decision.NoDecision? && !c.r.source.AutoReview?
    ensures !RuleAsks(c) || ReviewAllows(c)
    ensures !ApprovedInTheEnd(c) ==> !RuleAsks(c)
  {
    AllowedIff(FirstQuery(c));
    assert EvaluatePolicy(FirstQuery(c)).analysisOk ==> c.h.analysisOk && !(EffectiveSecurity(c).Allowlist? && c.h.windowsCmdWrapper);
    hide EvaluatePolicy;
  }

  /** A command that runs under an allowlist without any approval has matched it, and nothing in it asked for one. */
  lemma AllowlistLaunch(c: Call)
    requires Launches(c) && EffectiveSecurity(c).Allowlist? && !ApprovedInTheEnd(c)
    ensures c.h.durable || (c.h.analysisOk && c.h.allowlistSatisfied && !c.h.windowsCmdWrapper)
    ensures !c.h.inlineHit && !c.h.auditSuppression && !RuleAsks(c)
  {
    AllowedIff(FirstQuery(c));
    hide EvaluatePolicy;
  }

  /** An approval that was asked for late, or given by a review, still lets nothing run that the current policy denies. */
  lemma ApprovedLaunch(c: Call)
    requires Launches(c) && ApprovedInTheEnd(c)
    ensures !c.h.security.Deny? && c.h.hardenOk && c.h.bindingOk && HasPlan(c.r)
    ensures ApprovedFirst(c) ==> c.r.planSnapshot && c.h.snapshotCurrent
    ensures !ApprovedFirst(c) ==> Granted(c) && !c.r.source.AskFallback? && !c.h.inlineHit && !AuditApproval(c)
  {
  }

  /** Whatever the policy, everything a launched command had, field by field. */
  lemma LaunchNeeds(c: Call)
    requires Launches(c)
    ensures c.r.commandOk && !c.r.argvEmpty && !c.r.envAssignmentBlocked && !c.r.envOverrideRejected && !c.r.screenRecording
    ensures (c.r.planGiven ==> c.r.planValid) && !c.r.source.UnknownSource?
    ensures !c.r.source.NoSource? ==> !c.r.approvedGiven && !c.r.decisionGiven && c.r.planGiven && c.r.planMatches
    ensures c.r.approved || !c.r.decision.NoDecision? || c.r.source.AutoReview? ==>
      c.r.planGiven && c.r.planMatches && c.r.planSnapshot && c.h.snapshotCurrent && c.h.bindingOk
    ensures !c.h.security.Deny? && (c.r.source.AskFallback? ==> !c.h.askFallback.Deny?)
    ensures c.h.inlineHit ==> c.r.approved || !c.r.decision.NoDecision? || c.r.source.AutoReview?
    ensures c.h.auditSuppression && !(c.h.security.Full? && c.h.ask.Off?) ==> c.r.approved || !c.r.decision.NoDecision?
    ensures c.h.security.Allowlist? ==> c.h.bindingOk && (c.h.hardenSnapshot || c.h.captureOk)
    ensures c.h.hardenOk && c.h.planArgv && c.x.execArgv
    ensures c.r.planGiven && (!c.r.source.NoSource? || c.h.security.Allowlist? || ApprovedInTheEnd(c)) ==>
      c.x.operandOk && (c.x.operandFound ==> c.r.planOperand)
    ensures c.x.firstCheck && c.x.commitOk && c.x.secondCheck && c.x.currentBefore && c.abort > 4
    ensures c.x.preferCompanion ==> c.x.companion.NoReply? && !c.x.companionEnforced && c.x.fallbackAllowed
  {
    hide EvaluatePolicy;
  }

  /** Every check of the host passes and the signal stays quiet. */
  predicate AllChecksPass(c: Call) {
    && c.abort > 5 && c.h.hardenOk && c.h.planArgv && c.x.execArgv && c.x.firstCheck && c.x.commitOk && c.x.secondCheck
    && c.x.currentBefore && c.x.operandOk && !c.x.operandFound && !c.x.preferCompanion && c.h.bindingOk && c.h.captureOk
    && c.h.snapshotCurrent
  }

  /** A well-formed command, without a plan or an approval. */
  predicate PlainRequest(r: Request) {
    && r.commandOk && !r.argvEmpty && !r.planGiven && r.source.NoSource? && !r.approvedGiven && !r.approved
    && !r.decisionGiven && r.decision.NoDecision? && !r.envAssignmentBlocked && !r.envOverrideRejected && !r.screenRecording
  }

  /** Nothing more than that is asked of a plain command under full security that the rule does not ask about. */
  lemma FullSecurityLaunches(c: Call)
    requires AllChecksPass(c) && PlainRequest(c.r) && c.h.security.Full? && !RuleAsks(c) && !c.h.inlineHit && !c.h.auditSuppression
    ensures Launches(c)
  {
    AllowedIff(FirstQuery(c));
    hide EvaluatePolicy;
  }

  /** Nor of one that matches its allowlist. */
  lemma MatchedLaunches(c: Call)
    requires AllChecksPass(c) && PlainRequest(c.r) && c.h.security.Allowlist? && !RuleAsks(c) && !c.h.inlineHit && !c.h.auditSuppression
    requires c.h.durable || (c.h.analysisOk && c.h.allowlistSatisfied && !c.h.windowsCmdWrapper)
    ensures Launches(c)
  {
    AllowedIff(FirstQuery(c));
    hide EvaluatePolicy;
  }

  /** Nor of one that is approved for its plan, whatever the rule, the allowlist or the inline check say. */
  lemma ApprovalLaunches(c: Call)
    requires AllChecksPass(c) && !c.h.security.Deny? && c.h.hardenSnapshot
    requires c.r.commandOk && !c.r.argvEmpty && c.r.planGiven && c.r.planValid && c.r.planMatches && c.r.planSnapshot
    requires c.r.source.NoSource? && (c.r.approved || !c.r.decision.NoDecision?)
    requires !c.r.envAssignmentBlocked && !c.r.envOverrideRejected && !c.r.screenRecording
    ensures Launches(c)
  {
    AllowedIff(FirstQuery(c));
    hide EvaluatePolicy;
  }

  /** Nor of one with a valid plan that nobody approved and that the host's review allows, whatever the rule or the allowlist say. */
  lemma ReviewLaunches(c: Call)
    requires AllChecksPass(c) && !c.h.security.Deny? && c.h.hardenSnapshot && ReviewAllows(c)
    requires c.r.commandOk && !c.r.argvEmpty && c.r.planValid && c.r.source.NoSource? && !c.r.approved && c.r.decision.NoDecision?
    requires !c.r.envAssignmentBlocked && !c.r.envOverrideRejected && !c.r.screenRecording
    ensures Launches(c)
  {
    AllowedIff(FirstQuery(c));
    assert EvaluatePolicy(FirstQuery(c)).analysisOk;
    hide EvaluatePolicy;
  }

  // ---------- the answer ----------

  datatype Verdict = Unanswered | Malformed | DeniedFor(reason: Reason) | Success

  function LocalVerdict(c: Call): Verdict {
    if c.r.screenRecording then DeniedFor(ScreenRecording)
    else if !c.x.commitOk then DeniedFor(WriteFailed)
    else if !c.x.secondCheck then DeniedFor(ApprovalRequired)
    else if AbortedAt(c, 4) then Unanswered
    else if !c.x.currentBefore || !c.x.currentDuring then DeniedFor(ApprovalRequired)
    else if !c.x.runReturns || AbortedAt(c, 5) then Unanswered
    else Success
  }

  function ExecutedVerdict(c: Call): Verdict {
    if !c.x.firstCheck || !OperandsBound(c) then DeniedFor(ApprovalRequired)
    else if !c.x.execArgv then DeniedFor(PlanMiss)
    else if !c.x.preferCompanion then LocalVerdict(c)
    else if AbortedAt(c, 3) then Unanswered
    else
      match c.x.companion
      case Replies => Success
      case Refuses(because) => DeniedFor(RefusalReason(because))
      case NoReply =>
        if c.x.companionEnforced || !c.x.fallbackAllowed then DeniedFor(CompanionUnavailable) else LocalVerdict(c)
  }

  function VerdictOf(c: Call): Verdict {
    if AbortedAt(c, 0) then Unanswered
    else if !ValidRequest(c.r) then Malformed
    else if AbortedAt(c, 1) then Unanswered
    else if !PolicyPermits(c) then DeniedFor(DenialReason(c))
    else if AbortedAt(c, 2) then Unanswered
    else ExecutedVerdict(c)
  }

  predicate RefusedBy(c: Call, reason: Reason) {
    c.x.preferCompanion && c.x.companion.Refuses? && RefusalReason(c.x.companion.because) == reason
  }

  /** What each answer says about the invocation. */
  lemma VerdictMeans(c: Call)
    ensures VerdictOf(c).Unanswered? <==> Silent(c)
    ensures VerdictOf(c).Malformed? <==> c.abort > 0 && !ValidRequest(c.r)
    ensures VerdictOf(c).Success? <==>
      && !Silent(c) && ValidRequest(c.r) && Executable(c)
      && if c.x.preferCompanion && !c.x.companion.NoReply? then c.x.companion.Replies?
         else Launches(c) && c.x.currentDuring
    ensures VerdictOf(c) == DeniedFor(SecurityDeny) ==>
      c.h.security.Deny? || (c.r.source.AskFallback? && c.h.askFallback.Deny?) || RefusedBy(c, SecurityDeny)
    ensures VerdictOf(c) == DeniedFor(AutoReviewDenied) ==> c.h.autoReview && c.h.review.ReviewDeny?
    ensures VerdictOf(c) == DeniedFor(AllowlistMiss) ==>
      || RefusedBy(c, AllowlistMiss)
      || ((c.h.security.Allowlist? || c.h.askFallback.Allowlist?) && !c.h.durable
          && !(c.h.analysisOk && c.h.allowlistSatisfied && !c.h.windowsCmdWrapper))
    ensures VerdictOf(c) == DeniedFor(PlanMiss) ==> !c.h.planArgv || !c.x.execArgv || RefusedBy(c, PlanMiss)
    ensures VerdictOf(c) == DeniedFor(CompanionUnavailable) ==>
      c.x.preferCompanion && ((c.x.companion.NoReply? && (c.x.companionEnforced || !c.x.fallbackAllowed)) || RefusedBy(c, CompanionUnavailable))
    ensures VerdictOf(c) == DeniedFor(ScreenRecording) ==> c.r.screenRecording || RefusedBy(c, ScreenRecording)
    ensures VerdictOf(c) == DeniedFor(WriteFailed) ==> !c.x.commitOk
    ensures VerdictOf(c) == DeniedFor(CwdUnavailable) ==> RefusedBy(c, CwdUnavailable)
  {
    hide EvaluatePolicy;
    if !PolicyPermits(c) {
      DenialMeans(c);
    }
    hide DenialReason, PolicyPermits, OperandsBound, ValidRequest;
  }

  lemma DenialMeans(c: Call)
    ensures DenialReason(c).SecurityDeny? ==> c.h.security.Deny? || (c.r.source.AskFallback? && c.h.askFallback.Deny?)
    ensures DenialReason(c).AutoReviewDenied? ==> c.h.autoReview && c.h.review.ReviewDeny?
    ensures DenialReason(c).AllowlistMiss? ==>
      && (c.h.security.Allowlist? || c.h.askFallback.Allowlist?) && !c.h.durable
      && !(c.h.analysisOk && c.h.allowlistSatisfied && !c.h.windowsCmdWrapper)
    ensures DenialReason(c).PlanMiss? ==> !c.h.planArgv
    ensures DenialReason(c) in {SecurityDeny, AutoReviewDenied, AllowlistMiss, PlanMiss, ApprovalRequired}
  {
    hide EvaluatePolicy;
  }

  /** The trace ends with the answer, and with none where none is due. */
  predicate Ends(t: seq<Effect>, v: Verdict) {
    match v
    case Unanswered => !Answered(t)
    case Malformed => t == [Failed(Invalid)]
    case DeniedFor(reason) =>
      |t| >= 2 && t[|t| - 2..] == [DeniedEvent(reason), Failed(if reason == CompanionUnavailable then Unavailable else DeniedCode)]
    case Success => |t| >= 2 && t[|t| - 2..] == [FinishedEvent, Succeeded]
  }

  lemma EndsWith(t: seq<Effect>, tail: seq<Effect>)
    requires |tail| == 2
    ensures (t + tail)[|t + tail| - 2..] == tail
  {
  }

  /** Left alone, an invocation answers unless the run itself throws. */
  lemma UncutAnswers(c: Call)
    requires c.abort > 5 && (Launches(c) && c.x.currentDuring ==> c.x.runReturns)
    ensures !Silent(c)
  {
  }

  // ---------- what every trace keeps ----------

  predicate IsAnswer(e: Effect) {
    e.Failed? || e.Succeeded?
  }

  /** At most one answer, and it ends the trace; a success follows no denial; a launch follows its five steps and no other launch. */
  ghost predicate Sound(t: seq<Effect>) {
    AnswersLast(t) && SucceedsUndenied(t) && LaunchesOnce(t) && LaunchesPrepared(t) && SucceedsAfterRunning(t)
  }

  predicate AnswersLast(t: seq<Effect>) {
    forall i :: 0 <= i < |t| && IsAnswer(t[i]) ==> i == |t| - 1
  }

  predicate SucceedsUndenied(t: seq<Effect>) {
    Succeeded in t ==> forall i :: 0 <= i < |t| ==> !t[i].DeniedEvent? && !t[i].Failed?
  }

  predicate LaunchesOnce(t: seq<Effect>) {
    forall i, j :: 0 <= i < j < |t| && t[i].Launched? ==> !t[j].Launched?
  }

  ghost predicate LaunchesPrepared(t: seq<Effect>) {
    forall i :: 0 <= i < |t| && t[i].Launched? ==> Prepared(t[..i])
  }

  predicate SucceedsAfterRunning(t: seq<Effect>) {
    forall i :: 0 <= i < |t| && t[i].Succeeded? ==> 2 <= i && t[i - 1].FinishedEvent? && (t[i - 2].Launched? || t[i - 2].AskedCompanion?)
  }

  /** Allowed, revalidated, committed and revalidated again, in that order. */
  ghost predicate Prepared(t: seq<Effect>) {
    exists a, b, c, d :: 0 <= a < b < c < d < |t|
                         && t[a].Allowed? && t[b] == Revalidated(true) && t[c].Committed? && t[d] == Revalidated(true)
  }

  /** An exception stops the trace anywhere, and what it leaves is sound as well. */
  lemma PrefixIsSound(t: seq<Effect>, n: nat)
    requires Sound(t) && n <= |t|
    ensures Sound(t[..n])
  {
    forall i | 0 <= i < n && t[..n][i].Launched? ensures Prepared(t[..n][..i]) {
      assert t[..n][..i] == t[..i];
    }
  }

  /** Sound, and nothing answered or denied yet. */
  ghost predicate Open(t: seq<Effect>) {
    Sound(t) && forall i :: 0 <= i < |t| ==> !IsAnswer(t[i]) && !t[i].DeniedEvent?
  }

  predicate Answered(t: seq<Effect>) {
    t != [] && IsAnswer(t[|t| - 1])
  }

  lemma PushQuiet(t: seq<Effect>, e: Effect)
    requires Open(t) && !IsAnswer(e) && !e.DeniedEvent? && !e.Launched?
    ensures Open(t + [e])
  {
    hide Prepared;
    PushedPrefixes(t, [e]);
  }

  lemma PushLaunch(t: seq<Effect>)
    requires Open(t) && Launched !in t && Prepared(t)
    ensures Open(t + [Launched])
  {
    hide Prepared;
    var u := t + [Launched];
    forall i | 0 <= i < |u| && u[i].Launched? ensures Prepared(u[..i]) {
      assert i == |t| && u[..i] == t;
    }
  }

  lemma PushDenial(t: seq<Effect>, reason: Reason)
    requires Open(t)
    ensures Sound(t + Denial(reason)) && Answered(t + Denial(reason)) && (Launched in t + Denial(reason) <==> Launched in t)
    ensures Ends(t + Denial(reason), DeniedFor(reason))
  {
    EndsWith(t, Denial(reason));
    hide Prepared;
    PushedPrefixes(t, Denial(reason));
  }

  lemma PushSuccess(t: seq<Effect>)
    requires Open(t) && t != [] && (t[|t| - 1].Launched? || t[|t| - 1].AskedCompanion?)
    ensures Sound(t + [FinishedEvent, Succeeded]) && Answered(t + [FinishedEvent, Succeeded])
    ensures Ends(t + [FinishedEvent, Succeeded], Success)
  {
    EndsWith(t, [FinishedEvent, Succeeded]);
    hide Prepared;
    PushedPrefixes(t, [FinishedEvent, Succeeded]);
  }

  lemma PushedPrefixes(t: seq<Effect>, more: seq<Effect>)
    ensures forall i :: 0 <= i < |t| ==> (t + more)[..i] == t[..i]
  {
  }

  // ---------- the phases ----------

  method ParseSystemRun(r: Request) returns (t: seq<Effect>, parsed: bool)
    requires WellFormed(r)
    ensures parsed <==> ValidRequest(r)
    ensures t == if parsed then [] else [Failed(Invalid)]
  {
    t, parsed := [Failed(Invalid)], false;
    if !r.commandOk || r.argvEmpty {
      return;
    }
    if r.planGiven && !r.planValid {
      return;
    }
    if r.source.UnknownSource? {
      return;
    }
    if !r.source.NoSource? && (r.approvedGiven || r.decisionGiven) {
      return;
    }
    var explicit := r.approved || !r.decision.NoDecision?;
    var delayed := r.source.AutoReview? || explicit;
    if !r.source.NoSource? || explicit {
      if !HasPlan(r) || !r.planMatches {
        return;
      }
    }
    var snapshot := delayed && HasPlan(r) && r.planSnapshot;
    if delayed && !snapshot {
      return;
    }
    if r.envAssignmentBlocked {
      return;
    }
    if r.envOverrideRejected {
      return;
    }
    t, parsed := [], true;
  }

  /** The policy a run is allowed under. */
  datatype Phase = Phase(security: Security, approvedByAsk: bool)

  lemma FirstPolicy(c: Call)
    ensures var p := EvaluatePolicy(FirstQuery(c));
      && p.approvedByAsk == ApprovedFirst(c) && p.wrapperBlocked == (EffectiveSecurity(c).Allowlist? && c.h.windowsCmdWrapper)
      && (p.allowed ==> !EffectiveSecurity(c).Deny?)
      && (!p.allowed ==> (p.reason.SecurityDeny? <==> EffectiveSecurity(c).Deny?))
      && (p.approvedByAsk && !EffectiveSecurity(c).Deny? ==> p.allowed)
      && (p.reason.AllowlistMiss? && !AuditApproval(c) <==> !EffectiveSecurity(c).Deny? && MissesAllowlist(c))
      && (p.reason.SecurityDeny? || p.reason.AllowlistMiss? || p.reason.ApprovalRequired?)
  {
  }

  lemma ReviewedPolicy(c: Call, analysisOk: bool, satisfied: bool)
    ensures var p := EvaluatePolicy(FirstQuery(c).(analysisOk := analysisOk, allowlistSatisfied := satisfied,
                                                   decision := AllowOnce, approved := true));
      && p.approvedByAsk && (p.allowed <==> !EffectiveSecurity(c).Deny?)
      && p.wrapperBlocked == (EffectiveSecurity(c).Allowlist? && c.h.windowsCmdWrapper)
  {
  }

  /** What a command that is not allowed is told, by how far it came. */
  lemma ReasonBeforeAllowed(c: Call)
    ensures !Examined(c) || !(AllowedFirst(c) || Granted(c)) ==> !PolicyPermits(c)
    ensures !Current(c) || (!EffectiveSecurity(c).Deny? && !Examined(c)) ==> DenialReason(c).ApprovalRequired?
    ensures Current(c) && EffectiveSecurity(c).Deny? ==>
      DenialReason(c) == if AuditApproval(c) && !ApprovedFirst(c) then ApprovalRequired else SecurityDeny
    ensures Examined(c) && !AllowedFirst(c) && !Granted(c) ==>
      DenialReason(c) == if Reviewable(c) && c.h.review.ReviewDeny? then AutoReviewDenied
                         else if MissesAllowlist(c) then AllowlistMiss else ApprovalRequired
  {
    hide EvaluatePolicy, MissesAllowlist;
  }

  method EvaluateSystemRunPolicy(c: Call) returns (t: seq<Effect>, phase: Option<Phase>)
    requires ValidRequest(c.r)
    ensures phase.Some? <==> PolicyPermits(c)
    ensures phase.Some? ==> t == [Allowed] && phase.value == Phase(EffectiveSecurity(c), ApprovedInTheEnd(c))
    ensures phase.None? ==> t == Denial(DenialReason(c))
  {
    var r, h := c.r, c.h;
    phase := None;
    ReasonBeforeAllowed(c);
    hide DenialReason, PolicyPermits;
    if Delayed(r) && !h.snapshotCurrent {
      t := Denial(ApprovalRequired);
      return;
    }
    var fallback := r.source.AskFallback?;
    var security := if fallback then Least(h.security, h.askFallback) else h.security;
    var ask := if fallback then Off else h.ask;
    var query := FirstQuery(c);
    var policy := EvaluatePolicy(query);
    FirstPolicy(c);
    hide EvaluatePolicy, FirstQuery, MissesAllowlist;
    var audit := AuditApproval(c);
    if r.source.AutoReview? && audit {
      t := Denial(ApprovalRequired);
      return;
    }
    if audit && !policy.approvedByAsk {
      policy := policy.(allowed := false, reason := ApprovalRequired, requiresAsk := true);
    }
    if h.inlineHit && !policy.approvedByAsk && (policy.allowed || !policy.reason.SecurityDeny?) {
      t := Denial(ApprovalRequired);
      return;
    }
    if !security.Deny? && (policy.approvedByAsk || fallback || security.Allowlist? || h.autoReview) {
      if !h.bindingOk {
        t := Denial(ApprovalRequired);
        return;
      }
    }
    if !policy.allowed {
      var canReview := !fallback && h.autoReview && !ask.Always? && policy.analysisOk && h.reviewable && HasPlan(r)
        && !h.inlineHit && !h.shellStartup && h.eligible && !audit && !policy.reason.SecurityDeny?;
      if canReview {
        if h.review.ReviewDeny? {
          t := Denial(AutoReviewDenied);
          return;
        }
        if h.review.ReviewAllow? && (h.review.risk.Low? || h.review.risk.Medium?) {
          ReviewedPolicy(c, policy.analysisOk, policy.allowlistSatisfied);
          policy := EvaluatePolicy(query.(analysisOk := policy.analysisOk, allowlistSatisfied := policy.allowlistSatisfied,
                                          decision := AllowOnce, approved := true));
        }
      }
    }
    if !policy.allowed {
      t := Denial(policy.reason);
      return;
    }
    t, phase := BindExecution(c, policy);
  }

  /** Only the plan can still be missed once the command is allowed. */
  lemma ReasonOnceAllowed(c: Call)
    requires Examined(c) && (AllowedFirst(c) || Granted(c))
    ensures DenialReason(c) == if PlanDenies(c) then PlanMiss else ApprovalRequired
  {
    AllowedIff(FirstQuery(c));
    hide EvaluatePolicy;
  }

  /** Binds an allowed command to its working directory and its planned arguments. */
  method BindExecution(c: Call, policy: Policy) returns (t: seq<Effect>, phase: Option<Phase>)
    requires Examined(c) && (AllowedFirst(c) || Granted(c))
    requires policy.approvedByAsk == ApprovedInTheEnd(c)
    requires policy.wrapperBlocked == (EffectiveSecurity(c).Allowlist? && c.h.windowsCmdWrapper)
    ensures phase.Some? <==> PolicyPermits(c)
    ensures phase.Some? ==> t == [Allowed] && phase.value == Phase(EffectiveSecurity(c), ApprovedInTheEnd(c))
    ensures phase.None? ==> t == Denial(DenialReason(c))
  {
    var h, security, fallback := c.h, EffectiveSecurity(c), c.r.source.AskFallback?;
    phase := None;
    ReasonOnceAllowed(c);
    hide DenialReason, EvaluatePolicy, Examined, AllowedFirst, Granted;
    if policy.wrapperBlocked && !policy.approvedByAsk && !h.durable {
      t := Denial(ApprovalRequired);
      return;
    }
    var bound := policy.approvedByAsk || fallback;
    if !h.hardenOk {
      t := Denial(ApprovalRequired);
      return;
    }
    var snapshot := bound && h.hardenSnapshot;
    if security.Allowlist? && !snapshot {
      if !h.captureOk {
        t := Denial(ApprovalRequired);
        return;
      }
      snapshot := true;
    }
    if (bound || security.Allowlist?) && !snapshot {
      t := Denial(ApprovalRequired);
      return;
    }
    if !h.planArgv {
      t := Denial(PlanMiss);
      return;
    }
    t, phase := [Allowed], Some(Phase(security, policy.approvedByAsk));
  }

  method Revalidate(so: seq<Effect>, ok: bool) returns (t: seq<Effect>)
    requires Open(so)
    ensures t == so + [Revalidated(ok)] + if ok then [] else Denial(ApprovalRequired)
    ensures if ok then Open(t) else Sound(t) && Answered(t) && Ends(t, DeniedFor(ApprovalRequired))
  {
    t := so + [Revalidated(ok)];
    PushQuiet(so, Revalidated(ok));
    if !ok {
      PushDenial(t, ApprovalRequired);
      t := t + Denial(ApprovalRequired);
    }
  }

  /** A companion's refusal, with any reason it does not share read as a missing approval. */
  function RefusalReason(because: Option<Reason>): Reason {
    match because
    case Some(AutoReviewDenied) => ApprovalRequired
    case Some(WriteFailed) => ApprovalRequired
    case Some(reason) => reason
    case None => ApprovalRequired
  }

  method ExecuteSystemRun(c: Call, phase: Phase) returns (t: seq<Effect>)
    requires ValidRequest(c.r) && PolicyPermits(c) && !AbortedAt(c, 2)
    requires !AbortedAt(c, 1) && !AbortedAt(c, 0)
    requires phase == Phase(EffectiveSecurity(c), ApprovedInTheEnd(c))
    ensures Sound(t) && (Answered(t) <==> !Silent(c)) && (Launched in t <==> Launches(c))
    ensures Ends(t, ExecutedVerdict(c))
  {
    hide ValidRequest, PolicyPermits, Sound;
    assert Open([Allowed]) by {
      OpenAtFirst();
    }
    t := Revalidate([Allowed], c.x.firstCheck);
    if !c.x.firstCheck {
      return;
    }
    if HasPlan(c.r) && (phase.approvedByAsk || !c.r.source.NoSource? || phase.security.Allowlist?) {
      if !c.x.operandOk || (c.x.operandFound && !c.r.planOperand) {
        PushDenial(t, ApprovalRequired);
        t := t + Denial(ApprovalRequired);
        return;
      }
    }
    if !c.x.execArgv {
      PushDenial(t, PlanMiss);
      t := t + Denial(PlanMiss);
      return;
    }
    if c.x.preferCompanion {
      PushQuiet(t, AskedCompanion);
      t := t + [AskedCompanion];
      if AbortedAt(c, 3) {
        return;
      }
      match c.x.companion {
        case NoReply =>
          if c.x.companionEnforced || !c.x.fallbackAllowed {
            PushDenial(t, CompanionUnavailable);
            t := t + Denial(CompanionUnavailable);
            return;
          }
        case Refuses(because) =>
          PushDenial(t, RefusalReason(because));
          t := t + Denial(RefusalReason(because));
          return;
        case Replies =>
          PushSuccess(t);
          t := t + [FinishedEvent, Succeeded];
          return;
      }
    }
    t := RunHere(c, t);
  }

  lemma OpenAtFirst()
    ensures Open([Allowed])
  {
  }

  /** Commits, checks again and runs the command in this process. */
  method RunHere(c: Call, so: seq<Effect>) returns (t: seq<Effect>)
    requires ValidRequest(c.r) && !AbortedAt(c, 2) && !AbortedAt(c, 1) && !AbortedAt(c, 0) && Executable(c) && RunsLocally(c)
    requires Open(so) && !Answered(so) && Launched !in so && |so| >= 2 && so[0].Allowed? && so[1] == Revalidated(true)
    ensures Sound(t) && (Answered(t) <==> !Silent(c)) && (Launched in t <==> Launches(c))
    ensures Ends(t, LocalVerdict(c))
  {
    hide ValidRequest, Executable, Sound;
    if c.r.screenRecording {
      PushDenial(so, ScreenRecording);
      t := so + Denial(ScreenRecording);
      return;
    }
    if !c.x.commitOk {
      PushDenial(so, WriteFailed);
      t := so + Denial(WriteFailed);
      return;
    }
    PushQuiet(so, Committed);
    t := Revalidate(so + [Committed], c.x.secondCheck);
    if !c.x.secondCheck {
      return;
    }
    if AbortedAt(c, 4) {
      return;
    }
    if !c.x.currentBefore {
      PushDenial(t, ApprovalRequired);
      t := t + Denial(ApprovalRequired);
      return;
    }
    assert Prepared(t) by {
      assert t[0] == so[0] && t[1] == so[1] && t[|so|] == Committed && t[|so| + 1] == Revalidated(true);
    }
    PushLaunch(t);
    t := t + [Launched];
    if !c.x.currentDuring {
      PushDenial(t, ApprovalRequired);
      t := t + Denial(ApprovalRequired);
      return;
    }
    if !c.x.runReturns || AbortedAt(c, 5) {
      return;
    }
    PushSuccess(t);
    t := t + [FinishedEvent, Succeeded];
  }

  /** One whole invocation. Its trace is sound, it launches exactly when everything permits it, and it answers unless cut short. */
  method HandleSystemRunInvoke(c: Call) returns (t: seq<Effect>)
    requires WellFormed(c.r)
    ensures Sound(t) && forall n :: 0 <= n <= |t| ==> Sound(t[..n])
    ensures Launched in t <==> Launches(c)
    ensures Answered(t) <==> !Silent(c)
    ensures Ends(t, VerdictOf(c))
  {
    hide PolicyPermits, Sound, ValidRequest, DenialReason, ExecutedVerdict;
    t := [];
    assert Sound([]) by {
      SoundAtFirst();
    }
    if AbortedAt(c, 0) {
      return;
    }
    var parsed, phase;
    t, parsed := ParseSystemRun(c.r);
    if parsed && !AbortedAt(c, 1) {
      t, phase := EvaluateSystemRunPolicy(c);
      if phase.Some? && !AbortedAt(c, 2) {
        t := ExecuteSystemRun(c, phase.value);
      }
    }
    assert Sound(t) by {
      SoundAtFirst();
    }
    forall n | 0 <= n <= |t| ensures Sound(t[..n]) {
      PrefixIsSound(t, n);
    }
  }

  lemma SoundAtFirst()
    ensures Sound([]) && Sound([Failed(Invalid)]) && Sound([Allowed]) && forall reason :: Sound(Denial(reason))
  {
  }
}
