/** The exec policy decision: security level, allowlist analysis and approvals make an allow or a denial. */
module SystemRunPolicy {

  datatype Security = Deny | Allowlist | Full

  datatype Ask = Off | OnMiss | Always

  datatype Decision = NoDecision | AllowOnce | AllowAlways

  datatype Reason =
    | SecurityDeny
    | ApprovalRequired
    | AllowlistMiss
    | PlanMiss
    | CompanionUnavailable
    | CwdUnavailable
    | ScreenRecording
    | AutoReviewDenied
    | WriteFailed

  function Least(a: Security, b: Security): Security {
    if a.Deny? || b.Deny? then Deny else if a.Allowlist? || b.Allowlist? then Allowlist else Full
  }

  /** `needsApproval` stands for the rule that asks, given ask mode, security, analysis, allowlist and durable approval. */
  datatype Query = Query(
    security: Security,
    ask: Ask,
    analysisOk: bool,
    allowlistSatisfied: bool,
    durable: bool,
    decision: Decision,
    approved: bool,
    windowsCmdWrapper: bool,
    needsApproval: (Ask, Security, bool, bool, bool) -> bool)

  datatype Policy = Policy(
    allowed: bool,
    reason: Reason,
    analysisOk: bool,
    allowlistSatisfied: bool,
    wrapperBlocked: bool,
    requiresAsk: bool,
    decision: Decision,
    approvedByAsk: bool)

  function EvaluatePolicy(q: Query): Policy {
    var blocked := q.security.Allowlist? && q.windowsCmdWrapper;
    var analysisOk := if blocked then false else q.analysisOk;
    var satisfied := if blocked then false else q.allowlistSatisfied;
    var approvedByAsk := !q.decision.NoDecision? || q.approved;
    var requiresAsk := !q.security.Deny? && q.needsApproval(q.ask, q.security, analysisOk, satisfied, q.durable);
    var context := Policy(true, ApprovalRequired, analysisOk, satisfied, blocked, requiresAsk, q.decision, approvedByAsk);
    if q.security.Deny? then context.(allowed := false, reason := SecurityDeny)
    else if requiresAsk && !approvedByAsk then context.(allowed := false, reason := ApprovalRequired)
    else if q.security.Allowlist? && (!analysisOk || !satisfied) && !approvedByAsk && !q.durable then
      context.(allowed := false, reason := AllowlistMiss)
    else context
  }

  /** The rule that asks says yes; a wrapper under an allowlist counts as not analysed and not matched. */
  predicate HostAsks(q: Query) {
    var blocked := q.security.Allowlist? && q.windowsCmdWrapper;
    q.needsApproval(q.ask, q.security, q.analysisOk && !blocked, q.allowlistSatisfied && !blocked, q.durable)
  }

  predicate Approved(q: Query) {
    !q.decision.NoDecision? || q.approved
  }

  /** Nothing is allowed when security denies, and anything else once it is approved. */
  lemma ApprovedIff(q: Query)
    requires Approved(q)
    ensures EvaluatePolicy(q).allowed <==> !q.security.Deny?
    ensures EvaluatePolicy(q).approvedByAsk
  {
  }

  /** The decision as one condition: approved, or the rule does not ask and nothing is missing. */
  lemma AllowedIff(q: Query)
    ensures EvaluatePolicy(q).allowed <==>
      && !q.security.Deny?
      && (|| !q.decision.NoDecision? || q.approved
          || (&& !HostAsks(q)
              && (q.security.Allowlist? ==> q.durable || (q.analysisOk && q.allowlistSatisfied && !q.windowsCmdWrapper))))
    ensures EvaluatePolicy(q).requiresAsk <==> !q.security.Deny? && HostAsks(q)
    ensures EvaluatePolicy(q).approvedByAsk <==> Approved(q)
  {
  }

  /** Why a command is denied: security, or the rule that asks, or an allowlist it does not match. */
  lemma DeniedBecause(q: Query)
    requires !EvaluatePolicy(q).allowed
    ensures EvaluatePolicy(q).reason.SecurityDeny? <==> q.security.Deny?
    ensures EvaluatePolicy(q).reason.ApprovalRequired? <==> !q.security.Deny? && HostAsks(q)
    ensures EvaluatePolicy(q).reason.AllowlistMiss? <==> q.security.Allowlist? && !HostAsks(q)
    ensures !q.security.Deny? ==> !Approved(q)
  {
  }

  /** The less trusting of two levels: deny below allowlist below full. */
  lemma LeastIs(a: Security, b: Security)
    ensures Least(a, b) == a || Least(a, b) == b
    ensures Least(a, b).Deny? <==> a.Deny? || b.Deny?
    ensures Least(a, b).Full? <==> a.Full? && b.Full?
  {
  }

  /** An approval never turns an allowance into a denial. */
  lemma ApprovalOnlyHelps(q: Query, decision: Decision, approved: bool)
    requires EvaluatePolicy(q).allowed
    requires (!q.decision.NoDecision? ==> !decision.NoDecision?) && (q.approved ==> approved)
    ensures EvaluatePolicy(q.(decision := decision, approved := approved)).allowed
  {
  }

  /** Without an approval, a Windows shell wrapper under an allowlist passes only on a durable approval. */
  lemma WrapperNeedsApproval(q: Query)
    requires q.security.Allowlist? && q.windowsCmdWrapper && EvaluatePolicy(q).allowed
    ensures EvaluatePolicy(q).approvedByAsk || q.durable
    ensures !EvaluatePolicy(q).analysisOk && !EvaluatePolicy(q).allowlistSatisfied
  {
  }
}
