/** The admission decision: guards in order, then the budget check, then the mode. */
module Handler {
  import opened Wrappers
  import opened MachineInt
  import opened Timestamp
  import opened Quantity
  import opened Containers
  import opened Admission
  import opened AdmissionErrors
  import opened Crd
  import opened AllocationController

  datatype Operation = Create | Update | Delete | Connect

  datatype AdmissionRequest = AdmissionRequest(uid: string, namespace: Option<string>, operation: Operation,
                                               newPod: Option<Pod>, oldPod: Option<Pod>)

  datatype DecisionVerdict = Allow | Denied | DryRunDeny | Exempt | Error

  datatype ResourceFigures = ResourceFigures(inUse: I64, requested: I64, projected: I64, ceiling: I64,
                                             totalAllocatable: I64, over: bool)

  datatype DecisionSummary = DecisionSummary(
    verdict: DecisionVerdict,
    reason: string,
    budgetPercent: int,
    effectiveBudgets: Budgets,
    freshnessSeconds: int,
    latencyMs: int,
    enforcementMode: EnforcementMode,
    exemptionReason: Option<ExemptionReason>,
    cpu: ResourceFigures,
    memory: ResourceFigures)

  datatype DecisionOutcome = DecisionOutcome(response: AdmissionResponse, summary: DecisionSummary)

  // ---------- the effective request ----------

  function PodRequest(pod: Option<Pod>): Result<Figures, AdmissionError> {
    if pod.None? || pod.value.spec.None? then Ok(Figures(0, 0))
    else
      match PodRequests(pod.value.spec.value)
      case Ok(f) => Ok(f)
      case Err(e) => Err(QuantityParseFailure("resources.requests", e.input))
  }

  /** An UPDATE asks for the difference to the old object, anything else for the whole. */
  function EffectiveRequest(request: AdmissionRequest): Result<Figures, AdmissionError> {
    match PodRequest(request.newPod)
    case Err(e) => Err(e)
    case Ok(new_) =>
      if request.operation.Update? then
        match PodRequest(request.oldPod)
        case Err(e) => Err(e)
        case Ok(old_) => Ok(Figures(WrapI64(new_.cpu - old_.cpu), WrapI64(new_.memory - old_.memory)))
      else Ok(new_)
  }

  function PodPriorityClass(request: AdmissionRequest): Option<string> {
    if request.newPod.Some? && request.newPod.value.spec.Some?
    then request.newPod.value.spec.value.priorityClassName else None
  }

  // ---------- outcomes ----------

  function AllowResponse(request: AdmissionRequest): AdmissionResponse {
    AdmissionResponse(request.uid, true, None, None)
  }

  const NO_FIGURES := ResourceFigures(0, 0, 0, 0, 0, false)

  function RejectOutcome(error: AdmissionError, uid: string, mode: EnforcementMode): DecisionOutcome {
    DecisionOutcome(
      IntoResponse(error, uid),
      DecisionSummary(Error, Slug(error), -1, Budgets(-1, -1), -1, 0, mode, None, NO_FIGURES, NO_FIGURES))
  }

  function ExemptOutcome(request: AdmissionRequest, reason: ExemptionReason, mode: EnforcementMode): DecisionOutcome {
    DecisionOutcome(
      AllowResponse(request),
      DecisionSummary(Exempt, "", -1, Budgets(-1, -1), -1, 0, mode, Some(reason), NO_FIGURES, NO_FIGURES))
  }

  function FiguresWithin(r: ResourceType, inUse: Figures, requested: Figures, ceiling: Figures, total: Figures,
                         violations: seq<BudgetViolation>): ResourceFigures
  {
    ResourceFigures(inUse.Of(r), requested.Of(r), SaturatingAdd(inUse.Of(r), requested.Of(r)), ceiling.Of(r),
                    total.Of(r), exists v :: v in violations && v.resource == r)
  }

  function DecisionOf(verdict: DecisionVerdict, budgetPercent: int, status: AllocationStatus, freshness: int,
                      mode: EnforcementMode, request: Figures, total: Figures,
                      violations: seq<BudgetViolation>): DecisionSummary
  {
    DecisionSummary(verdict, "", budgetPercent, status.effectiveBudgets, freshness, 0, mode, None,
                    FiguresWithin(Cpu, status.inUse, request, status.ceiling, total, violations),
                    FiguresWithin(Memory, status.inUse, request, status.ceiling, total, violations))
  }

  const DRY_RUN_PREFIX := "Budget violations (dry-run): "

  function DryRunWarning(violations: seq<BudgetViolation>): string {
    DRY_RUN_PREFIX + Lines(violations)
  }

  // ---------- the decision ----------

  function Evaluate(request: AdmissionRequest, allocation: Option<Allocation>, capacity: Option<Figures>,
                    now: I64, thresholdSecs: nat, webhookNamespace: string): DecisionOutcome
  {
    if allocation.None? then
      RejectOutcome(CapacityDataMissing(AllocationMissing), request.uid, Enforce)
    else
      var spec := allocation.value.spec;
      var mode := ResolveEnforcementMode(spec.enforcementMode);
      if allocation.value.status.None? then
        RejectOutcome(CapacityDataMissing(AllocationMissing), request.uid, mode)
      else
        var exemption := CheckExemption(request.namespace, PodPriorityClass(request), spec, webhookNamespace);
        if exemption.Some? then
          ExemptOutcome(request, exemption.value, mode)
        else
          EvaluateFresh(request, spec, allocation.value.status.value, mode, capacity, now, thresholdSecs)
  }

  function EvaluateFresh(request: AdmissionRequest, spec: AllocationSpec, status: AllocationStatus,
                         mode: EnforcementMode, capacity: Option<Figures>, now: I64, thresholdSecs: nat)
    : DecisionOutcome
  {
    var freshness := AssessFreshness(status.lastUpdated, now, thresholdSecs);
    if freshness.stale then
      RejectOutcome(CapacityDataStale(freshness.ageSecs, thresholdSecs), request.uid, mode)
    else if capacity.None? then
      RejectOutcome(CapacityDataMissing(ClusterCapacityMissing), request.uid, mode)
    else
      var total := capacity.value;
      match EffectiveRequest(request)
      case Err(error) =>
        var rejected := RejectOutcome(error, request.uid, mode);
        rejected.(summary := rejected.summary.(
          freshnessSeconds := freshness.seconds,
          budgetPercent := spec.budgetPercent,
          cpu := NO_FIGURES.(totalAllocatable := total.cpu),
          memory := NO_FIGURES.(totalAllocatable := total.memory)))
      case Ok(effective) =>
        EvaluateBudget(request, spec, status, mode, effective, total, freshness.seconds)
  }

  function EvaluateBudget(request: AdmissionRequest, spec: AllocationSpec, status: AllocationStatus,
                          mode: EnforcementMode, effective: Figures, total: Figures, freshness: int)
    : DecisionOutcome
  {
    match Verdict(status.inUse, effective, status.ceiling)
    case Admit =>
      DecisionOutcome(AllowResponse(request),
                      DecisionOf(Allow, spec.budgetPercent, status, freshness, mode, effective, total, []))
    case Deny(violations) =>
      (match mode
       case DryRun =>
         DecisionOutcome(
           AllowResponse(request).(warnings := Some([DryRunWarning(violations)])),
           DecisionOf(DryRunDeny, spec.budgetPercent, status, freshness, mode, effective, total, violations))
       case Enforce =>
         DecisionOutcome(
           IntoResponse(OverBudget(violations), request.uid),
           DecisionOf(Denied, spec.budgetPercent, status, freshness, mode, effective, total, violations)))
  }

  /** The decision core without guards or modes. */
  function Decide(request: AdmissionRequest, status: AllocationStatus): Result<AdmissionResponse, AdmissionError> {
    match EffectiveRequest(request)
    case Err(e) => Err(e)
    case Ok(effective) =>
      match Verdict(status.inUse, effective, status.ceiling)
      case Admit => Ok(AllowResponse(request))
      case Deny(violations) => Err(OverBudget(violations))
  }

  // ---------- when a request is allowed ----------

  predicate IsExempt(request: AdmissionRequest, spec: AllocationSpec, webhookNamespace: string) {
    || request.namespace == Some(webhookNamespace)
    || (exists ns :: request.namespace == Some(ns) && ns in spec.excludedNamespaces.GetOr([]))
    || (exists pc :: PodPriorityClass(request) == Some(pc) && pc != "" && pc in spec.excludedPriorityClasses.GetOr([]))
  }

  /** The data behind a budget decision is there and recent. */
  predicate Informed(status: AllocationStatus, capacity: Option<Figures>, now: I64, thresholdSecs: nat) {
    capacity.Some? && !AssessFreshness(status.lastUpdated, now, thresholdSecs).stale
  }

  predicate WithinCeilings(request: AdmissionRequest, status: AllocationStatus) {
    EffectiveRequest(request).Ok? && Verdict(status.inUse, EffectiveRequest(request).value, status.ceiling).Admit?
  }

  lemma ExemptionIsUnion(request: AdmissionRequest, spec: AllocationSpec, webhookNamespace: string)
    ensures var reason := CheckExemption(request.namespace, PodPriorityClass(request), spec, webhookNamespace);
      && (reason.Some? <==> IsExempt(request, spec, webhookNamespace))
      && (reason == Some(WebhookNamespace) <==> request.namespace == Some(webhookNamespace))
      && (reason == Some(PriorityClassExcluded) ==>
            forall ns :: request.namespace == Some(ns) ==> ns !in spec.excludedNamespaces.GetOr([]))
  {
  }

  /** Which requests are exempt, and why, by what the request itself says: its namespace and the
      priority class of its new pod; an old pod has no say. Exempt requests are allowed whatever
      the figures. */
  lemma ExemptIff(request: AdmissionRequest, spec: AllocationSpec, status: AllocationStatus,
                  capacity: Option<Figures>, now: I64, thresholdSecs: nat, webhookNamespace: string)
    ensures
      var o := Evaluate(request, Some(Allocation(spec, Some(status))), capacity, now, thresholdSecs, webhookNamespace);
      var own := request.namespace == Some(webhookNamespace);
      var listed := request.namespace.Some? && spec.excludedNamespaces.Some?
                    && request.namespace.value in spec.excludedNamespaces.value;
      var ranked := request.newPod.Some? && request.newPod.value.spec.Some?
                    && request.newPod.value.spec.value.priorityClassName.Some?
                    && request.newPod.value.spec.value.priorityClassName.value != ""
                    && spec.excludedPriorityClasses.Some?
                    && request.newPod.value.spec.value.priorityClassName.value in spec.excludedPriorityClasses.value;
      && (o.summary.verdict == Exempt <==> own || listed || ranked)
      && (o.summary.verdict == Exempt ==>
            && o.response == AdmissionResponse(request.uid, true, None, None)
            && o.summary.exemptionReason ==
                 Some(if own then WebhookNamespace else if listed then NamespaceExcluded else PriorityClassExcluded))
      && (o.summary.verdict != Exempt ==> o.summary.exemptionReason == None)
  {
    hide AssessFreshness, EffectiveRequest, Verdict, Message, Lines, FiguresWithin;
  }

  /** What a request asks for, by its pods: the new pod's figures, less the old pod's on an UPDATE
      only; unreadable exactly when a pod that matters is. */
  lemma EffectiveRequestMeaning(request: AdmissionRequest)
    ensures EffectiveRequest(request).Ok?
       <==> Readable(request.newPod) && (request.operation == Update ==> Readable(request.oldPod))
    ensures EffectiveRequest(request).Ok? ==>
      forall r: ResourceType ::
        EffectiveRequest(request).value.Of(r)
          == AskedBy(request.newPod, r) - (if request.operation == Update then AskedBy(request.oldPod, r) else 0)
  {
    hide PodRequests;
    if request.operation == Update && EffectiveRequest(request).Ok? {
      EffectiveRequestNeverWraps(request);
    }
  }

  predicate Readable(pod: Option<Pod>) {
    pod.Some? && pod.value.spec.Some? ==> PodRequests(pod.value.spec.value).Ok?
  }

  function AskedBy(pod: Option<Pod>, r: ResourceType): int
    requires Readable(pod)
  {
    if pod.Some? && pod.value.spec.Some? then PodRequests(pod.value.spec.value).value.Of(r) else 0
  }

  /** Without a cached status nothing is allowed, and the answer says what is missing. */
  lemma NoStatusRejects(request: AdmissionRequest, allocation: Option<Allocation>, capacity: Option<Figures>,
                        now: I64, thresholdSecs: nat, webhookNamespace: string)
    requires allocation.Some? ==> allocation.value.status.None?
    ensures
      var o := Evaluate(request, allocation, capacity, now, thresholdSecs, webhookNamespace);
      && o.response == IntoResponse(CapacityDataMissing(AllocationMissing), request.uid)
      && GivesReason(o, "CapacityDataMissing") && o.response.result.value.code == 500
  {
    hide Message;
  }

  /** For every request and every cache state: allowed exactly when a status is cached and the
      request is exempt, or the data is there and recent, the request parses, and it is within
      budget or the mode is dry-run. */
  lemma AllowedIff(request: AdmissionRequest, allocation: Option<Allocation>, capacity: Option<Figures>,
                   now: I64, thresholdSecs: nat, webhookNamespace: string)
    ensures Evaluate(request, allocation, capacity, now, thresholdSecs, webhookNamespace).response.allowed == (
      && allocation.Some? && allocation.value.status.Some?
      && var spec, status := allocation.value.spec, allocation.value.status.value;
        || IsExempt(request, spec, webhookNamespace)
        || (&& Informed(status, capacity, now, thresholdSecs)
            && EffectiveRequest(request).Ok?
            && (WithinCeilings(request, status) || spec.enforcementMode == Some(DryRun))))
  {
    hide AssessFreshness, EffectiveRequest, Verdict, CheckExemption, IsExempt, Message, PodPriorityClass, Lines;
    if allocation.Some? {
      ExemptionIsUnion(request, allocation.value.spec, webhookNamespace);
    }
  }

  /** Switching from enforce to dry-run changes budget denials and nothing else: every other
      response is the same, and a denial becomes an admission that carries the enforce message
      behind the prefix. */
  lemma DryRunConvertsOnlyBudgetDenials(request: AdmissionRequest, spec: AllocationSpec,
                                        status: Option<AllocationStatus>, capacity: Option<Figures>,
                                        now: I64, thresholdSecs: nat, webhookNamespace: string)
    ensures
      var enforced := Evaluate(request, Some(Allocation(spec.(enforcementMode := Some(Enforce)), status)),
                               capacity, now, thresholdSecs, webhookNamespace);
      var dry := Evaluate(request, Some(Allocation(spec.(enforcementMode := Some(DryRun)), status)),
                          capacity, now, thresholdSecs, webhookNamespace);
      && (enforced.summary.verdict != Denied ==>
            dry == enforced.(summary := enforced.summary.(enforcementMode := DryRun)))
      && (enforced.summary.verdict == Denied ==>
            && !enforced.response.allowed && enforced.response.result.Some?
            && enforced.response.result.value.code == 403
            && dry.response == AdmissionResponse(request.uid, true,
                 Some(["Budget violations (dry-run): " + enforced.response.result.value.message]), None)
            && dry.summary == enforced.summary.(verdict := DryRunDeny, enforcementMode := DryRun))
  {
    hide AssessFreshness, EffectiveRequest, Verdict, Lines, PodPriorityClass, FiguresWithin;
  }

  /** Behind the guards, in enforce mode, the full decision is the plain one. */
  lemma AgreesWithDecide(request: AdmissionRequest, spec: AllocationSpec, status: AllocationStatus,
                         capacity: Option<Figures>, now: I64, thresholdSecs: nat, webhookNamespace: string)
    requires ResolveEnforcementMode(spec.enforcementMode) == Enforce
    ensures
      var o := Evaluate(request, Some(Allocation(spec, Some(status))), capacity, now, thresholdSecs, webhookNamespace);
      Informed(status, capacity, now, thresholdSecs) && !IsExempt(request, spec, webhookNamespace) ==>
        o.response == match Decide(request, status)
                      case Ok(response) => response
                      case Err(error) => IntoResponse(error, request.uid)
  {
    hide AssessFreshness, EffectiveRequest, Verdict, CheckExemption, IsExempt, Message, PodPriorityClass;
    ExemptionIsUnion(request, spec, webhookNamespace);
  }

  /** Fail closed: whatever is rejected says why, with a client error for a malformed pod, 403
      for a budget denial and 500 otherwise; nothing allowed carries a failure. */
  lemma RejectionsAreExplained(request: AdmissionRequest, allocation: Option<Allocation>, capacity: Option<Figures>,
                               now: I64, thresholdSecs: nat, webhookNamespace: string)
    ensures
      var o := Evaluate(request, allocation, capacity, now, thresholdSecs, webhookNamespace);
      && o.response.uid == request.uid
      && (o.response.allowed <==> o.response.result.None?)
      && (o.response.allowed <==> o.summary.verdict in {Allow, DryRunDeny, Exempt})
      && (o.summary.verdict == Denied <==> o.response.result.Some? && o.response.result.value.code == 403)
      && (o.summary.verdict == Error ==> o.response.result.value.code in {400, 500})
      && (o.response.warnings.Some? <==> o.summary.verdict == DryRunDeny)
  {
    hide AssessFreshness, Verdict, CheckExemption, Message, PodPriorityClass, PodRequests, FiguresWithin, Lines;
  }

  /** Which reason a rejection gives: the guards in order, each only when those before it let
      the request through. */
  lemma RejectionReasons(request: AdmissionRequest, spec: AllocationSpec, status: AllocationStatus,
                         capacity: Option<Figures>, now: I64, thresholdSecs: nat, webhookNamespace: string)
    ensures
      var o := Evaluate(request, Some(Allocation(spec, Some(status))), capacity, now, thresholdSecs, webhookNamespace);
      var subject := !IsExempt(request, spec, webhookNamespace);
      var stale := AssessFreshness(status.lastUpdated, now, thresholdSecs).stale;
      && (GivesReason(o, "CapacityDataStale") <==> subject && stale)
      && (GivesReason(o, "CapacityDataMissing") <==> subject && !stale && capacity.None?)
      && (GivesReason(o, "QuantityParseFailure") <==>
            subject && Informed(status, capacity, now, thresholdSecs) && EffectiveRequest(request).Err?)
      && (GivesReason(o, "OverBudget") <==>
            subject && Informed(status, capacity, now, thresholdSecs) && EffectiveRequest(request).Ok?
            && !WithinCeilings(request, status) && spec.enforcementMode != Some(DryRun))
  {
    hide AssessFreshness, Verdict, CheckExemption, IsExempt, PodPriorityClass, PodRequests;
    hide Message, Lines, FiguresWithin;
    ExemptionIsUnion(request, spec, webhookNamespace);
  }

  /** Which requests the budget decides: those with a status to judge them by, not exempt, informed
      and readable. */
  predicate Judgeable(request: AdmissionRequest, allocation: Option<Allocation>, capacity: Option<Figures>,
                      now: I64, thresholdSecs: nat, webhookNamespace: string)
  {
    && allocation.Some? && allocation.value.status.Some?
    && !IsExempt(request, allocation.value.spec, webhookNamespace)
    && Informed(allocation.value.status.value, capacity, now, thresholdSecs)
    && EffectiveRequest(request).Ok?
  }

  lemma BudgetDecides(request: AdmissionRequest, allocation: Option<Allocation>, capacity: Option<Figures>,
                      now: I64, thresholdSecs: nat, webhookNamespace: string)
    ensures
      var o := Evaluate(request, allocation, capacity, now, thresholdSecs, webhookNamespace);
      var decided := o.summary.verdict in {Allow, Denied, DryRunDeny};
      decided <==> Judgeable(request, allocation, capacity, now, thresholdSecs, webhookNamespace)
  {
    hide AssessFreshness, EffectiveRequest, Verdict, CheckExemption, IsExempt, PodPriorityClass;
    hide Message, Lines, FiguresWithin;
    if allocation.Some? {
      ExemptionIsUnion(request, allocation.value.spec, webhookNamespace);
    }
  }

  /** What a rejection by a guard carries: the cause as the response, its slug, the mode in force,
      and figures only where they were known. */
  lemma RejectionsShowCause(request: AdmissionRequest, spec: AllocationSpec, status: AllocationStatus,
                            capacity: Option<Figures>, now: I64, thresholdSecs: nat, webhookNamespace: string)
    ensures
      var o := Evaluate(request, Some(Allocation(spec, Some(status))), capacity, now, thresholdSecs, webhookNamespace);
      var f, s := AssessFreshness(status.lastUpdated, now, thresholdSecs), o.summary;
      && s.enforcementMode == (if spec.enforcementMode == Some(DryRun) then DryRun else Enforce)
      && (s.verdict == Error && f.stale ==>
            CarriesCause(o, request.uid, CapacityDataStale(f.ageSecs, thresholdSecs)) && s.freshnessSeconds == -1)
      && (s.verdict == Error && !f.stale && capacity.None? ==>
            CarriesCause(o, request.uid, CapacityDataMissing(ClusterCapacityMissing)) && s.freshnessSeconds == -1)
      && (s.verdict == Error && !f.stale && capacity.Some? ==>
            && EffectiveRequest(request).Err? && CarriesCause(o, request.uid, EffectiveRequest(request).error)
            && s.freshnessSeconds == f.seconds && s.budgetPercent == spec.budgetPercent
            && s.cpu == NO_FIGURES.(totalAllocatable := capacity.value.cpu)
            && s.memory == NO_FIGURES.(totalAllocatable := capacity.value.memory))
      && (s.verdict != Error ==> s.reason == "")
  {
    hide AssessFreshness, EffectiveRequest, Verdict, CheckExemption, PodPriorityClass;
    hide Message, Lines, FiguresWithin, Slug, StatusCode, Reason;
  }

  predicate CarriesCause(o: DecisionOutcome, uid: string, error: AdmissionError) {
    o.response == IntoResponse(error, uid) && o.summary.reason == Slug(error)
  }

  /** An unreadable pod is named by its offending text, the new pod's before the old one's. */
  lemma UnreadableCause(request: AdmissionRequest)
    requires EffectiveRequest(request).Err?
    ensures var pod := if Readable(request.newPod) then request.oldPod else request.newPod;
      && !Readable(pod) && pod.Some? && pod.value.spec.Some? && PodRequests(pod.value.spec.value).Err?
      && EffectiveRequest(request).error
           == QuantityParseFailure("resources.requests", PodRequests(pod.value.spec.value).error.input)
  {
    hide PodRequests;
  }

  predicate GivesReason(o: DecisionOutcome, reason: string) {
    o.response.result.Some? && o.response.result.value.reason == reason
  }

  /** The summary of a budget decision carries the figures it was decided on, and marks exactly
      the resources that do not pass. */
  lemma SummaryShowsFigures(request: AdmissionRequest, spec: AllocationSpec, status: AllocationStatus,
                            capacity: Option<Figures>, now: I64, thresholdSecs: nat, webhookNamespace: string)
    ensures
      var o := Evaluate(request, Some(Allocation(spec, Some(status))), capacity, now, thresholdSecs, webhookNamespace);
      o.summary.verdict in {Allow, Denied, DryRunDeny} ==>
        && capacity.Some? && EffectiveRequest(request).Ok?
        && Shows(o.summary.cpu, Cpu, status, EffectiveRequest(request).value, capacity.value)
        && Shows(o.summary.memory, Memory, status, EffectiveRequest(request).value, capacity.value)
        && o.summary.effectiveBudgets == status.effectiveBudgets && o.summary.budgetPercent == spec.budgetPercent
        && o.summary.freshnessSeconds == AssessFreshness(status.lastUpdated, now, thresholdSecs).seconds
  {
    hide AssessFreshness, CheckExemption, PodPriorityClass, EffectiveRequest, Verdict;
    hide Message, Lines, Shows, FiguresWithin;
    if EffectiveRequest(request).Ok? && capacity.Some? {
      var effective := EffectiveRequest(request).value;
      FiguresShow(Cpu, status, effective, capacity.value);
      FiguresShow(Memory, status, effective, capacity.value);
    }
  }

  predicate Shows(f: ResourceFigures, r: ResourceType, status: AllocationStatus, request: Figures, total: Figures) {
    && f.inUse == status.inUse.Of(r) && f.requested == request.Of(r)
    && f.projected == Clamp(status.inUse.Of(r) + request.Of(r), I64_MIN, I64_MAX) && f.ceiling == status.ceiling.Of(r)
    && f.totalAllocatable == total.Of(r)
    && (f.over <==> !Passes(r, status.inUse, request, status.ceiling))
  }

  lemma FiguresShow(r: ResourceType, status: AllocationStatus, request: Figures, total: Figures)
    ensures var v := Verdict(status.inUse, request, status.ceiling);
      var violations := if v.Deny? then v.violations else [];
      Shows(FiguresWithin(r, status.inUse, request, status.ceiling, total, violations), r, status, request, total)
  {
  }

  // ---------- from the raw figures to the answer ----------

  lemma EffectiveRequestNeverWraps(request: AdmissionRequest)
    requires request.operation.Update? && EffectiveRequest(request).Ok?
    ensures forall r: ResourceType ::
      EffectiveRequest(request).value.Of(r)
        == PodRequest(request.newPod).value.Of(r) - PodRequest(request.oldPod).value.Of(r)
  {
  }

  /** Against a status the controller wrote at `stamp` from non-negative supply, an enforced,
      non-exempt request is allowed exactly when the status is no older than the threshold, the
      supply is cached, the request parses, and both resources stay within the budget of the
      operator's spec. */
  lemma EnforcedEndToEnd(request: AdmissionRequest, spec: AllocationSpec, inUse: Figures, supply: Figures,
                         stamp: int, capacity: Option<Figures>, now: I64, thresholdSecs: nat,
                         webhookNamespace: string)
    requires supply.cpu >= 0 && supply.memory >= 0
    requires 0 <= stamp <= 253_402_300_799
    requires spec.enforcementMode != Some(DryRun) && !IsExempt(request, spec, webhookNamespace)
    ensures
      var budgets := ResolveEffectiveBudgets(spec);
      var status := BuildAllocationStatus(inUse, supply, budgets, Rfc3339FromUnix(stamp));
      Evaluate(request, Some(Allocation(spec, Some(status))), capacity, now, thresholdSecs,
               webhookNamespace).response.allowed == (
        && now - stamp <= thresholdSecs
        && capacity.Some?
        && EffectiveRequest(request).Ok?
        && StaysWithin(Cpu, inUse, supply, budgets, EffectiveRequest(request).value)
        && StaysWithin(Memory, inUse, supply, budgets, EffectiveRequest(request).value))
  {
    hide AssessFreshness, EffectiveRequest, Verdict, CheckExemption, IsExempt, Rfc3339FromUnix, Evaluate, CeilingSingle;
    var budgets := ResolveEffectiveBudgets(spec);
    var status := BuildAllocationStatus(inUse, supply, budgets, Rfc3339FromUnix(stamp));
    AllowedIff(request, Some(Allocation(spec, Some(status))), capacity, now, thresholdSecs, webhookNamespace);
    StampedFreshness(stamp, now, thresholdSecs);
    if EffectiveRequest(request).Ok? {
      EndToEnd(inUse, supply, budgets, Rfc3339FromUnix(stamp), EffectiveRequest(request).value);
    }
  }
}
