/** The counters and gauges, and the accounting that links them to the responses given. */
module Metrics {
  import opened Timestamp
  import opened Wrappers
  import opened MachineInt
  import opened Quantity
  import opened Admission
  import opened AdmissionErrors
  import opened Crd
  import opened AllocationController
  import opened Handler

  datatype VerdictLabel = AllowLabel | DenyLabel | DryRunDenyLabel | ErrorLabel

  datatype CapacityFigures = CapacityFigures(inUse: I64, ceiling: I64, totalAllocatable: I64, ratio: real)

  /** All series at one moment. */
  datatype Series = Series(
    verdicts: map<(ResourceType, VerdictLabel), nat>,
    exemptions: map<ExemptionReason, nat>,
    durations: nat,
    freshness: int,
    capacity: map<ResourceType, CapacityFigures>)

  const ALL_REASONS: set<ExemptionReason> := {NamespaceExcluded, PriorityClassExcluded, WebhookNamespace}

  const ALL_LABELS: set<(ResourceType, VerdictLabel)> :=
    {(Cpu, AllowLabel), (Cpu, DenyLabel), (Cpu, DryRunDenyLabel), (Cpu, ErrorLabel),
     (Memory, AllowLabel), (Memory, DenyLabel), (Memory, DryRunDenyLabel), (Memory, ErrorLabel)}

  const NO_CAPACITY := CapacityFigures(0, 0, 0, 0.0)

  const INITIAL_SERIES: Series := Series(
    map tag | tag in ALL_LABELS :: 0, map reason | reason in ALL_REASONS :: 0, 0, 0,
    map[Cpu := NO_CAPACITY, Memory := NO_CAPACITY])

  /** Every series exists from the start, so an increment always finds its counter. */
  predicate Complete(s: Series) {
    s.verdicts.Keys == ALL_LABELS && s.exemptions.Keys == ALL_REASONS && s.capacity.Keys == {Cpu, Memory}
  }

  lemma EveryLabelKnown(r: ResourceType, tag: VerdictLabel, reason: ExemptionReason)
    ensures (r, tag) in ALL_LABELS && reason in ALL_REASONS
  {
  }

  // ---------- one decision, as a change of the series ----------

  function ToCapacityFigures(f: ResourceFigures): CapacityFigures {
    CapacityFigures(f.inUse, f.ceiling, f.totalAllocatable, Ratio(f.inUse, f.ceiling))
  }

  function LabelOf(verdict: DecisionVerdict, figures: ResourceFigures): VerdictLabel {
    match verdict
    case Error => ErrorLabel
    case DryRunDeny => DryRunDenyLabel
    case _ => if figures.over then DenyLabel else AllowLabel
  }

  function BumpVerdict(s: Series, r: ResourceType, tag: VerdictLabel): (s': Series)
    requires Complete(s)
    ensures Complete(s') && s'.exemptions == s.exemptions
  {
    EveryLabelKnown(r, tag, WebhookNamespace);
    s.(verdicts := s.verdicts[(r, tag) := s.verdicts[(r, tag)] + 1])
  }

  function BumpExemption(s: Series, reason: ExemptionReason): (s': Series)
    requires Complete(s)
    ensures Complete(s')
  {
    EveryLabelKnown(Cpu, AllowLabel, reason);
    s.(exemptions := s.exemptions[reason := s.exemptions[reason] + 1])
  }

  function Recorded(s: Series, d: DecisionSummary): (s': Series)
    requires Complete(s)
    ensures Complete(s')
  {
    if d.verdict == Exempt then
      var counted := if d.exemptionReason.Some? then BumpExemption(s, d.exemptionReason.value) else s;
      counted.(durations := counted.durations + 1)
    else
      var cpu := BumpVerdict(s, Cpu, LabelOf(d.verdict, d.cpu));
      var both := BumpVerdict(cpu, Memory, LabelOf(d.verdict, d.memory));
      both.(durations := both.durations + 1,
            freshness := if d.freshnessSeconds >= 0 then d.freshnessSeconds else both.freshness,
            capacity := if d.verdict == Error then both.capacity
                        else map[Cpu := ToCapacityFigures(d.cpu), Memory := ToCapacityFigures(d.memory)])
  }

  class Registry {
    var verdicts: map<(ResourceType, VerdictLabel), nat>
    var exemptions: map<ExemptionReason, nat>
    var durations: nat
    var freshness: int
    var capacity: map<ResourceType, CapacityFigures>
    ghost var history: seq<Event>  // everything handled so far

    ghost function Contents(): Series
      reads this
    {
      Series(verdicts, exemptions, durations, freshness, capacity)
    }

    ghost predicate Valid()
      reads this
    {
      Complete(Contents())
    }

    /** The series are those the history leads to. */
    ghost predicate Accounted()
      reads this
    {
      Valid() && Contents() == Run(history)
    }

    constructor ()
      ensures Accounted() && history == []
    {
      verdicts := INITIAL_SERIES.verdicts;
      exemptions := INITIAL_SERIES.exemptions;
      durations, freshness := 0, 0;
      capacity := INITIAL_SERIES.capacity;
      history := [];
    }

    method RecordVerdict(r: ResourceType, tag: VerdictLabel)
      requires Valid()
      modifies this`verdicts
      ensures Valid() && Contents() == BumpVerdict(old(Contents()), r, tag)
    {
      EveryLabelKnown(r, tag, WebhookNamespace);
      verdicts := verdicts[(r, tag) := verdicts[(r, tag)] + 1];
    }

    method RecordExemption(reason: ExemptionReason)
      requires Valid()
      modifies this`exemptions
      ensures Valid() && Contents() == BumpExemption(old(Contents()), reason)
    {
      EveryLabelKnown(Cpu, AllowLabel, reason);
      exemptions := exemptions[reason := exemptions[reason] + 1];
    }

    method ObserveDuration()
      modifies this`durations
      ensures durations == old(durations) + 1
    {
      durations := durations + 1;
    }

    method SetFreshness(seconds: int)
      modifies this`freshness
      ensures freshness == seconds
    {
      freshness := seconds;
    }

    method RefreshCapacity(cpu: CapacityFigures, memory: CapacityFigures)
      requires capacity.Keys == {Cpu, Memory}
      modifies this`capacity
      ensures capacity == map[Cpu := cpu, Memory := memory]
    {
      capacity := capacity[Cpu := cpu];
      capacity := capacity[Memory := memory];
    }

    /** The metrics side of one decision. */
    method RecordMetrics(d: DecisionSummary)
      requires Valid()
      modifies this`verdicts, this`exemptions, this`durations, this`freshness, this`capacity
      ensures Valid() && Contents() == Recorded(old(Contents()), d)
    {
      hide BumpVerdict, BumpExemption;
      if d.verdict == Exempt {
        if d.exemptionReason.Some? {
          RecordExemption(d.exemptionReason.value);
        }
        ObserveDuration();
        return;
      }
      RecordVerdict(Cpu, LabelOf(d.verdict, d.cpu));
      RecordVerdict(Memory, LabelOf(d.verdict, d.memory));
      ObserveDuration();
      if d.freshnessSeconds >= 0 {
        SetFreshness(d.freshnessSeconds);
      }
      if d.verdict != Error {
        RefreshCapacity(ToCapacityFigures(d.cpu), ToCapacityFigures(d.memory));
      }
    }

    /** The background refresh: gauges straight from the cached status, nothing without one. */
    method RefreshGauges(allocation: Option<Allocation>, supply: Option<Figures>, now: I64)
      requires Accounted()
      modifies this
      ensures Accounted() && history == old(history) + [Refreshed(allocation, supply, now)]
    {
      hide Refresh, Recorded, OutcomeOf;
      ghost var next := Refresh(Contents(), allocation, supply, now);
      RefreshMeaning(Contents(), allocation, supply, now);
      if allocation.Some? && allocation.value.status.Some? {
        var status := allocation.value.status.value;
        var total := supply.GetOr(Figures(0, 0));
        SetFreshness(Max(AssessFreshness(status.lastUpdated, now, 0).seconds, 0));
        RefreshCapacity(Gauge(status, total, Cpu), Gauge(status, total, Memory));
      }
      history := history + [Refreshed(allocation, supply, now)];
      assert history[..|history| - 1] == old(history);
      assert Contents() == next;
    }

    /** One request from body to response, whatever the input. After it the series account for
        the whole history, and the books balance. */
    method Handle(input: Input, latencyMs: int) returns (response: AdmissionResponse)
      requires Accounted()
      modifies this
      ensures Accounted() && history == old(history) + [Handled(input, latencyMs)]
      ensures response == OutcomeOf(input).response
      ensures Balanced(Contents(), Decisions(history), Rejections(history), Warnings(history))
    {
      hide OutcomeOf, Recorded, Balanced;
      var outcome := OutcomeOf(input);
      outcome := outcome.(summary := outcome.summary.(latencyMs := latencyMs));
      RecordMetrics(outcome.summary);
      response := outcome.response;
      history := history + [Handled(input, latencyMs)];
      assert history[..|history| - 1] == old(history);
      RunsBalance(history);
    }
  }

  // ---------- everything that can reach the handler ----------

  /** A request is evaluated, or one of the guards around the evaluation strikes. */
  datatype Input =
    | Evaluated(request: AdmissionRequest, allocation: Option<Allocation>, supply: Option<Figures>,
                now: I64, thresholdSecs: nat, webhookNamespace: string)
    | Malformed(uid: string, detail: string)
    | TimedOut(uid: string, timeoutMs: nat)
    | Panicked(uid: string)

  function OutcomeOf(input: Input): DecisionOutcome {
    match input
    case Evaluated(request, allocation, supply, now, thresholdSecs, webhookNamespace) =>
      Evaluate(request, allocation, supply, now, thresholdSecs, webhookNamespace)
    case Malformed(uid, detail) => RejectOutcome(DeserialisationFailure(detail), uid, Enforce)
    case TimedOut(uid, ms) => RejectOutcome(Timeout(ms), uid, Enforce)
    case Panicked(uid) => RejectOutcome(InternalError, uid, Enforce)
  }

  /** What every outcome has in common, whatever produced it. */
  predicate Consistent(o: DecisionOutcome) {
    && (!o.response.allowed <==> o.summary.verdict == Denied || o.summary.verdict == Error)
    && (o.summary.verdict == Denied ==> o.summary.cpu.over || o.summary.memory.over)
    && (o.summary.verdict == Allow ==> !o.summary.cpu.over && !o.summary.memory.over)
    && (o.summary.verdict == Exempt ==> o.summary.exemptionReason.Some?)
    && (o.response.warnings.Some? <==> o.summary.verdict == DryRunDeny)
  }

  /** What the guards around the evaluation answer: fail closed, to the request that was asked. */
  lemma GuardsReject(uid: string, detail: string, timeoutMs: nat)
    ensures OutcomeOf(Malformed(uid, detail)).response == IntoResponse(DeserialisationFailure(detail), uid)
    ensures OutcomeOf(TimedOut(uid, timeoutMs)).response == IntoResponse(Timeout(timeoutMs), uid)
    ensures OutcomeOf(Panicked(uid)).response == IntoResponse(InternalError, uid)
    ensures forall input: Input :: !input.Evaluated? ==>
      OutcomeOf(input).summary.verdict == Error && OutcomeOf(input).summary.enforcementMode == Enforce
  {
    hide Message;
  }

  lemma OutcomesConsistent(input: Input)
    ensures Consistent(OutcomeOf(input))
  {
    if input.Evaluated? {
      var Evaluated(request, allocation, supply, now, thresholdSecs, webhookNamespace) := input;
      if allocation.Some? && allocation.value.status.Some? {
        var mode := ResolveEnforcementMode(allocation.value.spec.enforcementMode);
        FreshConsistent(request, allocation.value.spec, allocation.value.status.value, mode, supply, now,
                        thresholdSecs);
      }
      hide EvaluateFresh, CheckExemption, PodPriorityClass, Message;
    }
  }

  lemma FreshConsistent(request: AdmissionRequest, spec: AllocationSpec, status: AllocationStatus,
                        mode: EnforcementMode, supply: Option<Figures>, now: I64, thresholdSecs: nat)
    ensures Consistent(EvaluateFresh(request, spec, status, mode, supply, now, thresholdSecs))
  {
    hide AssessFreshness, EffectiveRequest, EvaluateBudget, Message;
    if supply.Some? && EffectiveRequest(request).Ok? {
      BudgetConsistent(request, spec, status, mode, EffectiveRequest(request).value, supply.value,
                       AssessFreshness(status.lastUpdated, now, thresholdSecs).seconds);
    }
  }

  /** A budget denial marks at least one resource as over, an admission marks none. */
  lemma BudgetConsistent(request: AdmissionRequest, spec: AllocationSpec, status: AllocationStatus,
                         mode: EnforcementMode, effective: Figures, total: Figures, freshness: int)
    ensures Consistent(EvaluateBudget(request, spec, status, mode, effective, total, freshness))
  {
    hide Message, DryRunWarning;
    var verdict := Verdict(status.inUse, effective, status.ceiling);
    if verdict.Deny? {
      assert verdict.violations[0] in verdict.violations;
      assert verdict.violations[0].resource == Cpu || verdict.violations[0].resource == Memory;
    }
  }

  // ---------- totals over a run ----------

  /** A decision, or a tick of the background refresh. */
  datatype Event =
    | Handled(input: Input, latencyMs: int)
    | Refreshed(allocation: Option<Allocation>, supply: Option<Figures>, now: I64)

  function Gauge(status: AllocationStatus, supply: Figures, r: ResourceType): CapacityFigures {
    CapacityFigures(status.inUse.Of(r), status.ceiling.Of(r), supply.Of(r),
                    Ratio(status.inUse.Of(r), status.ceiling.Of(r)))
  }

  function Refresh(s: Series, allocation: Option<Allocation>, supply: Option<Figures>, now: I64): (s': Series)
    requires Complete(s)
    ensures Complete(s')
  {
    if allocation.None? || allocation.value.status.None? then s
    else
      var status, total := allocation.value.status.value, supply.GetOr(Figures(0, 0));
      s.(freshness := Max(AssessFreshness(status.lastUpdated, now, 0).seconds, 0),
         capacity := map[Cpu := Gauge(status, total, Cpu), Memory := Gauge(status, total, Memory)])
  }

  lemma RefreshMeaning(s: Series, allocation: Option<Allocation>, supply: Option<Figures>, now: I64)
    requires Complete(s)
    ensures var s' := Refresh(s, allocation, supply, now);
      && s'.verdicts == s.verdicts && s'.exemptions == s.exemptions && s'.durations == s.durations
      && (allocation.None? || allocation.value.status.None? ==> s' == s)
      && (allocation.Some? && allocation.value.status.Some? ==>
            var status, total := allocation.value.status.value, supply.GetOr(Figures(0, 0));
            && s'.capacity == map[Cpu := Gauge(status, total, Cpu), Memory := Gauge(status, total, Memory)]
            && s'.freshness == Max(AssessFreshness(status.lastUpdated, now, 0).seconds, 0))
  {
  }

  function Next(s: Series, event: Event): (s': Series)
    requires Complete(s)
    ensures Complete(s')
  {
    match event
    case Handled(input, latencyMs) => Recorded(s, OutcomeOf(input).summary.(latencyMs := latencyMs))
    case Refreshed(allocation, supply, now) => Refresh(s, allocation, supply, now)
  }

  function Run(events: seq<Event>): (s: Series)
    ensures Complete(s)
  {
    if events == [] then INITIAL_SERIES else Next(Run(events[..|events| - 1]), events[|events| - 1])
  }

  function Count(s: Series, r: ResourceType, tag: VerdictLabel): nat
    requires Complete(s)
  {
    EveryLabelKnown(r, tag, WebhookNamespace);
    s.verdicts[(r, tag)]
  }

  function VerdictTotal(s: Series, r: ResourceType): nat
    requires Complete(s)
  {
    Count(s, r, AllowLabel) + Count(s, r, DenyLabel) + Count(s, r, DryRunDenyLabel) + Count(s, r, ErrorLabel)
  }

  function ExemptionTotal(s: Series): nat
    requires Complete(s)
  {
    s.exemptions[NamespaceExcluded] + s.exemptions[PriorityClassExcluded] + s.exemptions[WebhookNamespace]
  }

  function Decisions(events: seq<Event>): nat {
    if events == [] then 0
    else Decisions(events[..|events| - 1]) + (if events[|events| - 1].Handled? then 1 else 0)
  }

  predicate Rejects(event: Event) {
    event.Handled? && !OutcomeOf(event.input).response.allowed
  }

  predicate Warns(event: Event) {
    event.Handled? && OutcomeOf(event.input).response.warnings.Some?
  }

  function Rejections(events: seq<Event>): nat {
    if events == [] then 0
    else Rejections(events[..|events| - 1]) + (if Rejects(events[|events| - 1]) then 1 else 0)
  }

  function Warnings(events: seq<Event>): nat {
    if events == [] then 0
    else Warnings(events[..|events| - 1]) + (if Warns(events[|events| - 1]) then 1 else 0)
  }

  /** The counters balance, and they bound the number of rejections from both sides. */
  predicate Balanced(s: Series, handled: nat, rejected: nat, warned: nat)
    requires Complete(s)
  {
    && s.durations == handled == VerdictTotal(s, Cpu) + ExemptionTotal(s)
    && VerdictTotal(s, Cpu) == VerdictTotal(s, Memory)
    && Count(s, Cpu, ErrorLabel) == Count(s, Memory, ErrorLabel)
    && Count(s, Cpu, DryRunDenyLabel) == Count(s, Memory, DryRunDenyLabel) == warned
    && Count(s, Cpu, ErrorLabel) + Max(Count(s, Cpu, DenyLabel), Count(s, Memory, DenyLabel)) <= rejected
    && rejected <= Count(s, Cpu, ErrorLabel) + Count(s, Cpu, DenyLabel) + Count(s, Memory, DenyLabel)
  }

  lemma RecordingKeepsBalance(s: Series, o: DecisionOutcome, latencyMs: int, handled: nat, rejected: nat,
                             warned: nat)
    requires Complete(s) && Balanced(s, handled, rejected, warned) && Consistent(o)
    ensures Balanced(Recorded(s, o.summary.(latencyMs := latencyMs)), handled + 1,
                     rejected + (if o.response.allowed then 0 else 1),
                     warned + (if o.response.warnings.Some? then 1 else 0))
  {
    var d := o.summary;
    if d.verdict == Exempt {
      BumpedExemption(s, d.exemptionReason.value);
    } else {
      var cpu := BumpVerdict(s, Cpu, LabelOf(d.verdict, d.cpu));
      BumpedVerdict(s, Cpu, LabelOf(d.verdict, d.cpu));
      BumpedVerdict(cpu, Memory, LabelOf(d.verdict, d.memory));
      hide BumpVerdict;
      RecordedCounts(s, d.(latencyMs := latencyMs));
      hide Count, Recorded;
    }
  }

  lemma RecordedCounts(s: Series, d: DecisionSummary)
    requires Complete(s) && d.verdict != Exempt
    ensures var cpu := BumpVerdict(s, Cpu, LabelOf(d.verdict, d.cpu));
      var both := BumpVerdict(cpu, Memory, LabelOf(d.verdict, d.memory));
      && Recorded(s, d).durations == s.durations + 1
      && ExemptionTotal(Recorded(s, d)) == ExemptionTotal(s)
      && forall r, tag :: Count(Recorded(s, d), r, tag) == Count(both, r, tag)
  {
  }

  lemma BumpedVerdict(s: Series, r: ResourceType, tag: VerdictLabel)
    requires Complete(s)
    ensures Complete(BumpVerdict(s, r, tag))
    ensures forall r', tag' ::
      Count(BumpVerdict(s, r, tag), r', tag')
        == Count(s, r', tag') + (if r == r' && tag == tag' then 1 else 0)
  {
  }

  lemma BumpedExemption(s: Series, reason: ExemptionReason)
    requires Complete(s)
    ensures ExemptionTotal(BumpExemption(s, reason)) == ExemptionTotal(s) + 1
  {
  }

  lemma EventKeepsBalance(s: Series, event: Event, handled: nat, rejected: nat, warned: nat)
    requires Complete(s) && Balanced(s, handled, rejected, warned)
    ensures Balanced(Next(s, event), handled + (if event.Handled? then 1 else 0),
                     rejected + (if Rejects(event) then 1 else 0), warned + (if Warns(event) then 1 else 0))
  {
    match event
    case Handled(input, latencyMs) =>
      hide OutcomeOf, Recorded, Balanced, Consistent;
      OutcomesConsistent(input);
      RecordingKeepsBalance(s, OutcomeOf(input), latencyMs, handled, rejected, warned);
    case Refreshed(allocation, supply, now) =>
      RefreshMeaning(s, allocation, supply, now);
      hide Refresh;
  }

  /** Over any run, whatever the requests, whichever guards strike and however often the gauges
      are refreshed: every decision is timed once and counted once per resource or once as
      exempt, and the verdict counters bracket the rejections and count the warnings. */
  lemma {:induction false} RunsBalance(events: seq<Event>)
    ensures Balanced(Run(events), Decisions(events), Rejections(events), Warnings(events))
  {
    hide Next, Balanced, Rejects, Warns;
    if events == [] {
      InitiallyBalanced();
    } else {
      var front := events[..|events| - 1];
      RunsBalance(front);
      EventKeepsBalance(Run(front), events[|events| - 1], Decisions(front), Rejections(front), Warnings(front));
    }
  }

  lemma InitiallyBalanced()
    ensures Balanced(INITIAL_SERIES, 0, 0, 0)
  {
  }

  /** Which verdict series of a resource an outcome belongs to, by its own figures for that
      resource: one series each for errors and for dry-run denials, and otherwise whether this
      resource is over. */
  predicate Labelled(o: DecisionOutcome, r: ResourceType, tag: VerdictLabel) {
    var over := match r case Cpu => o.summary.cpu.over case Memory => o.summary.memory.over;
    match tag
    case ErrorLabel => o.summary.verdict == Error
    case DryRunDenyLabel => o.summary.verdict == DryRunDeny
    case DenyLabel => o.summary.verdict in {Allow, Denied} && over
    case AllowLabel => o.summary.verdict in {Allow, Denied} && !over
  }

  function Tally(events: seq<Event>, r: ResourceType, tag: VerdictLabel): nat {
    if events == [] then 0
    else
      var last := events[|events| - 1];
      Tally(events[..|events| - 1], r, tag)
      + (if last.Handled? && Labelled(OutcomeOf(last.input), r, tag) then 1 else 0)
  }

  function ExemptTally(events: seq<Event>, reason: ExemptionReason): nat {
    if events == [] then 0
    else
      var last := events[|events| - 1];
      ExemptTally(events[..|events| - 1], reason)
      + (if last.Handled? && OutcomeOf(last.input).summary.exemptionReason == Some(reason) then 1 else 0)
  }

  /** Every counter counts what its labels say: over any run the series of a resource and a verdict
      stands at the number of outcomes that gave this resource this verdict, and the series of an
      exemption reason at the number of exemptions for that reason. */
  lemma {:induction false} CountersTally(events: seq<Event>, r: ResourceType, tag: VerdictLabel,
                                         reason: ExemptionReason)
    ensures Count(Run(events), r, tag) == Tally(events, r, tag)
    ensures (r, tag) in Run(events).verdicts && reason in Run(events).exemptions
    ensures Run(events).exemptions[reason] == ExemptTally(events, reason)
  {
    hide Next, Labelled, OutcomeOf;
    EveryLabelKnown(r, tag, reason);
    if events != [] {
      var front, last := events[..|events| - 1], events[|events| - 1];
      CountersTally(front, r, tag, reason);
      EventCounts(Run(front), last, r, tag, reason);
    }
  }

  lemma EventCounts(s: Series, event: Event, r: ResourceType, tag: VerdictLabel, reason: ExemptionReason)
    requires Complete(s)
    ensures Count(Next(s, event), r, tag)
         == Count(s, r, tag) + (if event.Handled? && Labelled(OutcomeOf(event.input), r, tag) then 1 else 0)
    ensures reason in s.exemptions && reason in Next(s, event).exemptions
    ensures Next(s, event).exemptions[reason] == s.exemptions[reason]
         + (if event.Handled? && OutcomeOf(event.input).summary.exemptionReason == Some(reason) then 1 else 0)
  {
    hide OutcomeOf, Recorded, Refresh;
    EveryLabelKnown(r, tag, reason);
    match event
    case Refreshed(allocation, supply, now) => RefreshMeaning(s, allocation, supply, now);
    case Handled(input, latencyMs) =>
      OutcomesConsistent(input);
      OnlyExemptHasReason(input);
      RecordedOnce(s, OutcomeOf(input), latencyMs, r, tag, reason);
  }

  lemma OnlyExemptHasReason(input: Input)
    ensures OutcomeOf(input).summary.exemptionReason.Some? ==> OutcomeOf(input).summary.verdict == Exempt
  {
    hide AssessFreshness, EffectiveRequest, Verdict, CheckExemption, PodPriorityClass, Message, FiguresWithin, Lines;
  }

  lemma RecordedOnce(s: Series, o: DecisionOutcome, latencyMs: int, r: ResourceType, tag: VerdictLabel,
                     reason: ExemptionReason)
    requires Complete(s) && Consistent(o)
    requires o.summary.exemptionReason.Some? ==> o.summary.verdict == Exempt
    ensures var s' := Recorded(s, o.summary.(latencyMs := latencyMs));
      && Count(s', r, tag) == Count(s, r, tag) + (if Labelled(o, r, tag) then 1 else 0)
      && reason in s.exemptions && reason in s'.exemptions
      && s'.exemptions[reason]
           == s.exemptions[reason] + (if o.summary.exemptionReason == Some(reason) then 1 else 0)
  {
    var d := o.summary.(latencyMs := latencyMs);
    EveryLabelKnown(r, tag, reason);
    if d.verdict != Exempt {
      var cpu := BumpVerdict(s, Cpu, LabelOf(d.verdict, d.cpu));
      BumpedVerdict(s, Cpu, LabelOf(d.verdict, d.cpu));
      BumpedVerdict(cpu, Memory, LabelOf(d.verdict, d.memory));
      RecordedCounts(s, d);
      RecordedExemptions(s, d);
      hide BumpVerdict, Recorded, Count;
    }
  }

  lemma RecordedExemptions(s: Series, d: DecisionSummary)
    requires Complete(s) && d.verdict != Exempt
    ensures Recorded(s, d).exemptions == s.exemptions
  {
  }

  /** After a budget decision the gauges show the figures of the status and the supply it was
      taken on, whatever happened before. */
  lemma GaugesFollowDecision(events: seq<Event>, request: AdmissionRequest, spec: AllocationSpec,
                             status: AllocationStatus, supply: Figures, now: I64, thresholdSecs: nat,
                             webhookNamespace: string, latencyMs: int)
    ensures
      var last := Handled(Evaluated(request, Some(Allocation(spec, Some(status))), Some(supply), now, thresholdSecs,
                                    webhookNamespace), latencyMs);
      OutcomeOf(last.input).summary.verdict in {Allow, Denied, DryRunDeny} ==>
        Run(events + [last]).capacity == map[Cpu := Gauge(status, supply, Cpu), Memory := Gauge(status, supply, Memory)]
  {
    hide Evaluate, Recorded, EffectiveRequest;
    SummaryShowsFigures(request, spec, status, Some(supply), now, thresholdSecs, webhookNamespace);
    var last := Handled(Evaluated(request, Some(Allocation(spec, Some(status))), Some(supply), now, thresholdSecs,
                                  webhookNamespace), latencyMs);
    assert (events + [last])[..|events|] == events;
    if OutcomeOf(last.input).summary.verdict in {Allow, Denied, DryRunDeny} {
      RecordedGauges(Run(events), OutcomeOf(last.input).summary.(latencyMs := latencyMs));
    }
  }

  /** After a refresh with a cached status they show that status and the cached supply, or no
      supply at all when none is cached; the counters do not move. */
  lemma GaugesFollowRefresh(events: seq<Event>, allocation: Option<Allocation>, supply: Option<Figures>, now: I64)
    ensures var before, after := Run(events), Run(events + [Refreshed(allocation, supply, now)]);
      && after.verdicts == before.verdicts && after.exemptions == before.exemptions
      && after.durations == before.durations
      && (allocation.Some? && allocation.value.status.Some? ==>
            var status, total := allocation.value.status.value, supply.GetOr(Figures(0, 0));
            after.capacity == map[Cpu := Gauge(status, total, Cpu), Memory := Gauge(status, total, Memory)])
      && (allocation.None? || allocation.value.status.None? ==> after == before)
  {
    hide Refresh, OutcomeOf, Recorded;
    var all := events + [Refreshed(allocation, supply, now)];
    assert all[..|events|] == events;
    RefreshMeaning(Run(events), allocation, supply, now);
  }

  function Gauges(status: AllocationStatus, supply: Figures): map<ResourceType, CapacityFigures> {
    map[Cpu := Gauge(status, supply, Cpu), Memory := Gauge(status, supply, Memory)]
  }

  /** What an event puts on the capacity gauges, if anything: the figures of a judged request, or
      of a refresh with a cached status. */
  function Shown(event: Event): Option<map<ResourceType, CapacityFigures>> {
    match event
    case Refreshed(allocation, supply, _) =>
      if allocation.Some? && allocation.value.status.Some?
      then Some(Gauges(allocation.value.status.value, supply.GetOr(Figures(0, 0)))) else None
    case Handled(Evaluated(request, allocation, supply, now, thresholdSecs, webhookNamespace), _) =>
      if Judgeable(request, allocation, supply, now, thresholdSecs, webhookNamespace)
      then Some(Gauges(allocation.value.status.value, supply.value)) else None
    case Handled(_, _) => None
  }

  /** The whole-run law: the gauges show what the last event that shows anything showed, however
      many rejections, exemptions and refreshes without a status came after it. */
  lemma {:induction false} GaugesShowLast(events: seq<Event>, k: nat)
    requires k < |events| && Shown(events[k]).Some?
    requires forall i :: k < i < |events| ==> Shown(events[i]).None?
    ensures Run(events).capacity == Shown(events[k]).value
    decreases |events|
  {
    hide Shown, Next;
    var last, front := events[|events| - 1], events[..|events| - 1];
    if k == |events| - 1 {
      assert front + [last] == events;
      EventShows(front, last);
    } else {
      GaugesShowLast(front, k);
      EventShowsNothing(Run(front), last);
    }
  }

  /** Before anything was shown they stand at 0. */
  lemma {:induction false} GaugesStartAtZero(events: seq<Event>)
    requires forall e :: e in events ==> Shown(e).None?
    ensures Run(events).capacity == map[Cpu := NO_CAPACITY, Memory := NO_CAPACITY]
  {
    hide Shown, Next;
    if events != [] {
      GaugesStartAtZero(events[..|events| - 1]);
      EventShowsNothing(Run(events[..|events| - 1]), events[|events| - 1]);
    }
  }

  lemma EventShows(front: seq<Event>, last: Event)
    requires Shown(last).Some?
    ensures Run(front + [last]).capacity == Shown(last).value
  {
    hide Run, OutcomeOf, Judgeable, Evaluate;
    match last
    case Refreshed(allocation, supply, now) => GaugesFollowRefresh(front, allocation, supply, now);
    case Handled(Evaluated(request, allocation, supply, now, thresholdSecs, webhookNamespace), latencyMs) =>
      BudgetDecides(request, allocation, supply, now, thresholdSecs, webhookNamespace);
      JudgeableHasFigures(last.input);
      EvaluatedOutcome(last.input);
      GaugesFollowDecision(front, request, allocation.value.spec, allocation.value.status.value, supply.value, now,
                           thresholdSecs, webhookNamespace, latencyMs);
    case _ =>
  }

  lemma JudgeableHasFigures(input: Input)
    requires input.Evaluated?
    requires Judgeable(input.request, input.allocation, input.supply, input.now, input.thresholdSecs,
                       input.webhookNamespace)
    ensures input.allocation.Some? && input.allocation.value.status.Some? && input.supply.Some?
  {
    hide IsExempt, EffectiveRequest, AssessFreshness;
  }

  lemma EvaluatedOutcome(input: Input)
    requires input.Evaluated?
    ensures OutcomeOf(input) == Evaluate(input.request, input.allocation, input.supply, input.now, input.thresholdSecs,
                                         input.webhookNamespace)
  {
    hide Evaluate;
  }

  lemma EventShowsNothing(s: Series, event: Event)
    requires Complete(s) && Shown(event).None?
    ensures Next(s, event).capacity == s.capacity
  {
    hide OutcomeOf, Judgeable, Evaluate, Recorded, Refresh;
    match event
    case Refreshed(allocation, supply, now) => RefreshMeaning(s, allocation, supply, now);
    case Handled(input, latencyMs) =>
      VerdictShowsNothing(input);
      RecordedNoGauges(s, OutcomeOf(input).summary.(latencyMs := latencyMs));
  }

  lemma VerdictShowsNothing(input: Input)
    requires Shown(Handled(input, 0)).None?
    ensures OutcomeOf(input).summary.verdict in {Exempt, Error}
  {
    hide Evaluate, Judgeable, Message;
    if input.Evaluated? {
      BudgetDecides(input.request, input.allocation, input.supply, input.now, input.thresholdSecs,
                    input.webhookNamespace);
      EvaluatedOutcome(input);
      var verdict := OutcomeOf(input).summary.verdict;
      assert verdict !in {Allow, Denied, DryRunDeny};
      assert verdict.Exempt? || verdict.Error?;
    }
  }

  lemma RecordedNoGauges(s: Series, d: DecisionSummary)
    requires Complete(s) && d.verdict in {Exempt, Error}
    ensures Recorded(s, d).capacity == s.capacity
  {
  }

  lemma RecordedGauges(s: Series, d: DecisionSummary)
    requires Complete(s) && d.verdict != Exempt && d.verdict != Error
    ensures Recorded(s, d).capacity == map[Cpu := ToCapacityFigures(d.cpu), Memory := ToCapacityFigures(d.memory)]
  {
  }
}
