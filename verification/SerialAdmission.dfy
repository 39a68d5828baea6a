/** When admission against snapshots keeps the budget, and when it does not. Where every admission
    is reflected before the next decision and ceilings do not fall, the budget holds over all runs
    exactly if no first recount from an unsynced pod store can matter. */
module SerialAdmission {
  import opened Wrappers
  import opened MachineInt
  import opened Timestamp
  import opened Quantity
  import opened Containers
  import opened Admission
  import opened Crd
  import opened AllocationController
  import opened Handler
  import opened Overshoot

  // ---------- the discipline ----------

  /** Each admission is judged, against a status that reflects all earlier ones; ceilings never
      fall and the first one covers what ran at the start; nothing goes round the webhook. With
      `cold`, a status may come from an unsynced store. */
  predicate OneAtATime(w: World, step: Step, r: ResourceType, cold: bool)
    requires Enabled(w, step)
  {
    match step
    case Decide(d, request, _, _, _, namespace) =>
      var p := w.delivered[d];
      && w.pending == [] && p.revision == |w.log| && JudgedRoom(p, request, namespace, r).Some?
      && (cold || p.synced)
    case Recompute(_, _, _, _, _) =>
      if w.published == [] then Total(w.initial, r) <= NewStatus(step).ceiling.Of(r)
      else Latest(w).status.ceiling.Of(r) <= NewStatus(step).ceiling.Of(r)
    case Bypass(_, _) => false
    case _ => true
  }

  predicate SerialRun(w: World, steps: seq<Step>, r: ResourceType, cold: bool)
    decreases |steps|
  {
    steps != [] ==>
      && Enabled(w, steps[0]) && OneAtATime(w, steps[0], r, cold)
      && SerialRun(Apply(w, steps[0]), steps[1..], r, cold)
  }

  /** What runs stays under the ceiling last published. */
  predicate WithinCeiling(w: World, r: ResourceType) {
    w.published != [] ==> Total(w.pods, r) <= Latest(w).status.ceiling.Of(r)
  }

  /** What the budget promises, over unbounded integers: 100 times what runs is at most the supply
      of the last recount times its clamped percentage. */
  predicate KeepsPromise(w: World, r: ResourceType)
    requires w.published != []
  {
    100 * Total(w.pods, r) <= Latest(w).supply.Of(r) * Clamp(Latest(w).status.effectiveBudgets.Of(r), 0, 100)
  }

  /** In every reachable state the ceiling is kept exactly when the promise is. */
  lemma CeilingIsPromise(w: World, r: ResourceType)
    requires Inv(w) && w.published != [] && Latest(w).supply.Of(r) >= 0
    ensures WithinCeiling(w, r) <==> KeepsPromise(w, r)
  {
    hide Total, CeilingSingle, WellFormed, StartCovers, CachesCover, StatusesCover;
    var p := Latest(w);
    assert p in w.published;
    CeilingIsFloor(p.supply.Of(r), p.status.effectiveBudgets.Of(r), Total(w.pods, r));
  }

  /** The start offers no request that an unsynced store could let in wrongly: nothing runs, or so
      much that no ceiling below the largest `i64` covers it. */
  predicate NoGap(initial: seq<Pod>, r: ResourceType, cold: bool) {
    !cold || Total(initial, r) == 0 || Total(initial, r) >= I64_MAX
  }

  // ---------- it keeps the budget ----------

  predicate CeilingsRise(w: World, r: ResourceType) {
    w.published != [] ==>
      && Total(w.initial, r) <= Latest(w).status.ceiling.Of(r)
      && forall p :: p in w.published ==>
           Total(w.initial, r) <= p.status.ceiling.Of(r) <= Latest(w).status.ceiling.Of(r)
  }

  /** Whatever is recounted under the discipline fits 64 bits. */
  predicate Countable(w: World, r: ResourceType) {
    && (forall c :: c in w.caches ==> Total(c.pods, r) <= I64_MAX || Total(c.pods, r) <= Total(w.initial, r))
    && (forall p :: p in w.published ==> p.counted.Of(r) <= I64_MAX)
    && (w.published == [] ==> Total(w.pods, r) <= Total(w.initial, r))
  }

  /** Within the ceiling now, and still within it once what is pending takes effect. */
  predicate Safe(w: World, r: ResourceType) {
    && CeilingsRise(w, r) && WithinCeiling(w, r) && Countable(w, r) && |w.pending| <= 1
    && (w.published == [] ==> w.pending == [] && w.log == [])
    && (w.pending != [] ==>
          && EffectiveRequest(w.pending[0].request).Ok?
          && Total(w.pods, r) + EffectiveRequest(w.pending[0].request).value.Of(r) <= Latest(w).status.ceiling.Of(r))
  }

  lemma DecideKeepsSafe(w: World, step: Step, r: ResourceType, cold: bool)
    requires Inv(w) && Safe(w, r) && Enabled(w, step) && OneAtATime(w, step, r, cold) && step.Decide?
    requires NoGap(w.initial, r, cold)
    ensures Safe(Apply(w, step), r)
  {
    hide Total, EffectiveRequest, Evaluate, IsExempt, Missed, Allows;
    var p := w.delivered[step.d];
    assert p in w.delivered;
    BoundInState(w, p, r);
    assert w.log[|w.log|..] == [];
    NothingMissedIff(w, p, r);
    TotalNonNegative(w.initial, r);
    JudgedFits(p, step, r);
    hide Inv;
  }

  lemma PersistKeepsSafe(w: World, step: Step, r: ResourceType)
    requires Inv(w) && Safe(w, r) && Enabled(w, step) && step.Persist?
    ensures Safe(Apply(w, step), r)
  {
    hide Total, EffectiveRequest, Allows;
    var a := w.pending[step.k];
    assert a in w.pending && step.k == 0;
    hide Inv;
    PersistMoves(w, a, step.i, r);
    hide PersistedPods, PersistedPod, EntryFor, Fitting;
  }

  lemma RemovalKeepsSafe(w: World, step: Step, r: ResourceType)
    requires Safe(w, r) && Enabled(w, step) && (step.Drop? || step.Remove? || step.Finish?)
    ensures Safe(Apply(w, step), r)
  {
    hide Total, EffectiveRequest, Allows, Persisted;
    match step
    case Remove(i) => DeleteLowers(w.pods, i, r);
    case Finish(i, phase) => TerminateLowers(w.pods, i, phase, r);
    case Drop(_) =>
  }

  lemma RecomputeKeepsSafe(w: World, step: Step, r: ResourceType, cold: bool)
    requires Inv(w) && Safe(w, r) && Enabled(w, step) && OneAtATime(w, step, r, cold) && step.Recompute?
    ensures Safe(Apply(w, step), r)
  {
    hide Inv, Total, EffectiveRequest, NewStatus;
    assert w.caches[step.c] in w.caches;
    TotalIgnoresOrder(step.order, w.caches[step.c].pods);
  }

  lemma SnapshotKeepsSafe(w: World, step: Step, r: ResourceType)
    requires Safe(w, r) && Enabled(w, step) && (step.SyncPods? || step.PatchSpec? || step.Deliver?)
    ensures Safe(Apply(w, step), r)
  {
    hide Total, EffectiveRequest;
  }

  lemma SerialStepKeepsSafe(w: World, step: Step, r: ResourceType, cold: bool)
    requires Inv(w) && Safe(w, r) && Enabled(w, step) && OneAtATime(w, step, r, cold) && NoGap(w.initial, r, cold)
    ensures Safe(Apply(w, step), r)
  {
    hide Inv, Safe, Enabled, Apply, NoGap;
    match step
    case Decide(_, _, _, _, _, _) => DecideKeepsSafe(w, step, r, cold);
    case Recompute(_, _, _, _, _) => RecomputeKeepsSafe(w, step, r, cold);
    case Persist(_, _) => PersistKeepsSafe(w, step, r);
    case Drop(_) => RemovalKeepsSafe(w, step, r);
    case Remove(_) => RemovalKeepsSafe(w, step, r);
    case Finish(_, _) => RemovalKeepsSafe(w, step, r);
    case SyncPods => SnapshotKeepsSafe(w, step, r);
    case PatchSpec(_) => SnapshotKeepsSafe(w, step, r);
    case Deliver(_) => SnapshotKeepsSafe(w, step, r);
  }

  lemma {:induction false} SerialRunKeepsSafe(w: World, steps: seq<Step>, r: ResourceType, cold: bool)
    requires Inv(w) && Safe(w, r) && SerialRun(w, steps, r, cold) && NoGap(w.initial, r, cold)
    ensures ValidRun(w, steps) && Safe(After(w, steps), r)
    decreases |steps|
  {
    hide Inv, Safe, Enabled, Apply, OneAtATime, NoGap;
    if steps != [] {
      StepKeepsInv(w, steps[0]);
      SerialStepKeepsSafe(w, steps[0], r, cold);
      SerialRunKeepsSafe(Apply(w, steps[0]), steps[1..], r, cold);
    }
  }

  /** Under the discipline no interleaving of the other steps takes the running pods over the
      ceiling. */
  lemma SerialRunsStayWithinCeiling(pods: seq<Pod>, spec: AllocationSpec, steps: seq<Step>, r: ResourceType,
                                    cold: bool)
    requires NoGap(pods, r, cold) && SerialRun(Start(pods, spec), steps, r, cold)
    ensures ValidRun(Start(pods, spec), steps)
    ensures var w := After(Start(pods, spec), steps);
      WithinCeiling(w, r) && (w.published != [] && Latest(w).supply.Of(r) >= 0 ==> KeepsPromise(w, r))
  {
    hide Total, NoGap, SerialRun, Inv, EffectiveRequest;
    StartHolds(pods, spec);
    NothingAddsNothing(r);
    assert Safe(Start(pods, spec), r);
    assert Start(pods, spec).initial == pods;
    hide Start;
    SerialRunKeepsSafe(Start(pods, spec), steps, r, cold);
    var w := After(Start(pods, spec), steps);
    hide After, KeepsPromise;
    if w.published != [] && Latest(w).supply.Of(r) >= 0 {
      RunKeepsInv(Start(pods, spec), steps);
      CeilingIsPromise(w, r);
    }
  }

  // ---------- and does not, from an unsynced store ----------

  /** The budget holds over every run that keeps the discipline. */
  ghost predicate BudgetAlways(pods: seq<Pod>, spec: AllocationSpec, r: ResourceType, cold: bool) {
    forall steps :: SerialRun(Start(pods, spec), steps, r, cold) ==>
      ValidRun(Start(pods, spec), steps) && WithinCeiling(After(Start(pods, spec), steps), r)
  }

  const OPEN_SPEC := AllocationSpec(100, None, None, None, None, None)

  /** A recount of the still empty pod store against a supply of `c`, at 100%. */
  function OpenRecount(c: nat): (step: Step)
    requires c <= I64_MAX
    ensures step.Recompute?
  {
    Recompute(0, [], OPEN_SPEC, Figures(c, c), 0)
  }

  function OpenStatus(c: nat): Published
    requires c <= I64_MAX
  {
    Published(OPEN_SPEC, NewStatus(OpenRecount(c)), Figures(c, c), Room(0, 0), 0, false)
  }

  /** Its status shows an allocation of 0 under a ceiling of `c`. */
  lemma OpenStatusFigures(c: nat)
    requires c <= I64_MAX
    ensures var p := OpenStatus(c);
      && p.status.inUse == Figures(0, 0) && p.status.ceiling == Figures(c, c)
      && p.counted == Room(0, 0) && p.revision == 0
  {
    hide Rfc3339FromUnix;
    assert CeilingSingle(c, 100) == c && MachineTotal([]) == Figures(0, 0);
  }

  /** The creation of a pod that asks for `n` of one resource, put to the first status delivered. */
  function Ask(r: ResourceType, n: nat, c: nat): (step: Step)
    requires c <= I64_MAX
    ensures step.Decide?
  {
    var pod := Pod(None, Some(PodSpec([Asks(r, n)], None, None)));
    Step.Decide(0, AdmissionRequest("", None, Create, Some(pod), None), Some(Figures(c, c)), 0, 0, "")
  }

  lemma AskIsAllowed(r: ResourceType, n: nat, c: nat)
    requires n <= c < I64_MAX
    ensures EffectiveRequest(Ask(r, n, c).request) == Ok(Only(r, n))
    ensures Allows(OpenStatus(c), Ask(r, n, c))
    ensures JudgedRoom(OpenStatus(c), Ask(r, n, c).request, "", r) == Some(c)
  {
    hide Evaluate, Rfc3339FromUnix, PodRequests, CeilingSingle;
    OneContainer(r, n);
    OpenStatusFigures(c);
    var ask := Ask(r, n, c);
    assert PodRequest(ask.request.newPod) == Ok(Only(r, n));
    assert !IsExempt(ask.request, OPEN_SPEC, "");
    EnforcedEndToEnd(ask.request, OPEN_SPEC, MachineTotal([]), Figures(c, c), 0, Some(Figures(c, c)), 0, 0, "");
    hide EffectiveRequest, IsExempt;
  }

  /** The state after an operator's patch to `OPEN_SPEC`, the first recount and its delivery. */
  function Opened(pods: seq<Pod>, c: nat): World
    requires c <= I64_MAX
  {
    Start(pods, OPEN_SPEC).(published := [OpenStatus(c)], delivered := [OpenStatus(c)])
  }

  function Opening(c: nat): seq<Step>
    requires c <= I64_MAX
  {
    [PatchSpec(OPEN_SPEC)] + ([OpenRecount(c)] + [Deliver(0)])
  }

  lemma OpeningRun(pods: seq<Pod>, spec: AllocationSpec, c: nat, r: ResourceType)
    requires Total(pods, r) <= c <= I64_MAX
    ensures SerialRun(Start(pods, spec), Opening(c), r, true) && ValidRun(Start(pods, spec), Opening(c))
    ensures After(Start(pods, spec), Opening(c)) == Opened(pods, c)
  {
    hide Total, NewStatus, Allows, Persisted, JudgedRoom;
    var patched := Start(pods, OPEN_SPEC);
    var recounted := patched.(published := [OpenStatus(c)]);
    assert Apply(Start(pods, spec), PatchSpec(OPEN_SPEC)) == patched;
    OpenStatusFigures(c);
    NothingAddsNothing(Cpu);
    NothingAddsNothing(Memory);
    assert Apply(patched, OpenRecount(c)) == recounted;
    assert Apply(recounted, Deliver(0)) == Opened(pods, c);
    assert OneAtATime(patched, OpenRecount(c), r, true);
    hide Apply;
    SerialPair(patched, OpenRecount(c), Deliver(0), r, true);
    SerialCons(Start(pods, spec), PatchSpec(OPEN_SPEC), [OpenRecount(c)] + [Deliver(0)], r, true);
  }

  /** A pod that fits under the ceiling on its own is admitted and takes effect. */
  lemma AskTakesEffect(w: World, r: ResourceType, n: nat, c: nat)
    requires n <= c < I64_MAX && w.pending == [] && w.delivered == [OpenStatus(c)]
    ensures Enabled(w, Ask(r, n, c)) && Enabled(Apply(w, Ask(r, n, c)), Persist(0, 0))
    ensures var w' := Apply(Apply(w, Ask(r, n, c)), Persist(0, 0));
      && w'.pending == [] && w'.delivered == w.delivered && w'.published == w.published
      && Total(w'.pods, r) == Total(w.pods, r) + n
  {
    hide Total, EffectiveRequest, Allows, JudgedRoom, OpenStatus, Asks;
    AskIsAllowed(r, n, c);
    var ask := Ask(r, n, c);
    var decided := Apply(w, ask);
    assert decided.pending == [Judged(w.delivered[0], ask.request, "")];
    assert Fitting(decided, decided.pending[0], 0);
    PersistMoves(decided, decided.pending[0], 0, r);
  }

  /** The failing run: the first recount counts an empty store, and a webhook that judges against
      it admits as much again as the ceiling allows on top of what already runs. */
  lemma ColdStartPassesCeiling(pods: seq<Pod>, spec: AllocationSpec, r: ResourceType)
    requires 0 < Total(pods, r) < I64_MAX
    ensures var c := Total(pods, r);
      var steps := Opening(c) + ([Ask(r, c, c)] + [Persist(0, 0)]);
      && SerialRun(Start(pods, spec), steps, r, true) && ValidRun(Start(pods, spec), steps)
      && !WithinCeiling(After(Start(pods, spec), steps), r)
  {
    hide Total, Enabled, Apply, SerialRun, ValidRun, After, OneAtATime, Opened, Opening, Start, Ask, OpenStatus;
    var c := Total(pods, r);
    var w, ask := Opened(pods, c), Ask(r, c, c);
    OpeningRun(pods, spec, c, r);
    OpenedFigures(pods, c);
    AskTakesEffect(w, r, c, c);
    AskIsSerial(w, r, c, c);
    SerialPair(w, ask, Persist(0, 0), r, true);
    RunAppend(Start(pods, spec), Opening(c), [ask] + [Persist(0, 0)]);
    SerialAppend(Start(pods, spec), Opening(c), [ask] + [Persist(0, 0)], r, true);
  }

  lemma OpenedFigures(pods: seq<Pod>, c: nat)
    requires c <= I64_MAX
    ensures var w := Opened(pods, c);
      && w.pods == pods && w.log == [] && w.pending == []
      && w.delivered == w.published == [OpenStatus(c)] && Latest(w).status.ceiling == Figures(c, c)
      && Latest(w).status.inUse == Figures(0, 0)
  {
    hide OpenStatus;
    OpenStatusFigures(c);
  }

  /** The first request a webhook lets in keeps the discipline. */
  lemma AskIsSerial(w: World, r: ResourceType, n: nat, c: nat)
    requires n <= c < I64_MAX && w.pending == [] && w.log == [] && w.delivered == [OpenStatus(c)]
    requires Enabled(w, Ask(r, n, c)) && Enabled(Apply(w, Ask(r, n, c)), Persist(0, 0))
    ensures OneAtATime(w, Ask(r, n, c), r, true)
    ensures OneAtATime(Apply(w, Ask(r, n, c)), Persist(0, 0), r, true)
  {
    hide Enabled, Apply, OpenStatus, JudgedRoom, Asks;
    AskIsAllowed(r, n, c);
    OpenStatusFigures(c);
  }

  /** For every cluster: with recounts from unsynced stores let through, the budget holds over all
      runs that keep the discipline exactly when the start leaves no gap; without them it always
      holds. */
  lemma SerialBudgetIff(pods: seq<Pod>, spec: AllocationSpec, r: ResourceType, cold: bool)
    ensures BudgetAlways(pods, spec, r, cold) <==> NoGap(pods, r, cold)
  {
    hide Total, Start, SerialRun, ValidRun, After, WithinCeiling;
    if NoGap(pods, r, cold) {
      forall steps | SerialRun(Start(pods, spec), steps, r, cold)
        ensures ValidRun(Start(pods, spec), steps) && WithinCeiling(After(Start(pods, spec), steps), r)
      {
        SerialRunsStayWithinCeiling(pods, spec, steps, r, cold);
      }
    } else {
      TotalNonNegative(pods, r);
      ColdStartPassesCeiling(pods, spec, r);
    }
  }

  // ---------- nor without the discipline ----------

  /** One request admitted twice against one snapshot passes its ceiling, wherever the request
      takes more than half of the room the snapshot leaves. */
  lemma TwoAdmissionsOvershoot(w: World, ask: Step, r: ResourceType)
    requires w.pending == [] && Enabled(w, ask) && ask.Decide?
    requires ask.request.operation.Create? && IsNonTerminal(ask.request.newPod.value.phase)
    requires EffectiveRequest(ask.request).Ok?
    requires var p := w.delivered[ask.d];
      && Total(w.pods, r) == p.status.inUse.Of(r)
      && 2 * EffectiveRequest(ask.request).value.Of(r) > p.status.ceiling.Of(r) - p.status.inUse.Of(r)
    ensures var steps := ([ask] + [Persist(0, 0)]) + ([ask] + [Persist(0, 0)]);
      && ValidRun(w, steps) && After(w, steps).delivered == w.delivered && After(w, steps).published == w.published
      && Total(After(w, steps).pods, r) > w.delivered[ask.d].status.ceiling.Of(r)
  {
    hide Total, EffectiveRequest, Apply, ValidRun, After, Enabled;
    AdmitOnce(w, ask, r);
    var once := [ask] + [Persist(0, 0)];
    AdmitOnce(After(w, once), ask, r);
    RunAppend(w, once, once);
  }

  lemma AdmitOnce(w: World, ask: Step, r: ResourceType)
    requires w.pending == [] && Enabled(w, ask) && ask.Decide?
    requires ask.request.operation.Create? && IsNonTerminal(ask.request.newPod.value.phase)
    requires EffectiveRequest(ask.request).Ok?
    ensures var steps := [ask] + [Persist(0, 0)];
      && ValidRun(w, steps)
      && var w' := After(w, steps);
         && w'.pending == [] && w'.delivered == w.delivered && w'.published == w.published && Enabled(w', ask)
         && Total(w'.pods, r) == Total(w.pods, r) + EffectiveRequest(ask.request).value.Of(r)
  {
    hide Total, EffectiveRequest, Allows, JudgedRoom, ValidRun, After, EntryFor;
    var decided := Apply(w, ask);
    assert decided.pending == [Judged(w.delivered[ask.d], ask.request, ask.namespace)];
    assert Fitting(decided, decided.pending[0], 0);
    PersistMoves(decided, decided.pending[0], 0, r);
    RunOfTwo(w, ask, Persist(0, 0));
  }

  /** Such a run exists from an empty cluster, for every pod that fits under the ceiling once and
      not twice. */
  lemma OvershootHappens(spec: AllocationSpec, r: ResourceType, n: nat, c: nat)
    requires n <= c < 2 * n && c < I64_MAX
    ensures var once := [Ask(r, n, c)] + [Persist(0, 0)];
      var steps := Opening(c) + (once + once);
      && ValidRun(Start([], spec), steps) && !WithinCeiling(After(Start([], spec), steps), r)
  {
    hide Total, EffectiveRequest, Apply, ValidRun, After, Enabled, SerialRun, Opened, Opening, Start, Asks;
    hide OpenStatus, Allows, JudgedRoom;
    NothingAddsNothing(r);
    var w, ask := Opened([], c), Ask(r, n, c);
    OpeningRun([], spec, c, r);
    OpenedFigures([], c);
    AskTakesEffect(w, r, n, c);
    AskIsAllowed(r, n, c);
    TwoAdmissionsOvershoot(w, ask, r);
    RunAppend(Start([], spec), Opening(c), ([ask] + [Persist(0, 0)]) + ([ask] + [Persist(0, 0)]));
  }

  // ---------- putting runs together ----------

  lemma SerialCons(w: World, step: Step, rest: seq<Step>, r: ResourceType, cold: bool)
    requires Enabled(w, step) && OneAtATime(w, step, r, cold) && SerialRun(Apply(w, step), rest, r, cold)
    ensures SerialRun(w, [step] + rest, r, cold)
  {
    hide Enabled, Apply, OneAtATime;
    assert ([step] + rest)[1..] == rest;
  }

  lemma SerialPair(w: World, first: Step, second: Step, r: ResourceType, cold: bool)
    requires Enabled(w, first) && OneAtATime(w, first, r, cold)
    requires Enabled(Apply(w, first), second) && OneAtATime(Apply(w, first), second, r, cold)
    ensures SerialRun(w, [first] + [second], r, cold) && ValidRun(w, [first] + [second])
    ensures After(w, [first] + [second]) == Apply(Apply(w, first), second)
  {
    hide Enabled, Apply, OneAtATime;
    SerialCons(Apply(w, first), second, [], r, cold);
    assert [second] + [] == [second];
    SerialCons(w, first, [second], r, cold);
    RunOfTwo(w, first, second);
  }

  lemma {:induction false} SerialAppend(w: World, a: seq<Step>, b: seq<Step>, r: ResourceType, cold: bool)
    requires SerialRun(w, a, r, cold) && ValidRun(w, a) && SerialRun(After(w, a), b, r, cold)
    ensures SerialRun(w, a + b, r, cold)
    decreases |a|
  {
    hide Enabled, Apply, OneAtATime;
    if a == [] {
      assert a + b == b;
    } else {
      assert (a + b)[1..] == a[1..] + b;
      SerialAppend(Apply(w, a[0]), a[1..], b, r, cold);
    }
  }
}
