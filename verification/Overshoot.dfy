/** Admission against cached snapshots, as a system of interleaved steps. Every webhook replica
    judges against whatever version of the status it has received, every controller replica
    recounts from whatever its pod cache holds, and neither waits for the other. This module
    bounds how far the running pods can get beyond a snapshot, for every interleaving, and says
    exactly when the plain bound, by the allocation a status shows, holds. */
module Overshoot {
  import opened Wrappers
  import opened MachineInt
  import opened Sums
  import opened Timestamp
  import opened Quantity
  import opened Admission
  import opened Crd
  import opened AllocationController
  import opened Handler
  import opened Delta

  // ---------- the state ----------

  /** A figure per resource over unbounded integers. */
  datatype Room = Room(cpu: int, memory: int) {
    function Of(r: ResourceType): int {
      match r
      case Cpu => cpu
      case Memory => memory
    }
  }

  /** A request the webhook let in, with the room it was judged against: none where the budget
      did not decide, because the pod was exempt, the mode dry-run or the ceiling unlimited. */
  datatype Admitted = Admitted(request: AdmissionRequest, cpuRoom: Option<int>, memoryRoom: Option<int>) {
    function RoomFor(r: ResourceType): Option<int> {
      match r
      case Cpu => cpuRoom
      case Memory => memoryRoom
    }
  }

  /** An admission that took effect: how it moved the totals, and the limit it was under. The
      limit is the room it was judged against, or its own change where nothing judged it. */
  datatype Entry = Entry(change: Room, limit: Room)

  /** A state of a controller's pod store, and how many logged admissions it reflects. A store
      that has not synced yet is empty. */
  datatype PodCache = PodCache(pods: seq<Pod>, revision: nat, synced: bool)

  /** A version of the allocation object with a status: the supply it was built from, the exact
      totals of the pods that were counted, and where they came from. */
  datatype Published = Published(spec: AllocationSpec, status: AllocationStatus, supply: Figures, counted: Room,
                                 revision: nat, synced: bool)

  datatype World = World(
    initial: seq<Pod>,           // what ran when the controllers started
    pods: seq<Pod>,              // what the cluster really runs
    log: seq<Entry>,             // admissions of counted pods, in the order they took effect
    pending: seq<Admitted>,      // let in, not yet in effect
    spec: AllocationSpec,        // the operator's spec as stored now
    caches: seq<PodCache>,       // every state a pod store has been in
    published: seq<Published>,   // every version of the status, oldest first
    delivered: seq<Published>)   // the versions that webhook replicas have received

  datatype Step =
    | Decide(d: nat, request: AdmissionRequest, capacity: Option<Figures>, now: I64, thresholdSecs: nat,
             namespace: string)
    | Persist(k: nat, i: nat)
    | Drop(k: nat)
    | Bypass(i: nat, pod: Pod)
    | Remove(i: nat)
    | Finish(i: nat, phase: string)
    | SyncPods
    | Recompute(c: nat, order: seq<Pod>, spec: AllocationSpec, supply: Figures, stamp: nat)
    | PatchSpec(spec: AllocationSpec)
    | Deliver(v: nat)

  /** Controllers and webhooks have just started over the running pods; the one store state so
      far is the empty one. */
  function Start(pods: seq<Pod>, spec: AllocationSpec): World {
    World(pods, pods, [], [], spec, [PodCache([], 0, false)], [], [])
  }

  // ---------- the steps ----------

  predicate Allows(p: Published, step: Step)
    requires step.Decide?
  {
    Evaluate(step.request, Some(Allocation(p.spec, Some(p.status))), step.capacity, step.now, step.thresholdSecs,
             step.namespace).response.allowed
  }

  function NewStatus(step: Step): AllocationStatus
    requires step.Recompute?
  {
    BuildAllocationStatus(MachineTotal(step.order), step.supply, ResolveEffectiveBudgets(step.spec),
                          Rfc3339FromUnix(step.stamp))
  }

  /** Whether the persisted object of an UPDATE replaces the object the webhook compared with. */
  predicate Replaces(a: Admitted, pod: Pod) {
    a.request.oldPod.Some? && a.request.oldPod.value.spec == pod.spec
  }

  predicate Fitting(w: World, a: Admitted, i: nat) {
    && a.request.newPod.Some?
    && (if a.request.operation.Update? then i < |w.pods| && Replaces(a, w.pods[i]) else i <= |w.pods|)
  }

  /** When a step can happen. A decision uses any version a webhook received, a recount any state
      of a pod store in any order together with any spec it read and any supply, a delivery any
      version; pods that never pass the webhook may appear at any time. */
  predicate Enabled(w: World, step: Step) {
    match step
    case Decide(d, request, _, _, _, _) =>
      && d < |w.delivered| && (request.operation.Create? || request.operation.Update?)
      && request.newPod.Some? && Allows(w.delivered[d], step)
    case Persist(k, i) => k < |w.pending| && Fitting(w, w.pending[k], i)
    case Drop(k) => k < |w.pending|
    case Bypass(i, _) => i <= |w.pods|
    case Remove(i) => i < |w.pods|
    case Finish(i, phase) => i < |w.pods| && !IsNonTerminal(Some(phase))
    case SyncPods => true
    case Recompute(c, order, _, _, _) => c < |w.caches| && multiset(order) == multiset(w.caches[c].pods)
    case PatchSpec(_) => true
    case Deliver(v) => v < |w.published|
  }

  /** The room a version of the status leaves a request for one resource, if it judges it. */
  function JudgedRoom(p: Published, request: AdmissionRequest, namespace: string, r: ResourceType): Option<int> {
    if && p.spec.enforcementMode != Some(DryRun) && !IsExempt(request, p.spec, namespace)
       && p.status.ceiling.Of(r) < I64_MAX
    then Some(p.status.ceiling.Of(r) - p.status.inUse.Of(r)) else None
  }

  function TotalsOf(pods: seq<Pod>): Room {
    Room(Total(pods, Cpu), Total(pods, Memory))
  }

  /** The log entry of a change of the running pods. */
  function EntryFor(before: seq<Pod>, after: seq<Pod>, cpuRoom: Option<int>, memoryRoom: Option<int>): Entry {
    var change := Room(Total(after, Cpu) - Total(before, Cpu), Total(after, Memory) - Total(before, Memory));
    Entry(change, Room(cpuRoom.GetOr(change.cpu), memoryRoom.GetOr(change.memory)))
  }

  function Inserted(pods: seq<Pod>, i: nat, pod: Pod): seq<Pod>
    requires i <= |pods|
  {
    pods[..i] + [pod] + pods[i..]
  }

  /** The pod an admission leaves in the cluster: a new one, or the old one with the new spec
      and the phase it has by now. */
  function PersistedPod(w: World, a: Admitted, i: nat): Pod
    requires Fitting(w, a, i)
  {
    if a.request.operation.Update? then a.request.newPod.value.(phase := w.pods[i].phase) else a.request.newPod.value
  }

  function PersistedPods(w: World, a: Admitted, i: nat): seq<Pod>
    requires Fitting(w, a, i)
  {
    if a.request.operation.Update? then w.pods[i := PersistedPod(w, a, i)]
    else Inserted(w.pods, i, PersistedPod(w, a, i))
  }

  function Persisted(w: World, a: Admitted, i: nat): World
    requires Fitting(w, a, i)
  {
    var after := PersistedPods(w, a, i);
    w.(pods := after,
       log := if IsNonTerminal(PersistedPod(w, a, i).phase)
              then w.log + [EntryFor(w.pods, after, a.cpuRoom, a.memoryRoom)] else w.log)
  }

  function Judged(p: Published, request: AdmissionRequest, namespace: string): Admitted {
    Admitted(request, JudgedRoom(p, request, namespace, Cpu), JudgedRoom(p, request, namespace, Memory))
  }

  function Recounted(w: World, c: nat, step: Step): Published
    requires step.Recompute? && c < |w.caches|
  {
    Published(w.spec, NewStatus(step), step.supply, TotalsOf(step.order), w.caches[c].revision, w.caches[c].synced)
  }

  function Apply(w: World, step: Step): World
    requires Enabled(w, step)
  {
    match step
    case Decide(d, request, _, _, _, namespace) =>
      w.(pending := w.pending + [Judged(w.delivered[d], request, namespace)])
    case Persist(k, i) => Persisted(w, w.pending[k], i).(pending := RemoveAt(w.pending, k))
    case Drop(k) => w.(pending := RemoveAt(w.pending, k))
    case Bypass(i, pod) =>
      var after := Inserted(w.pods, i, pod);
      w.(pods := after, log := w.log + [EntryFor(w.pods, after, None, None)])
    case Remove(i) => w.(pods := RemoveAt(w.pods, i))
    case Finish(i, phase) => w.(pods := w.pods[i := w.pods[i].(phase := Some(phase))])
    case SyncPods => w.(caches := w.caches + [PodCache(w.pods, |w.log|, true)])
    case Recompute(c, _, _, _, _) =>
      w.(published := w.published + [Recounted(w, c, step)])
    case PatchSpec(spec) =>
      w.(spec := spec,
         published := if w.published == [] then [] else w.published + [Latest(w).(spec := spec)])
    case Deliver(v) => w.(delivered := w.delivered + [w.published[v]])
  }

  function Latest(w: World): Published
    requires w.published != []
  {
    w.published[|w.published| - 1]
  }

  // ---------- the invariant ----------

  function ChangeOf(r: ResourceType): Entry -> int {
    (e: Entry) => e.change.Of(r)
  }

  function LimitOf(r: ResourceType): Entry -> int {
    (e: Entry) => e.limit.Of(r)
  }

  /** The real total is at most a figure plus what took effect after a revision. */
  predicate Covers(w: World, base: int, revision: nat, r: ResourceType) {
    revision <= |w.log| && Total(w.pods, r) <= base + Sum(w.log[revision..], ChangeOf(r))
  }

  /** What an unsynced store did not see. */
  function Unseen(w: World, synced: bool, r: ResourceType): int {
    if synced then 0 else Total(w.initial, r)
  }

  predicate CachesCover(w: World) {
    forall c, r: ResourceType :: c in w.caches ==> Covers(w, Total(c.pods, r) + Unseen(w, c.synced, r), c.revision, r)
  }

  predicate StatusesCover(w: World, ps: seq<Published>) {
    forall p, r: ResourceType :: p in ps ==> Covers(w, p.counted.Of(r) + Unseen(w, p.synced, r), p.revision, r)
  }

  predicate StartCovers(w: World) {
    forall r: ResourceType :: Covers(w, Total(w.initial, r), 0, r)
  }

  /** A status reports what was counted, in 64-bit arithmetic, under the ceiling of its supply. */
  predicate Reported(ps: seq<Published>) {
    && (forall p :: p in ps ==> p.status.ceiling == CeilingPerResource(p.supply, p.status.effectiveBudgets))
    && forall p, r: ResourceType :: p in ps ==>
         p.counted.Of(r) >= 0 && p.status.inUse.Of(r) == WrapI64(p.counted.Of(r))
  }

  predicate ChargeWithin(a: Admitted, r: ResourceType) {
    a.RoomFor(r).Some? ==>
      EffectiveRequest(a.request).Ok? && EffectiveRequest(a.request).value.Of(r) <= a.RoomFor(r).value
  }

  predicate WellFormed(w: World) {
    && (forall a :: a in w.pending ==> a.request.operation.Create? || a.request.operation.Update?)
    && (forall a, r: ResourceType :: a in w.pending ==> ChargeWithin(a, r))
    && (forall e, r: ResourceType :: e in w.log ==> e.change.Of(r) <= e.limit.Of(r))
    && (forall p :: p in w.delivered ==> p in w.published)
  }

  predicate Inv(w: World) {
    && WellFormed(w) && Reported(w.published)
    && StartCovers(w) && CachesCover(w) && StatusesCover(w, w.published)
  }

  /** How a step may move the cluster: the totals do not rise, or one admission is logged and
      they rise by at most its change. */
  predicate Moves(w: World, w': World) {
    || (w'.log == w.log && forall r: ResourceType :: Total(w'.pods, r) <= Total(w.pods, r))
    || (|w'.log| == |w.log| + 1 && w'.log[..|w.log|] == w.log
        && forall r: ResourceType :: Total(w'.pods, r) <= Total(w.pods, r) + w'.log[|w.log|].change.Of(r))
  }

  lemma CoversKept(w: World, w': World, base: int, revision: nat, r: ResourceType)
    requires Moves(w, w') && Covers(w, base, revision, r)
    ensures Covers(w', base, revision, r)
  {
    hide Total;
    if w'.log != w.log {
      var e := w'.log[|w.log|];
      assert w'.log == w.log + [e];
      assert w'.log[revision..] == w.log[revision..] + [e];
      SumAppend(w.log[revision..], [e], ChangeOf(r));
      assert Sum([e], ChangeOf(r)) == e.change.Of(r);
    }
  }

  /** A move of the cluster leaves every snapshot covered, however old. */
  lemma SnapshotsKept(w: World, w': World)
    requires Moves(w, w') && StartCovers(w) && CachesCover(w) && StatusesCover(w, w.published)
    requires w'.initial == w.initial && w'.caches == w.caches && w'.published == w.published
    ensures StartCovers(w') && CachesCover(w') && StatusesCover(w', w'.published)
  {
    hide Covers, Moves;
    forall r: ResourceType, base, revision | Covers(w, base, revision, r) ensures Covers(w', base, revision, r) {
      CoversKept(w, w', base, revision, r);
    }
  }

  /** A decision that the budget judges stays within the room it was judged against. */
  lemma JudgedFits(p: Published, step: Step, r: ResourceType)
    requires step.Decide? && Allows(p, step) && JudgedRoom(p, step.request, step.namespace, r).Some?
    ensures EffectiveRequest(step.request).Ok?
    ensures EffectiveRequest(step.request).value.Of(r) <= JudgedRoom(p, step.request, step.namespace, r).value
  {
    hide Evaluate, IsExempt, EffectiveRequest, Verdict, AssessFreshness;
    AllowedIff(step.request, Some(Allocation(p.spec, Some(p.status))), step.capacity, step.now, step.thresholdSecs,
               step.namespace);
    AdmitsIffPasses(p.status.inUse, EffectiveRequest(step.request).value, p.status.ceiling);
  }

  /** A judged admission that takes effect moves the total by its charge if the pod counts, and
      no admission moves it if the pod has ended meanwhile. */
  lemma PersistMoves(w: World, a: Admitted, i: nat, r: ResourceType)
    requires Fitting(w, a, i) && (a.request.operation.Create? || a.request.operation.Update?)
    ensures !IsNonTerminal(PersistedPod(w, a, i).phase) ==> Total(PersistedPods(w, a, i), r) == Total(w.pods, r)
    ensures IsNonTerminal(PersistedPod(w, a, i).phase) && EffectiveRequest(a.request).Ok? ==>
      Total(PersistedPods(w, a, i), r) == Total(w.pods, r) + EffectiveRequest(a.request).value.Of(r)
  {
    hide Total, EffectiveRequest;
    if !IsNonTerminal(PersistedPod(w, a, i).phase) {
      PersistEnded(w, a, i, r);
    } else if EffectiveRequest(a.request).Ok? {
      if a.request.operation.Create? {
        CreateAddsRequest(w.pods, i, a.request, r);
      } else {
        PersistUpdate(w, a, i, r);
      }
    }
  }

  lemma PersistUpdate(w: World, a: Admitted, i: nat, r: ResourceType)
    requires Fitting(w, a, i) && a.request.operation.Update? && EffectiveRequest(a.request).Ok?
    requires IsNonTerminal(w.pods[i].phase)
    ensures Total(PersistedPods(w, a, i), r) == Total(w.pods, r) + EffectiveRequest(a.request).value.Of(r)
  {
    hide Total, PodRequest;
    var asOfNow := a.request.(newPod := Some(PersistedPod(w, a, i)), oldPod := Some(w.pods[i]));
    SameSpecSameRequest(a.request.newPod, asOfNow.newPod);
    SameSpecSameRequest(a.request.oldPod, asOfNow.oldPod);
    UpdateAddsDifference(w.pods, i, asOfNow, r);
  }

  lemma PersistEnded(w: World, a: Admitted, i: nat, r: ResourceType)
    requires Fitting(w, a, i) && !IsNonTerminal(PersistedPod(w, a, i).phase)
    ensures Total(PersistedPods(w, a, i), r) == Total(w.pods, r)
  {
    hide Added;
    var pod := PersistedPod(w, a, i);
    EndedAddsNothing(pod, r);
    if a.request.operation.Update? {
      EndedAddsNothing(w.pods[i], r);
      SumReplace(w.pods, i, pod, Added(r));
    } else {
      var grown := Inserted(w.pods, i, pod);
      SumRemove(grown, i, Added(r));
      assert RemoveAt(grown, i) == w.pods;
    }
  }

  lemma EndedAddsNothing(pod: Pod, r: ResourceType)
    requires !IsNonTerminal(pod.phase)
    ensures Added(r)(pod) == 0
  {
  }

  lemma SameSpecSameRequest(a: Option<Pod>, b: Option<Pod>)
    requires a.Some? && b.Some? && a.value.spec == b.value.spec
    ensures PodRequest(a) == PodRequest(b)
  {
  }

  // ---------- every step keeps it ----------

  lemma DecideKeepsInv(w: World, step: Step)
    requires Inv(w) && Enabled(w, step) && step.Decide?
    ensures Inv(Apply(w, step))
  {
    hide Total, EffectiveRequest, Covers, Evaluate, IsExempt, Allows, JudgedRoom;
    var w' := Apply(w, step);
    var a := w'.pending[|w.pending|];
    forall r: ResourceType ensures ChargeWithin(a, r) {
      if a.RoomFor(r).Some? {
        JudgedFits(w.delivered[step.d], step, r);
      }
    }
    hide ChargeWithin;
    SnapshotsKept(w, w');
  }

  lemma PersistKeepsInv(w: World, step: Step)
    requires Inv(w) && Enabled(w, step) && step.Persist?
    ensures Inv(Apply(w, step))
  {
    hide Total, EffectiveRequest, Covers, Evaluate, IsExempt;
    var a, w' := w.pending[step.k], Apply(w, step);
    assert a in w.pending;
    forall r: ResourceType
      ensures w'.log == w.log ==> Total(w'.pods, r) == Total(w.pods, r)
      ensures w'.log != w.log ==>
        var e := w'.log[|w.log|];
        Total(w'.pods, r) == Total(w.pods, r) + e.change.Of(r) && e.change.Of(r) <= e.limit.Of(r)
    {
      PersistMoves(w, a, step.i, r);
      assert ChargeWithin(a, r);
    }
    hide ChargeWithin;
    assert Moves(w, w');
    SnapshotsKept(w, w');
  }

  lemma BypassKeepsInv(w: World, step: Step)
    requires Inv(w) && Enabled(w, step) && step.Bypass?
    ensures Inv(Apply(w, step))
  {
    hide Total, EffectiveRequest, Covers, Evaluate, IsExempt, ChargeWithin;
    var w' := Apply(w, step);
    forall r: ResourceType ensures Total(w'.pods, r) == Total(w.pods, r) + w'.log[|w.log|].change.Of(r) {
    }
    assert Moves(w, w');
    SnapshotsKept(w, w');
  }

  lemma RemovalKeepsInv(w: World, step: Step)
    requires Inv(w) && Enabled(w, step) && (step.Remove? || step.Finish? || step.Drop?)
    ensures Inv(Apply(w, step))
  {
    hide Total, EffectiveRequest, Covers, Evaluate, IsExempt, ChargeWithin;
    var w' := Apply(w, step);
    forall r: ResourceType ensures Total(w'.pods, r) <= Total(w.pods, r) {
      if step.Remove? {
        DeleteLowers(w.pods, step.i, r);
      } else if step.Finish? {
        TerminateLowers(w.pods, step.i, step.phase, r);
      }
    }
    assert Moves(w, w');
    SnapshotsKept(w, w');
  }

  lemma SyncKeepsInv(w: World)
    requires Inv(w)
    ensures Inv(Apply(w, SyncPods))
  {
    hide Total, EffectiveRequest, ChargeWithin;
    assert w.log[|w.log|..] == [];
  }

  lemma RecomputeKeepsInv(w: World, step: Step)
    requires Inv(w) && Enabled(w, step) && step.Recompute?
    ensures Inv(Apply(w, step))
  {
    hide Total, EffectiveRequest, Evaluate, IsExempt, CeilingSingle, Rfc3339FromUnix, Covers, ChargeWithin;
    var cache, w' := w.caches[step.c], Apply(w, step);
    var p := w'.published[|w.published|];
    TotalIgnoresOrder(step.order, cache.pods);
    forall r: ResourceType
      ensures p.counted.Of(r) == Total(cache.pods, r) && p.counted.Of(r) >= 0
      ensures p.status.inUse.Of(r) == WrapI64(p.counted.Of(r))
      ensures Covers(w, p.counted.Of(r) + Unseen(w, p.synced, r), p.revision, r)
    {
      TotalNonNegative(step.order, r);
      assert cache in w.caches;
    }
    hide NewStatus, WrapI64;
    CoversIgnoreSnapshots(w, w');
  }

  /** Snapshots are a matter of pods and log only. */
  lemma CoversIgnoreSnapshots(w: World, w': World)
    requires w'.pods == w.pods && w'.log == w.log && w'.initial == w.initial
    ensures forall base, revision, r: ResourceType :: Covers(w, base, revision, r) <==> Covers(w', base, revision, r)
  {
    hide Total;
  }

  lemma PublishingKeepsInv(w: World, step: Step)
    requires Inv(w) && Enabled(w, step) && (step.PatchSpec? || step.Deliver?)
    ensures Inv(Apply(w, step))
  {
    hide Total, EffectiveRequest, Covers, ChargeWithin;
    var w' := Apply(w, step);
    CoversIgnoreSnapshots(w, w');
    if step.PatchSpec? && w.published != [] {
      assert Latest(w) in w.published;
    }
  }

  /** Every step of every interleaving keeps the invariant. */
  lemma StepKeepsInv(w: World, step: Step)
    requires Inv(w) && Enabled(w, step)
    ensures Inv(Apply(w, step)) && Apply(w, step).initial == w.initial
  {
    assert Apply(w, step).initial == w.initial by {
      hide Inv, Total, Evaluate, IsExempt;
    }
    hide Inv, Enabled, Apply;
    match step
    case Decide(_, _, _, _, _, _) => DecideKeepsInv(w, step);
    case Persist(_, _) => PersistKeepsInv(w, step);
    case Drop(_) => RemovalKeepsInv(w, step);
    case Bypass(_, _) => BypassKeepsInv(w, step);
    case Remove(_) => RemovalKeepsInv(w, step);
    case Finish(_, _) => RemovalKeepsInv(w, step);
    case SyncPods => SyncKeepsInv(w);
    case Recompute(_, _, _, _, _) => RecomputeKeepsInv(w, step);
    case PatchSpec(_) => PublishingKeepsInv(w, step);
    case Deliver(_) => PublishingKeepsInv(w, step);
  }

  /** What each step does to the cluster and to the snapshots: pods give back exactly what they
      added, an admission is used up once, any version can arrive, and a new spec shows with the
      figures of the last recount. */
  lemma StepEffects(w: World, step: Step, r: ResourceType)
    requires Enabled(w, step)
    ensures var w' := Apply(w, step);
      match step
      case Decide(d, request, _, _, _, namespace) =>
        && w'.pods == w.pods && |w'.pending| == |w.pending| + 1
        && var p, a := w.delivered[d], w'.pending[|w.pending|];
           && a.request == request
           && (a.RoomFor(r).Some? <==>
                 p.spec.enforcementMode != Some(DryRun) && !IsExempt(request, p.spec, namespace)
                 && p.status.ceiling.Of(r) < I64_MAX)
           && (a.RoomFor(r).Some? ==> a.RoomFor(r).value == p.status.ceiling.Of(r) - p.status.inUse.Of(r))
      case Persist(k, _) =>
        && multiset(w'.pending) + multiset{w.pending[k]} == multiset(w.pending)
        && (w'.log != w.log ==>
              && |w'.log| == |w.log| + 1
              && w'.log[|w.log|].change.Of(r) == Total(w'.pods, r) - Total(w.pods, r)
              && (w.pending[k].RoomFor(r).Some? ==> w'.log[|w.log|].limit.Of(r) == w.pending[k].RoomFor(r).value))
      case Drop(k) => w'.pods == w.pods && multiset(w'.pending) + multiset{w.pending[k]} == multiset(w.pending)
      case Bypass(_, pod) =>
        && Total(w'.pods, r) == Total(w.pods, r) + Added(r)(pod) && |w'.log| == |w.log| + 1
        && w'.log[|w.log|].change.Of(r) == w'.log[|w.log|].limit.Of(r) == Added(r)(pod)
      case Remove(i) =>
        Total(w'.pods, r) == Total(w.pods, r) - Added(r)(w.pods[i]) && |w'.pods| == |w.pods| - 1 && w'.log == w.log
      case Finish(i, _) =>
        Total(w'.pods, r) == Total(w.pods, r) - Added(r)(w.pods[i]) && |w'.pods| == |w.pods| && w'.log == w.log
      case SyncPods =>
        |w'.caches| == |w.caches| + 1 && w'.caches[|w.caches|] == PodCache(w.pods, |w.log|, true) && w'.pods == w.pods
      case Recompute(c, order, spec, supply, stamp) =>
        && |w'.published| == |w.published| + 1
        && var p := Latest(w');
           && p.spec == w.spec && p.supply == supply && p.revision == w.caches[c].revision
           && p.counted.Of(r) == Total(order, r) == Total(w.caches[c].pods, r)
           && p.status.inUse == MachineTotal(w.caches[c].pods) && p.status.lastUpdated == Rfc3339FromUnix(stamp)
           && p.status.effectiveBudgets == ResolveEffectiveBudgets(spec)
      case PatchSpec(spec) =>
        && w'.spec == spec && w'.delivered == w.delivered
        && (w.published == [] ==> w'.published == [])
        && (w.published != [] ==> |w'.published| == |w.published| + 1 && Latest(w') == Latest(w).(spec := spec))
      case Deliver(v) => w'.published == w.published && w'.delivered == w.delivered + [w.published[v]]
  {
    hide Total, Added, Allows, IsExempt, Fitting, PersistedPods, CeilingSingle, Rfc3339FromUnix;
    match step
    case Bypass(i, pod) =>
      var after := Inserted(w.pods, i, pod);
      SumRemove(after, i, Added(r));
      assert RemoveAt(after, i) == w.pods;
      SumIsTotal(after, r);
      SumIsTotal(w.pods, r);
    case Remove(i) => DeleteLowers(w.pods, i, r);
    case Finish(i, phase) => TerminateLowers(w.pods, i, phase, r);
    case Recompute(c, order, _, _, _) => TotalIgnoresOrder(order, w.caches[c].pods);
    case _ =>
  }

  lemma SumIsTotal(pods: seq<Pod>, r: ResourceType)
    ensures Total(pods, r) == Sum(pods, Added(r))
  {
  }

  // ---------- runs ----------

  predicate ValidRun(w: World, steps: seq<Step>)
    decreases |steps|
  {
    steps != [] ==> Enabled(w, steps[0]) && ValidRun(Apply(w, steps[0]), steps[1..])
  }

  function After(w: World, steps: seq<Step>): World
    requires ValidRun(w, steps)
    decreases |steps|
  {
    if steps == [] then w else After(Apply(w, steps[0]), steps[1..])
  }

  lemma StartHolds(pods: seq<Pod>, spec: AllocationSpec)
    ensures Inv(Start(pods, spec))
  {
    hide Total, EffectiveRequest;
    forall r: ResourceType ensures Total([], r) == 0 {
      NothingAddsNothing(r);
    }
  }

  lemma NothingAddsNothing(r: ResourceType)
    ensures Total([], r) == 0
  {
  }

  lemma {:induction false} RunKeepsInv(w: World, steps: seq<Step>)
    requires Inv(w) && ValidRun(w, steps)
    ensures Inv(After(w, steps)) && After(w, steps).initial == w.initial
    decreases |steps|
  {
    hide Inv, Enabled, Apply;
    if steps != [] {
      StepKeepsInv(w, steps[0]);
      RunKeepsInv(Apply(w, steps[0]), steps[1..]);
    }
  }

  // ---------- the bound ----------

  /** The bound, over every interleaving and for every version of the status that any webhook
      holds, however late: what really runs is at most what its recount counted, plus what its
      store had not seen, plus the limits of the admissions it does not reflect. */
  lemma OvershootBound(pods: seq<Pod>, spec: AllocationSpec, steps: seq<Step>, p: Published, r: ResourceType)
    requires ValidRun(Start(pods, spec), steps) && p in After(Start(pods, spec), steps).delivered
    ensures var w := After(Start(pods, spec), steps);
      && w.initial == pods && p.revision <= |w.log|
      && Total(w.pods, r) <= p.counted.Of(r) + Unseen(w, p.synced, r) + Sum(w.log[p.revision..], LimitOf(r))
  {
    hide Total, Start;
    StartHolds(pods, spec);
    assert Start(pods, spec).initial == pods by { StartIsInitial(pods, spec); }
    RunKeepsInv(Start(pods, spec), steps);
    BoundInState(After(Start(pods, spec), steps), p, r);
  }

  lemma StartIsInitial(pods: seq<Pod>, spec: AllocationSpec)
    ensures Start(pods, spec).initial == pods
  {
  }

  lemma BoundInState(w: World, p: Published, r: ResourceType)
    requires Inv(w) && p in w.delivered
    ensures p in w.published && p.revision <= |w.log|
    ensures Total(w.pods, r) <= p.counted.Of(r) + Unseen(w, p.synced, r) + Sum(w.log[p.revision..], LimitOf(r))
  {
    hide Total, EffectiveRequest, ChargeWithin;
    assert Covers(w, p.counted.Of(r) + Unseen(w, p.synced, r), p.revision, r);
    var missing := w.log[p.revision..];
    forall e | e in missing ensures ChangeOf(r)(e) <= LimitOf(r)(e) {
      assert e in w.log;
    }
    SumMonotone(missing, ChangeOf(r), LimitOf(r));
  }

  /** What a status leaves out of its allocation: totals lost to wrap-around, and what ran before
      a store that had not synced. */
  function Missed(w: World, p: Published, r: ResourceType): int {
    p.counted.Of(r) - p.status.inUse.Of(r) + Unseen(w, p.synced, r)
  }

  /** Nothing is missed exactly when the counted total fits 64 bits and the store had synced or
      had nothing to see. */
  lemma NothingMissedIff(w: World, p: Published, r: ResourceType)
    requires Inv(w) && p in w.published
    ensures Missed(w, p, r) >= 0
    ensures Missed(w, p, r) == 0 <==> p.counted.Of(r) <= I64_MAX && (p.synced || Total(w.initial, r) == 0)
  {
    hide Total, WellFormed, CachesCover, StatusesCover, StartCovers;
    TotalNonNegative(w.initial, r);
    assert p.counted.Of(r) >= 0 && p.status.inUse.Of(r) == WrapI64(p.counted.Of(r));
  }

  /** The bound in terms of the allocation the status shows. */
  predicate PlainBound(w: World, r: ResourceType) {
    forall p :: p in w.delivered ==>
      && p.revision <= |w.log|
      && Total(w.pods, r) <= p.status.inUse.Of(r) + Sum(w.log[p.revision..], LimitOf(r))
  }

  /** Runs in which every delivered status counted a total that fits, from a synced store unless
      cold recounts are let through. */
  predicate Delivers(w: World, r: ResourceType, cold: bool) {
    forall p :: p in w.delivered ==> p.counted.Of(r) <= I64_MAX && (cold || p.synced)
  }

  ghost predicate PlainBoundAlways(pods: seq<Pod>, spec: AllocationSpec, r: ResourceType, cold: bool) {
    forall steps :: ValidRun(Start(pods, spec), steps) && Delivers(After(Start(pods, spec), steps), r, cold) ==>
      PlainBound(After(Start(pods, spec), steps), r)
  }

  lemma PlainBoundHolds(pods: seq<Pod>, spec: AllocationSpec, steps: seq<Step>, r: ResourceType, cold: bool)
    requires !cold || Total(pods, r) == 0
    requires ValidRun(Start(pods, spec), steps) && Delivers(After(Start(pods, spec), steps), r, cold)
    ensures PlainBound(After(Start(pods, spec), steps), r)
  {
    hide Total, Start, Inv;
    StartHolds(pods, spec);
    RunKeepsInv(Start(pods, spec), steps);
    var w := After(Start(pods, spec), steps);
    forall p | p in w.delivered
      ensures p.revision <= |w.log| && Total(w.pods, r) <= p.status.inUse.Of(r) + Sum(w.log[p.revision..], LimitOf(r))
    {
      OvershootBound(pods, spec, steps, p, r);
      BoundInState(w, p, r);
      NothingMissedIff(w, p, r);
    }
  }

  /** A recount and the delivery of its status leave everything else as it is. */
  lemma RecountAndDeliver(w: World, recount: Step, p: Published)
    requires recount.Recompute? && Enabled(w, recount)
    requires p == Recounted(w, recount.c, recount)
    ensures var steps := [recount] + [Deliver(|w.published|)];
      && ValidRun(w, steps)
      && After(w, steps) == w.(published := w.published + [p], delivered := w.delivered + [p])
  {
    hide Recounted, Allows, Persisted, Fitting, Judged, EntryFor, ValidRun, After;
    var counted := w.(published := w.published + [p]);
    assert Apply(w, recount) == counted;
    assert Apply(counted, Deliver(|w.published|)) == w.(published := w.published + [p], delivered := w.delivered + [p]);
    hide Apply;
    RunOfTwo(w, recount, Deliver(|w.published|));
  }

  /** The first recount the program makes: nothing waits for the pod store, so a controller that
      restarts over running pods publishes an allocation of 0, and a webhook may receive it. */
  lemma ColdRecount(pods: seq<Pod>, spec: AllocationSpec, supply: Figures, stamp: nat, r: ResourceType)
    ensures var steps := [Recompute(0, [], spec, supply, stamp)] + [Deliver(0)];
      && ValidRun(Start(pods, spec), steps)
      && var w := After(Start(pods, spec), steps);
         && w.pods == pods && w.log == [] && |w.delivered| == 1
         && w.delivered[0].counted.Of(r) == w.delivered[0].status.inUse.Of(r) == 0
         && (PlainBound(w, r) <==> Total(pods, r) == 0)
  {
    hide Total, Rfc3339FromUnix, CeilingSingle;
    NothingAddsNothing(Cpu);
    NothingAddsNothing(Memory);
    TotalNonNegative(pods, r);
    var recount, w := Recompute(0, [], spec, supply, stamp), Start(pods, spec);
    var p := Published(spec, NewStatus(recount), supply, TotalsOf([]), 0, false);
    assert p.counted == Room(0, 0) && p.status.inUse == Figures(0, 0);
    RecountAndDeliver(w, recount, p);
    hide NewStatus, TotalsOf, Enabled, Apply, ValidRun, After;
    var after := w.(published := [p], delivered := [p]);
    assert p in after.delivered && after.log[0..] == [];
  }

  /** Exactly when the plain bound holds over all runs: when nothing ran at the start, or when no
      status recounted from an unsynced store reaches a webhook. */
  lemma PlainBoundIff(pods: seq<Pod>, spec: AllocationSpec, r: ResourceType, cold: bool)
    ensures PlainBoundAlways(pods, spec, r, cold) <==> !cold || Total(pods, r) == 0
  {
    hide Total, Start, PlainBound, Delivers, ValidRun, After;
    if !cold || Total(pods, r) == 0 {
      forall steps | ValidRun(Start(pods, spec), steps) && Delivers(After(Start(pods, spec), steps), r, cold)
        ensures PlainBound(After(Start(pods, spec), steps), r)
      {
        PlainBoundHolds(pods, spec, steps, r, cold);
      }
    } else {
      TotalNonNegative(pods, r);
      ColdRecount(pods, spec, Figures(0, 0), 0, r);
      var steps := [Recompute(0, [], spec, Figures(0, 0), 0)] + [Deliver(0)];
      OneDelivered(After(Start(pods, spec), steps), r);
      assert ValidRun(Start(pods, spec), steps) && !PlainBound(After(Start(pods, spec), steps), r);
    }
  }

  lemma OneDelivered(w: World, r: ResourceType)
    requires |w.delivered| == 1 && w.delivered[0].counted.Of(r) == 0
    ensures Delivers(w, r, true)
  {
  }

  /** The other thing a status can miss: from any state whose real total leaves the 64-bit range,
      a sync, a recount and a delivery break the plain bound too. */
  lemma WrappedRecount(w: World, spec: AllocationSpec, supply: Figures, stamp: nat, r: ResourceType)
    requires Total(w.pods, r) > I64_MAX
    ensures var steps := [SyncPods] + ([Recompute(|w.caches|, w.pods, spec, supply, stamp)] + [Deliver(|w.published|)]);
      ValidRun(w, steps) && !PlainBound(After(w, steps), r)
  {
    hide Total, NewStatus, TotalsOf;
    var recount := Recompute(|w.caches|, w.pods, spec, supply, stamp);
    var synced := w.(caches := w.caches + [PodCache(w.pods, |w.log|, true)]);
    var p := Published(w.spec, NewStatus(recount), supply, TotalsOf(w.pods), |w.log|, true);
    RecountAndDeliver(synced, recount, p);
    RunCons(w, SyncPods, [recount] + [Deliver(|w.published|)]);
    hide Enabled, Apply, ValidRun, After;
    var after := synced.(published := w.published + [p], delivered := w.delivered + [p]);
    assert p in after.delivered && after.log[|w.log|..] == [];
    assert Sum([], LimitOf(r)) == 0 && p.status.inUse.Of(r) <= I64_MAX;
  }

  lemma RunCons(w: World, step: Step, rest: seq<Step>)
    requires Enabled(w, step) && ValidRun(Apply(w, step), rest)
    ensures ValidRun(w, [step] + rest)
    ensures After(w, [step] + rest) == After(Apply(w, step), rest)
  {
    hide Enabled, Apply;
    assert ([step] + rest)[1..] == rest;
  }

  lemma RunOfTwo(w: World, first: Step, second: Step)
    requires Enabled(w, first) && Enabled(Apply(w, first), second)
    ensures ValidRun(w, [first] + [second])
    ensures After(w, [first] + [second]) == Apply(Apply(w, first), second)
  {
    hide Enabled, Apply;
    RunCons(Apply(w, first), second, []);
    assert [second] + [] == [second];
    RunCons(w, first, [second]);
  }

  lemma {:induction false} RunAppend(w: World, a: seq<Step>, b: seq<Step>)
    requires ValidRun(w, a) && ValidRun(After(w, a), b)
    ensures ValidRun(w, a + b)
    ensures After(w, a + b) == After(After(w, a), b)
    decreases |a|
  {
    hide Enabled, Apply;
    if a == [] {
      assert a + b == b;
    } else {
      assert (a + b)[1..] == a[1..] + b;
      RunAppend(Apply(w, a[0]), a[1..], b);
    }
  }
}
