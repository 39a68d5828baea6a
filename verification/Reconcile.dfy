/** One equalizer cycle after the targets have been read: compute, patch, report. Each target's
    stored `Allocation` spec is one entry of the fleet. */
module Reconcile {
  import opened Wrappers
  import opened MachineInt
  import opened Sums
  import opened Quantity
  import opened Admission
  import opened Crd
  import opened Equalizer

  datatype ClusterState = Healthy | OverTarget | Unreachable | ConfigError

  datatype FleetCondition = AllHealthy | Compensating | Degraded

  /** A target after its secrets and statuses were fetched, or the way that failed. */
  datatype ResolvedTarget =
    | Read(name: string, cpuUtilization: real, memoryUtilization: real, cpuCapacity: I64, memoryCapacity: I64)
    | Failed(name: string, state: ClusterState, error: string)

  datatype EqualizerSpec = EqualizerSpec(cpuTarget: int, memoryTarget: int, targets: seq<string>) {
    function Target(resource: ResourceType): int {
      match resource
      case Cpu => cpuTarget
      case Memory => memoryTarget
    }
  }

  datatype ClusterObservation = ClusterObservation(
    name: string,
    cpuUtilization: real,
    memoryUtilization: real,
    cpuCapacity: I64,
    memoryCapacity: I64,
    cpuBudget: int,
    memoryBudget: int,
    state: ClusterState,
    lastError: Option<string>,
    lastObserved: string)

  datatype EqualizerStatus = EqualizerStatus(clusters: seq<ClusterObservation>, condition: FleetCondition,
                                             lastReconciled: string)

  type BudgetTable = map<string, ComputedBudget>

  // ---------- compute ----------

  function ObservationOf(read: ResolvedTarget, resource: ResourceType): Observation
    requires read.Read?
  {
    match resource
    case Cpu => Observation(read.name, read.cpuUtilization, read.cpuCapacity)
    case Memory => Observation(read.name, read.memoryUtilization, read.memoryCapacity)
  }

  function Observations(resolved: seq<ResolvedTarget>, resource: ResourceType): seq<Observation> {
    if resolved == [] then []
    else if resolved[0].Read? then [ObservationOf(resolved[0], resource)] + Observations(resolved[1..], resource)
    else Observations(resolved[1..], resource)
  }

  /** Budgets keyed by cluster name; a later entry replaces an earlier one. */
  function ByName(budgets: seq<ComputedBudget>): BudgetTable {
    if budgets == [] then map[]
    else
      var last := budgets[|budgets| - 1];
      ByName(budgets[..|budgets| - 1])[last.name := last]
  }

  function Table(spec: EqualizerSpec, resolved: seq<ResolvedTarget>, resource: ResourceType): BudgetTable {
    ByName(Equalized(Observations(resolved, resource), spec.Target(resource)))
  }

  function BudgetFor(table: BudgetTable, name: string, default: int): int {
    if name in table then table[name].budgetPercent else default
  }

  predicate IsFrozen(table: BudgetTable, name: string) {
    name in table && table[name].state == Over
  }

  // ---------- patch ----------

  datatype Patch = Patch(name: string, cpuBudget: int, memoryBudget: int)

  function PatchOf(spec: EqualizerSpec, cpu: BudgetTable, memory: BudgetTable, read: ResolvedTarget): Patch {
    Patch(read.name, BudgetFor(cpu, read.name, spec.cpuTarget), BudgetFor(memory, read.name, spec.memoryTarget))
  }

  function Patches(spec: EqualizerSpec, cpu: BudgetTable, memory: BudgetTable, resolved: seq<ResolvedTarget>)
    : seq<Patch>
  {
    if resolved == [] then []
    else if resolved[0].Read? then [PatchOf(spec, cpu, memory, resolved[0])] + Patches(spec, cpu, memory, resolved[1..])
    else Patches(spec, cpu, memory, resolved[1..])
  }

  /** The patches of one cycle: one for each target that was read. */
  function CyclePatches(spec: EqualizerSpec, resolved: seq<ResolvedTarget>): seq<Patch> {
    Patches(spec, Table(spec, resolved, Cpu), Table(spec, resolved, Memory), resolved)
  }

  type SpecStore = map<string, AllocationSpec>

  /** A patch sets the two overrides and leaves the rest of the spec alone; a refused patch
      changes nothing. */
  function ApplyPatch(specs: SpecStore, patch: Patch, refused: set<string>): SpecStore {
    if patch.name in specs && patch.name !in refused
    then specs[patch.name := specs[patch.name].(cpuBudgetPercent := Some(patch.cpuBudget),
                                                memoryBudgetPercent := Some(patch.memoryBudget))]
    else specs
  }

  function ApplyAll(specs: SpecStore, patches: seq<Patch>, refused: set<string>): SpecStore {
    if patches == [] then specs
    else ApplyPatch(ApplyAll(specs, patches[..|patches| - 1], refused), patches[|patches| - 1], refused)
  }

  // ---------- report ----------

  function BuildObservation(name: string, read: ResolvedTarget, cpu: BudgetTable, memory: BudgetTable,
                            spec: EqualizerSpec, now: string): ClusterObservation
  {
    match read
    case Read(_, cpuUtilization, memoryUtilization, cpuCapacity, memoryCapacity) =>
      ClusterObservation(
        name, cpuUtilization, memoryUtilization, cpuCapacity, memoryCapacity,
        BudgetFor(cpu, name, spec.cpuTarget), BudgetFor(memory, name, spec.memoryTarget),
        if IsFrozen(cpu, name) || IsFrozen(memory, name) then OverTarget else Healthy, None, now)
    case Failed(_, state, error) =>
      ClusterObservation(name, 0.0, 0.0, 0, 0, 0, 0, state, Some(error), "")
  }

  function Report(spec: EqualizerSpec, resolved: seq<ResolvedTarget>, now: string): (r: seq<ClusterObservation>)
    requires |resolved| == |spec.targets|
    ensures |r| == |resolved|
  {
    var cpu, memory := Table(spec, resolved, Cpu), Table(spec, resolved, Memory);
    seq(|resolved|, i requires 0 <= i < |resolved| =>
      BuildObservation(spec.targets[i], resolved[i], cpu, memory, spec, now))
  }

  function ConditionOf(states: seq<ClusterState>): FleetCondition {
    if exists s :: s in states && (s == Unreachable || s == ConfigError) then Degraded
    else if OverTarget in states then Compensating
    else AllHealthy
  }

  function States(clusters: seq<ClusterObservation>): (r: seq<ClusterState>)
    ensures |r| == |clusters|
  {
    seq(|clusters|, i requires 0 <= i < |clusters| => clusters[i].state)
  }

  class Fleet {
    var specs: SpecStore

    /** A merge patch of the two overrides: no other target and no other field changes, and a
        refused patch changes nothing at all. */
    method PatchOverrides(patch: Patch, refused: set<string>) returns (ok: bool)
      modifies this
      ensures ok <==> patch.name in old(specs) && patch.name !in refused
      ensures specs.Keys == old(specs).Keys
      ensures forall name :: name in specs && name != patch.name ==> specs[name] == old(specs)[name]
      ensures !ok ==> specs == old(specs)
      ensures ok ==>
        var before, after := old(specs)[patch.name], specs[patch.name];
        && after.cpuBudgetPercent == Some(patch.cpuBudget) && after.memoryBudgetPercent == Some(patch.memoryBudget)
        && after.budgetPercent == before.budgetPercent && after.enforcementMode == before.enforcementMode
        && after.excludedNamespaces == before.excludedNamespaces
        && after.excludedPriorityClasses == before.excludedPriorityClasses
    {
      ok := patch.name in specs && patch.name !in refused;
      if ok {
        specs := specs[patch.name := specs[patch.name].(cpuBudgetPercent := Some(patch.cpuBudget),
                                                        memoryBudgetPercent := Some(patch.memoryBudget))];
      }
    }

    /** The cycle from the resolved targets on. A refused patch is logged and does not stop the others. */
    method Reconcile(spec: EqualizerSpec, resolved: seq<ResolvedTarget>, refused: set<string>, now: string)
      returns (status: EqualizerStatus)
      requires |resolved| == |spec.targets|
      modifies this
      ensures specs == ApplyAll(old(specs), CyclePatches(spec, resolved), refused)
      ensures status.clusters == Report(spec, resolved, now) && status.lastReconciled == now
      ensures status.condition == ConditionOf(States(status.clusters))
    {
      hide Equalized;
      var cpuBudgets := Equalize(Observations(resolved, Cpu), spec.cpuTarget);
      var memoryBudgets := Equalize(Observations(resolved, Memory), spec.memoryTarget);
      var cpu, memory := ByName(cpuBudgets), ByName(memoryBudgets);
      var patches := Patches(spec, cpu, memory, resolved);
      var i := 0;
      while i < |patches|
        invariant 0 <= i <= |patches|
        invariant specs == ApplyAll(old(specs), patches[..i], refused)
      {
        assert patches[..i + 1][..i] == patches[..i];
        ghost var before := specs;
        var ok := PatchOverrides(patches[i], refused);
        assert specs == ApplyPatch(before, patches[i], refused);
        i := i + 1;
      }
      assert patches[..|patches|] == patches;
      var clusters := Report(spec, resolved, now);
      status := EqualizerStatus(clusters, ConditionOf(States(clusters)), now);
    }
  }

  // ---------- every cluster gets its own result ----------

  /** The result the formula gives one cluster, without any reordering or lookup. */
  function OwnBudget(o: Observation, obs: seq<Observation>, target: int): ComputedBudget {
    if IsOver(o, target) then Frozen(o) else Reduced(target, FleetShare(obs, target), o)
  }

  predicate UniqueNames(obs: seq<Observation>) {
    forall a, b :: a in obs && b in obs && a.name == b.name ==> a == b
  }

  lemma {:induction false} LookupFinds(budgets: seq<ComputedBudget>, name: string)
    ensures name in ByName(budgets) <==> exists b :: b in budgets && b.name == name
    ensures name in ByName(budgets) ==> ByName(budgets)[name] in budgets && ByName(budgets)[name].name == name
  {
    if budgets != [] {
      var front, last := budgets[..|budgets| - 1], budgets[|budgets| - 1];
      LookupFinds(front, name);
      assert budgets == front + [last];
    }
  }

  lemma ResultsComeFromClusters(obs: seq<Observation>, target: int)
    ensures forall b :: b in Equalized(obs, target) ==>
      exists o :: o in obs && o.name == b.name && b == OwnBudget(o, obs, target)
  {
    hide Frozen, Reduced, FleetShare, IsOver;
    var over, good, results := OverOf(obs, target), GoodOf(obs, target), Equalized(obs, target);
    forall b | b in results ensures exists o :: o in obs && o.name == b.name && b == OwnBudget(o, obs, target) {
      var i :| 0 <= i < |results| && results[i] == b;
      var o := if i < |over| then over[i] else good[i - |over|];
      assert o in obs && b == OwnBudget(o, obs, target);
      NamesKept(o, target, FleetShare(obs, target));
    }
  }

  lemma ClusterHasResult(obs: seq<Observation>, target: int, o: Observation)
    requires o in obs
    ensures OwnBudget(o, obs, target) in Equalized(obs, target)
  {
    hide Frozen, Reduced, FleetShare, IsOver;
    var over, good, results := OverOf(obs, target), GoodOf(obs, target), Equalized(obs, target);
    PartitionKeepsAll(obs, target);
    assert o in multiset(over) + multiset(good);
    if o in over {
      var i :| 0 <= i < |over| && over[i] == o;
      assert results[i] == OwnBudget(o, obs, target);
    } else {
      var i :| 0 <= i < |good| && good[i] == o;
      assert results[|over| + i] == OwnBudget(o, obs, target);
    }
  }

  lemma NamesKept(o: Observation, target: int, share: int)
    ensures Frozen(o).name == o.name && Reduced(target, share, o).name == o.name
  {
  }

  /** The lookup by name undoes the reordering: with unique names each cluster finds the result
      of its own observation. */
  lemma LookupIsOwn(obs: seq<Observation>, target: int, o: Observation)
    requires UniqueNames(obs) && o in obs
    ensures o.name in ByName(Equalized(obs, target))
    ensures ByName(Equalized(obs, target))[o.name] == OwnBudget(o, obs, target)
  {
    ResultsComeFromClusters(obs, target);
    ClusterHasResult(obs, target, o);
    LookupFinds(Equalized(obs, target), o.name);
    NamesKept(o, target, FleetShare(obs, target));
    hide Equalized, Frozen, Reduced, FleetShare, IsOver;
    assert OwnBudget(o, obs, target) in Equalized(obs, target);
  }

  // ---------- failure isolation ----------

  predicate ReadsMatch(spec: EqualizerSpec, resolved: seq<ResolvedTarget>) {
    && |resolved| == |spec.targets|
    && (forall i :: 0 <= i < |resolved| ==> resolved[i].name == spec.targets[i])
    && (forall i, j :: 0 <= i < j < |resolved| ==> resolved[i].name != resolved[j].name)
    && (forall i :: 0 <= i < |resolved| && resolved[i].Failed? ==> resolved[i].state in {Unreachable, ConfigError})
  }

  function OnlyRead(resolved: seq<ResolvedTarget>): seq<ResolvedTarget> {
    if resolved == [] then []
    else if resolved[0].Read? then [resolved[0]] + OnlyRead(resolved[1..])
    else OnlyRead(resolved[1..])
  }

  /** Failed targets do not influence anybody's budget: dropping them from the fleet leaves
      both tables and all patches as they are. */
  lemma FailuresDoNotSpread(spec: EqualizerSpec, resolved: seq<ResolvedTarget>)
    ensures forall r: ResourceType :: Table(spec, OnlyRead(resolved), r) == Table(spec, resolved, r)
    ensures CyclePatches(spec, OnlyRead(resolved)) == CyclePatches(spec, resolved)
  {
    forall r: ResourceType ensures Observations(OnlyRead(resolved), r) == Observations(resolved, r) {
      ObservationsOfRead(resolved, r);
    }
    PatchesOfRead(spec, Table(spec, resolved, Cpu), Table(spec, resolved, Memory), resolved);
    hide Equalized;
  }

  lemma {:induction false} ObservationsOfRead(resolved: seq<ResolvedTarget>, r: ResourceType)
    ensures Observations(OnlyRead(resolved), r) == Observations(resolved, r)
  {
    if resolved != [] {
      ObservationsOfRead(resolved[1..], r);
      if resolved[0].Read? {
        assert OnlyRead(resolved)[1..] == OnlyRead(resolved[1..]);
      }
    }
  }

  lemma {:induction false} PatchesOfRead(spec: EqualizerSpec, cpu: BudgetTable, memory: BudgetTable,
                                         resolved: seq<ResolvedTarget>)
    ensures Patches(spec, cpu, memory, OnlyRead(resolved)) == Patches(spec, cpu, memory, resolved)
  {
    if resolved != [] {
      PatchesOfRead(spec, cpu, memory, resolved[1..]);
      if resolved[0].Read? {
        assert OnlyRead(resolved)[1..] == OnlyRead(resolved[1..]);
      }
    }
  }

  lemma {:induction false} ObservationsHold(resolved: seq<ResolvedTarget>, r: ResourceType, o: Observation)
    ensures o in Observations(resolved, r)
       <==> exists i :: 0 <= i < |resolved| && resolved[i].Read? && o == ObservationOf(resolved[i], r)
  {
    if resolved != [] {
      ObservationsHold(resolved[1..], r, o);
      if o in Observations(resolved[1..], r) {
        var i :| 0 <= i < |resolved[1..]| && resolved[1..][i].Read? && o == ObservationOf(resolved[1..][i], r);
        assert resolved[i + 1] == resolved[1..][i];
      }
      if i :| 0 <= i < |resolved| && resolved[i].Read? && o == ObservationOf(resolved[i], r) {
        if i > 0 {
          assert resolved[1..][i - 1] == resolved[i];
        }
      }
    }
  }

  lemma ObservationsUnique(spec: EqualizerSpec, resolved: seq<ResolvedTarget>, r: ResourceType)
    requires ReadsMatch(spec, resolved)
    ensures UniqueNames(Observations(resolved, r))
  {
    forall a, b | a in Observations(resolved, r) && b in Observations(resolved, r) && a.name == b.name ensures a == b {
      ObservationsHold(resolved, r, a);
      ObservationsHold(resolved, r, b);
      var i :| 0 <= i < |resolved| && resolved[i].Read? && a == ObservationOf(resolved[i], r);
      var j :| 0 <= j < |resolved| && resolved[j].Read? && b == ObservationOf(resolved[j], r);
      assert resolved[i].name == resolved[j].name;
    }
  }

  /** The result a target gets for one resource. */
  function OwnResult(spec: EqualizerSpec, resolved: seq<ResolvedTarget>, i: nat, r: ResourceType): ComputedBudget
    requires i < |resolved| && resolved[i].Read?
  {
    OwnBudget(ObservationOf(resolved[i], r), Observations(resolved, r), spec.Target(r))
  }

  lemma TableIsOwn(spec: EqualizerSpec, resolved: seq<ResolvedTarget>, i: nat, r: ResourceType)
    requires ReadsMatch(spec, resolved) && i < |resolved| && resolved[i].Read?
    ensures resolved[i].name in Table(spec, resolved, r)
    ensures Table(spec, resolved, r)[resolved[i].name] == OwnResult(spec, resolved, i, r)
  {
    ObservationsUnique(spec, resolved, r);
    ObservationsHold(resolved, r, ObservationOf(resolved[i], r));
    LookupIsOwn(Observations(resolved, r), spec.Target(r), ObservationOf(resolved[i], r));
    hide Equalized, OwnBudget;
  }

  /** Each target is reported in spec order: a reachable one with its own two results, a failed
      one with its error and no budget. */
  lemma ReportIsOwn(spec: EqualizerSpec, resolved: seq<ResolvedTarget>, now: string, i: nat)
    requires ReadsMatch(spec, resolved) && i < |resolved|
    ensures var c := Report(spec, resolved, now)[i];
      && c.name == spec.targets[i]
      && (resolved[i].Read? ==>
            var cpu, memory := OwnResult(spec, resolved, i, Cpu), OwnResult(spec, resolved, i, Memory);
            && c.cpuBudget == cpu.budgetPercent && c.memoryBudget == memory.budgetPercent
            && (c.cpuUtilization, c.cpuCapacity) == (resolved[i].cpuUtilization, resolved[i].cpuCapacity)
            && (c.memoryUtilization, c.memoryCapacity) == (resolved[i].memoryUtilization, resolved[i].memoryCapacity)
            && c.lastError == None && c.lastObserved == now && c.state in {Healthy, OverTarget}
            && (c.state == OverTarget <==> cpu.state == Over || memory.state == Over))
      && (resolved[i].Failed? ==>
            && c.state == resolved[i].state && c.lastError == Some(resolved[i].error) && c.lastObserved == ""
            && c.cpuBudget == c.memoryBudget == c.cpuCapacity == c.memoryCapacity == 0
            && c.cpuUtilization == c.memoryUtilization == 0.0)
  {
    hide Table, OwnBudget;
    if resolved[i].Read? {
      TableIsOwn(spec, resolved, i, Cpu);
      TableIsOwn(spec, resolved, i, Memory);
    }
  }

  lemma {:induction false} PatchesHold(spec: EqualizerSpec, cpu: BudgetTable, memory: BudgetTable,
                                       resolved: seq<ResolvedTarget>, p: Patch)
    ensures p in Patches(spec, cpu, memory, resolved)
       <==> exists i :: 0 <= i < |resolved| && resolved[i].Read? && p == PatchOf(spec, cpu, memory, resolved[i])
  {
    hide PatchOf;
    if resolved != [] {
      PatchesHold(spec, cpu, memory, resolved[1..], p);
      if p in Patches(spec, cpu, memory, resolved[1..]) {
        var i :| 0 <= i < |resolved[1..]| && resolved[1..][i].Read?
                 && p == PatchOf(spec, cpu, memory, resolved[1..][i]);
        assert resolved[i + 1] == resolved[1..][i];
      }
      if i :| 0 <= i < |resolved| && resolved[i].Read? && p == PatchOf(spec, cpu, memory, resolved[i]) {
        if i > 0 {
          assert resolved[1..][i - 1] == resolved[i];
        }
      }
    }
  }

  /** Where the patches that reach a name all say the same, the spec ends up with exactly those
      overrides and everything else as before; a name without a patch keeps its spec. */
  lemma {:induction false} ApplyAllAt(specs: SpecStore, patches: seq<Patch>, refused: set<string>, name: string,
                                      cpuBudget: int, memoryBudget: int)
    requires forall p :: p in patches && p.name == name ==> p == Patch(name, cpuBudget, memoryBudget)
    ensures ApplyAll(specs, patches, refused).Keys == specs.Keys
    ensures name in specs ==>
      ApplyAll(specs, patches, refused)[name] ==
        if Patch(name, cpuBudget, memoryBudget) in patches && name !in refused
        then specs[name].(cpuBudgetPercent := Some(cpuBudget), memoryBudgetPercent := Some(memoryBudget))
        else specs[name]
  {
    if patches != [] {
      var front, last := patches[..|patches| - 1], patches[|patches| - 1];
      assert patches == front + [last];
      ApplyAllAt(specs, front, refused, name, cpuBudget, memoryBudget);
    }
  }

  /** After a cycle a reachable target whose patch is accepted holds its own two results as
      overrides and is otherwise unchanged; failed and refused targets keep their whole spec. */
  lemma StoredSpecIsOwn(spec: EqualizerSpec, resolved: seq<ResolvedTarget>, specs: SpecStore,
                        refused: set<string>, i: nat)
    requires ReadsMatch(spec, resolved) && i < |resolved| && spec.targets[i] in specs
    ensures var name := spec.targets[i];
      var after := ApplyAll(specs, CyclePatches(spec, resolved), refused);
      && after.Keys == specs.Keys
      && after[name] ==
           (if resolved[i].Read? && name !in refused
           then specs[name].(cpuBudgetPercent := Some(OwnResult(spec, resolved, i, Cpu).budgetPercent),
                             memoryBudgetPercent := Some(OwnResult(spec, resolved, i, Memory).budgetPercent))
           else specs[name])
      && (resolved[i].Read? && name !in refused ==>
            ResolveEffectiveBudgets(after[name]) == Budgets(OwnResult(spec, resolved, i, Cpu).budgetPercent,
                                                            OwnResult(spec, resolved, i, Memory).budgetPercent))
  {
    hide Table, OwnBudget;
    var cpu, memory, name := Table(spec, resolved, Cpu), Table(spec, resolved, Memory), spec.targets[i];
    var patches := Patches(spec, cpu, memory, resolved);
    var own := PatchOf(spec, cpu, memory, resolved[i]);
    forall p | p in patches && p.name == name ensures p == own && resolved[i].Read? {
      PatchesHold(spec, cpu, memory, resolved, p);
      var j :| 0 <= j < |resolved| && resolved[j].Read? && p == PatchOf(spec, cpu, memory, resolved[j]);
      assert resolved[j].name == resolved[i].name && j == i;
    }
    PatchesHold(spec, cpu, memory, resolved, own);
    ApplyAllAt(specs, patches, refused, name, own.cpuBudget, own.memoryBudget);
    if resolved[i].Read? {
      TableIsOwn(spec, resolved, i, Cpu);
      TableIsOwn(spec, resolved, i, Memory);
    }
  }

  // ---------- what the budgets are made of ----------

  /** The CPU readings of the fleet, in order. */
  function CpuReadings(resolved: seq<ResolvedTarget>): seq<Observation> {
    if resolved == [] then []
    else
      match resolved[0]
      case Read(name, cpuUtilization, _, cpuCapacity, _) =>
        [Observation(name, cpuUtilization, cpuCapacity)] + CpuReadings(resolved[1..])
      case Failed(_, _, _) => CpuReadings(resolved[1..])
  }

  /** The memory readings of the fleet, in order. */
  function MemoryReadings(resolved: seq<ResolvedTarget>): seq<Observation> {
    if resolved == [] then []
    else
      match resolved[0]
      case Read(name, _, memoryUtilization, _, memoryCapacity) =>
        [Observation(name, memoryUtilization, memoryCapacity)] + MemoryReadings(resolved[1..])
      case Failed(_, _, _) => MemoryReadings(resolved[1..])
  }

  lemma {:induction false} ObservationsAreReadings(resolved: seq<ResolvedTarget>)
    ensures Observations(resolved, Cpu) == CpuReadings(resolved)
    ensures Observations(resolved, Memory) == MemoryReadings(resolved)
  {
    if resolved != [] {
      ObservationsAreReadings(resolved[1..]);
    }
  }

  /** The budget of one reading: its own use where that is above the target, else the target less
      its part of the fleet's overflow. */
  function BudgetOfReading(utilization: real, capacity: I64, fleet: seq<Observation>, target: int): int {
    if utilization > target as real then Clamp(utilization.Floor, 0, 100)
    else GoodBudget(target, FleetShare(fleet, target), capacity)
  }

  /** What is reported of a reachable target, by its own readings: the CPU budget comes from CPU
      readings alone and the memory budget from memory readings alone, and it is over target
      exactly when one of its two readings is. */
  lemma ReportFollowsReadings(spec: EqualizerSpec, resolved: seq<ResolvedTarget>, now: string, i: nat)
    requires ReadsMatch(spec, resolved) && i < |resolved| && resolved[i].Read?
    ensures var c, read := Report(spec, resolved, now)[i], resolved[i];
      && (c.state == OverTarget <==> read.cpuUtilization > spec.cpuTarget as real
                                     || read.memoryUtilization > spec.memoryTarget as real)
      && c.cpuBudget == BudgetOfReading(read.cpuUtilization, read.cpuCapacity, CpuReadings(resolved), spec.cpuTarget)
      && c.memoryBudget == BudgetOfReading(read.memoryUtilization, read.memoryCapacity, MemoryReadings(resolved),
                                           spec.memoryTarget)
  {
    hide Report, FleetShare, GoodBudget;
    ReportIsOwn(spec, resolved, now, i);
    ObservationsAreReadings(resolved);
    hide Observations, CpuReadings, MemoryReadings;
  }

  /** Two fleets agree on one resource. */
  predicate SameCpu(a: ResolvedTarget, b: ResolvedTarget) {
    && a.name == b.name && (a.Read? <==> b.Read?)
    && (a.Read? ==> a.cpuUtilization == b.cpuUtilization && a.cpuCapacity == b.cpuCapacity)
  }

  predicate SameMemory(a: ResolvedTarget, b: ResolvedTarget) {
    && a.name == b.name && (a.Read? <==> b.Read?)
    && (a.Read? ==> a.memoryUtilization == b.memoryUtilization && a.memoryCapacity == b.memoryCapacity)
  }

  lemma {:induction false} SameReadings(a: seq<ResolvedTarget>, b: seq<ResolvedTarget>)
    requires |a| == |b|
    ensures (forall j :: 0 <= j < |a| ==> SameCpu(a[j], b[j])) ==> CpuReadings(a) == CpuReadings(b)
    ensures (forall j :: 0 <= j < |a| ==> SameMemory(a[j], b[j])) ==> MemoryReadings(a) == MemoryReadings(b)
  {
    if a != [] {
      SameReadings(a[1..], b[1..]);
      assert forall j :: 0 <= j < |a| - 1 ==> a[1..][j] == a[j + 1] && b[1..][j] == b[j + 1];
    }
  }

  /** The resources do not mix: whatever happens to memory readings and the memory target, the CPU
      budgets stay, and the other way round. */
  lemma ResourcesAreIndependent(spec: EqualizerSpec, a: seq<ResolvedTarget>, spec': EqualizerSpec,
                                b: seq<ResolvedTarget>, now: string, i: nat)
    requires ReadsMatch(spec, a) && ReadsMatch(spec', b) && |a| == |b| && i < |a| && a[i].Read? && b[i].Read?
    ensures spec.cpuTarget == spec'.cpuTarget && (forall j :: 0 <= j < |a| ==> SameCpu(a[j], b[j])) ==>
      Report(spec, a, now)[i].cpuBudget == Report(spec', b, now)[i].cpuBudget
    ensures spec.memoryTarget == spec'.memoryTarget && (forall j :: 0 <= j < |a| ==> SameMemory(a[j], b[j])) ==>
      Report(spec, a, now)[i].memoryBudget == Report(spec', b, now)[i].memoryBudget
  {
    ReportFollowsReadings(spec, a, now, i);
    ReportFollowsReadings(spec', b, now, i);
    SameReadings(a, b);
    hide Report, CpuReadings, MemoryReadings, BudgetOfReading, ReadsMatch;
  }

  /** What is stored is what is reported: the overrides of a reachable target whose patch was
      accepted are the two budgets of its report. */
  lemma StoredIsReported(spec: EqualizerSpec, resolved: seq<ResolvedTarget>, specs: SpecStore,
                         refused: set<string>, now: string, i: nat)
    requires ReadsMatch(spec, resolved) && i < |resolved| && resolved[i].Read?
    requires spec.targets[i] in specs && spec.targets[i] !in refused
    ensures var name, c := spec.targets[i], Report(spec, resolved, now)[i];
      var after := ApplyAll(specs, CyclePatches(spec, resolved), refused);
      && name in after
      && after[name].cpuBudgetPercent == Some(c.cpuBudget) && after[name].memoryBudgetPercent == Some(c.memoryBudget)
  {
    hide Report, CyclePatches, OwnResult;
    ReportIsOwn(spec, resolved, now, i);
    StoredSpecIsOwn(spec, resolved, specs, refused, i);
  }

  // ---------- the fleet condition ----------

  function Severity(s: ClusterState): FleetCondition {
    match s
    case Healthy => AllHealthy
    case OverTarget => Compensating
    case Unreachable => Degraded
    case ConfigError => Degraded
  }

  function Rank(c: FleetCondition): nat {
    match c
    case AllHealthy => 0
    case Compensating => 1
    case Degraded => 2
  }

  /** The condition is the severity maximum: as bad as the worst cluster, and no worse. */
  lemma ConditionIsMaximum(states: seq<ClusterState>)
    ensures forall s :: s in states ==> Rank(Severity(s)) <= Rank(ConditionOf(states))
    ensures ConditionOf(states) == AllHealthy || exists s :: s in states && Severity(s) == ConditionOf(states)
  {
  }

  /** It distributes over concatenation and does not depend on the order. */
  lemma ConditionOfParts(a: seq<ClusterState>, b: seq<ClusterState>)
    ensures Rank(ConditionOf(a + b)) == Max(Rank(ConditionOf(a)), Rank(ConditionOf(b)))
    ensures multiset(a) == multiset(b) ==> ConditionOf(a) == ConditionOf(b)
  {
    ConditionIsMaximum(a);
    ConditionIsMaximum(b);
    ConditionIsMaximum(a + b);
    hide ConditionOf, Severity;
    forall s ensures s in a + b <==> s in a || s in b {
    }
    if multiset(a) == multiset(b) {
      SameMembers(a, b);
      assert forall s :: s in a ==> Rank(Severity(s)) <= Rank(ConditionOf(b));
      assert forall s :: s in b ==> Rank(Severity(s)) <= Rank(ConditionOf(a));
    }
  }
}
