/** The demand side: what the running pods ask for together, and the status built from it. */
module AllocationController {
  import opened Wrappers
  import opened MachineInt
  import opened Sums
  import opened Quantity
  import opened Containers
  import opened Admission
  import opened Crd

  datatype Pod = Pod(phase: Option<string>, spec: Option<PodSpec>)

  predicate IsNonTerminal(phase: Option<string>) {
    phase != Some("Failed") && phase != Some("Succeeded")
  }

  /** What one pod adds to the allocation: nothing once it has ended, nothing without a spec,
      nothing if a quantity does not parse. */
  function Added(resource: ResourceType): Pod -> int {
    (p: Pod) =>
      if IsNonTerminal(p.phase) && p.spec.Some? && PodRequests(p.spec.value).Ok?
      then PodRequests(p.spec.value).value.Of(resource) else 0
  }

  /** The allocation over unbounded integers. */
  function Total(pods: seq<Pod>, resource: ResourceType): int {
    Sum(pods, Added(resource))
  }

  /** The same total in 64-bit arithmetic. */
  function MachineTotal(pods: seq<Pod>): Figures {
    Figures(WrapI64(Total(pods, Cpu)), WrapI64(Total(pods, Memory)))
  }

  method SumPodAllocation(pods: seq<Pod>) returns (inUse: Figures)
    ensures inUse == MachineTotal(pods)
  {
    hide PodRequests;
    inUse := Figures(0, 0);
    var i := 0;
    while i < |pods|
      invariant 0 <= i <= |pods|
      invariant inUse == MachineTotal(pods[..i])
    {
      var pod := pods[i];
      TotalStep(pods, i);
      if IsNonTerminal(pod.phase) && pod.spec.Some? {
        var request := PodRequests(pod.spec.value);
        if request.Ok? {
          inUse := Figures(WrapI64(inUse.cpu + request.value.cpu),
                               WrapI64(inUse.memory + request.value.memory));
        }
      }
      i := i + 1;
    }
    assert pods[..|pods|] == pods;
  }

  lemma TotalStep(pods: seq<Pod>, i: nat)
    requires i < |pods|
    ensures var before := MachineTotal(pods[..i]);
      MachineTotal(pods[..i + 1]) == Figures(WrapI64(before.cpu + Added(Cpu)(pods[i])),
                                             WrapI64(before.memory + Added(Memory)(pods[i])))
  {
    hide Added;
    SumStep(pods, i, Added(Cpu));
    SumStep(pods, i, Added(Memory));
    WrapAbsorbs(Total(pods[..i], Cpu), Added(Cpu)(pods[i]));
    WrapAbsorbs(Total(pods[..i], Memory), Added(Memory)(pods[i]));
  }

  function Ratio(inUse: I64, ceiling: I64): real {
    if ceiling == 0 then 0.0 else inUse as real / ceiling as real
  }

  function BuildAllocationStatus(inUse: Figures, totalSupply: Figures, budgets: Budgets, now: string)
    : AllocationStatus
  {
    var ceilings := CeilingPerResource(totalSupply, budgets);
    AllocationStatus(inUse, ceilings, Ratio(inUse.cpu, ceilings.cpu),
                     Ratio(inUse.memory, ceilings.memory), budgets, now)
  }

  /** The reported utilization is the plain ratio of allocation to ceiling: it passes 1 exactly
      when the allocation passes a positive ceiling, and is 0 without one. */
  lemma UtilizationIsRatio(inUse: Figures, supply: Figures, budgets: Budgets, now: string)
    ensures var status := BuildAllocationStatus(inUse, supply, budgets, now);
      && IsRatio(status.utilizationCpu, inUse.cpu, status.ceiling.cpu)
      && IsRatio(status.utilizationMemory, inUse.memory, status.ceiling.memory)
  {
    hide CeilingSingle;
    RatioAgainstOne(inUse.cpu, CeilingSingle(supply.cpu, budgets.cpu));
    RatioAgainstOne(inUse.memory, CeilingSingle(supply.memory, budgets.memory));
  }

  /** What a status carries for a spec: the figures it was built from, the percentage of each
      resource's own override or else of the common budget, and that percentage of each resource's
      own supply as its ceiling. */
  lemma StatusFollowsSpec(inUse: Figures, supply: Figures, spec: AllocationSpec, now: string, x: int)
    ensures var status := BuildAllocationStatus(inUse, supply, ResolveEffectiveBudgets(spec), now);
      var cpu := if spec.cpuBudgetPercent.Some? then spec.cpuBudgetPercent.value else spec.budgetPercent;
      var memory := if spec.memoryBudgetPercent.Some? then spec.memoryBudgetPercent.value else spec.budgetPercent;
      && status.inUse == inUse && status.lastUpdated == now && status.effectiveBudgets == Budgets(cpu, memory)
      && (supply.cpu >= 0 ==> (x <= status.ceiling.cpu <==> 100 * x <= supply.cpu * Clamp(cpu, 0, 100)))
      && (supply.memory >= 0 ==> (x <= status.ceiling.memory <==> 100 * x <= supply.memory * Clamp(memory, 0, 100)))
  {
    hide CeilingSingle;
    var budgets := ResolveEffectiveBudgets(spec);
    if supply.cpu >= 0 {
      CeilingIsFloor(supply.cpu, budgets.cpu, x);
    }
    if supply.memory >= 0 {
      CeilingIsFloor(supply.memory, budgets.memory, x);
    }
  }

  predicate IsRatio(utilization: real, inUse: I64, ceiling: I64) {
    && (ceiling == 0 ==> utilization == 0.0)
    && (ceiling != 0 ==> utilization * ceiling as real == inUse as real)
    && (ceiling > 0 ==> (utilization > 1.0 <==> inUse > ceiling))
  }

  lemma RatioAgainstOne(inUse: I64, ceiling: I64)
    ensures IsRatio(Ratio(inUse, ceiling), inUse, ceiling)
  {
    if ceiling != 0 {
      QuotientAgainstOne(inUse as real, ceiling as real);
    }
  }

  lemma QuotientAgainstOne(a: real, c: real)
    requires c != 0.0
    ensures a / c * c == a
    ensures c > 0.0 ==> (a / c > 1.0 <==> a > c)
  {
  }

  // ---------- facts ----------

  lemma AddedNonNegative(p: Pod, resource: ResourceType)
    ensures 0 <= Added(resource)(p) <= I64_MAX
  {
  }

  lemma TotalNonNegative(pods: seq<Pod>, resource: ResourceType)
    ensures Total(pods, resource) >= 0
  {
    hide Added;
    forall p | p in pods ensures Added(resource)(p) >= 0 {
      AddedNonNegative(p, resource);
    }
    SumNonNegative(pods, Added(resource));
  }

  /** The reported allocation is the true total exactly while the total fits 64 bits. */
  lemma ReportedIsTotal(pods: seq<Pod>, resource: ResourceType)
    ensures MachineTotal(pods).Of(resource) == Total(pods, resource) <==> Total(pods, resource) <= I64_MAX
  {
    TotalNonNegative(pods, resource);
  }

  /** What one more pod does to the reported allocation: nothing if it has failed or succeeded, in
      any other phase and in none its readable request. */
  lemma PodCounts(pods: seq<Pod>, pod: Pod, resource: ResourceType)
    ensures var ended := pod.phase == Some("Failed") || pod.phase == Some("Succeeded");
      var asked := if pod.spec.Some? && PodRequests(pod.spec.value).Ok?
                   then PodRequests(pod.spec.value).value.Of(resource) else 0;
      && Total(pods + [pod], resource) == Total(pods, resource) + (if ended then 0 else asked)
      && MachineTotal(pods + [pod]).Of(resource)
           == WrapI64(MachineTotal(pods).Of(resource) + (if ended then 0 else asked))
  {
    hide PodRequests;
    SumAppend(pods, [pod], Added(resource));
    assert Sum([pod], Added(resource)) == Added(resource)(pod);
    WrapAbsorbs(Total(pods, resource), Added(resource)(pod));
  }

  /** The order in which the cache lists the pods does not matter. */
  lemma TotalIgnoresOrder(pods: seq<Pod>, pods': seq<Pod>)
    requires multiset(pods) == multiset(pods')
    ensures MachineTotal(pods) == MachineTotal(pods')
    ensures forall resource: ResourceType :: Total(pods, resource) == Total(pods', resource)
  {
    hide Added;
    SumPermutation(pods, pods', Added(Cpu));
    SumPermutation(pods, pods', Added(Memory));
    forall resource: ResourceType ensures Total(pods, resource) == Total(pods', resource) {
      assert resource == Cpu || resource == Memory;
    }
  }

  /** Deleting a pod takes away exactly what it added. */
  lemma DeleteLowers(pods: seq<Pod>, i: nat, resource: ResourceType)
    requires i < |pods|
    ensures Total(RemoveAt(pods, i), resource) == Total(pods, resource) - Added(resource)(pods[i])
    ensures Total(RemoveAt(pods, i), resource) <= Total(pods, resource)
  {
    hide Added;
    SumRemove(pods, i, Added(resource));
    AddedNonNegative(pods[i], resource);
  }

  /** A pod that ends gives back exactly what it added. */
  lemma TerminateLowers(pods: seq<Pod>, i: nat, phase: string, resource: ResourceType)
    requires i < |pods| && (phase == "Failed" || phase == "Succeeded")
    ensures Total(pods[i := pods[i].(phase := Some(phase))], resource)
         == Total(pods, resource) - Added(resource)(pods[i])
    ensures Total(pods[i := pods[i].(phase := Some(phase))], resource) <= Total(pods, resource)
  {
    hide PodRequests;
    SumReplace(pods, i, pods[i].(phase := Some(phase)), Added(resource));
    AddedNonNegative(pods[i], resource);
  }

  /** The one supply and budget whose ceiling no 64-bit projection can exceed. */
  predicate Unlimited(supply: I64, budgetPercent: int) {
    supply == I64_MAX && budgetPercent >= 100
  }

  /** The promise, over unbounded integers: 100 times what would then be allocated stays within
      supply times the clamped percentage. */
  predicate WithinBudget(r: ResourceType, inUse: Figures, supply: Figures, budgets: Budgets, request: Figures) {
    100 * (inUse.Of(r) + request.Of(r)) <= supply.Of(r) * Clamp(budgets.Of(r), 0, 100)
  }

  predicate StaysWithin(r: ResourceType, inUse: Figures, supply: Figures, budgets: Budgets, request: Figures) {
    Unlimited(supply.Of(r), budgets.Of(r)) || WithinBudget(r, inUse, supply, budgets, request)
  }

  /** From figures to decision: against a status built from non-negative supply, a request is
      admitted exactly when both resources stay within budget. Only with the whole 64-bit supply
      at 100% does everything pass, because the projection saturates. */
  lemma EndToEnd(inUse: Figures, supply: Figures, budgets: Budgets, now: string, request: Figures)
    requires supply.cpu >= 0 && supply.memory >= 0
    ensures var status := BuildAllocationStatus(inUse, supply, budgets, now);
      Verdict(status.inUse, request, status.ceiling).Admit? == (
        && StaysWithin(Cpu, inUse, supply, budgets, request)
        && StaysWithin(Memory, inUse, supply, budgets, request))
  {
    hide CeilingSingle;
    ResourcePasses(Cpu, inUse, supply, budgets, request);
    ResourcePasses(Memory, inUse, supply, budgets, request);
  }

  lemma ResourcePasses(r: ResourceType, inUse: Figures, supply: Figures, budgets: Budgets, request: Figures)
    requires supply.Of(r) >= 0
    ensures Exceeded(r, inUse, request, CeilingPerResource(supply, budgets)) == []
       <==> StaysWithin(r, inUse, supply, budgets, request)
  {
    hide CeilingSingle;
    var ceiling := CeilingSingle(supply.Of(r), budgets.Of(r));
    assert CeilingPerResource(supply, budgets).Of(r) == ceiling;
    SaturationIsExact(inUse.Of(r), request.Of(r), ceiling);
    CeilingIsFloor(supply.Of(r), budgets.Of(r), inUse.Of(r) + request.Of(r));
    CeilingReachesMax(supply.Of(r), budgets.Of(r));
  }

  lemma CeilingReachesMax(supply: I64, budgetPercent: int)
    requires supply >= 0
    ensures CeilingSingle(supply, budgetPercent) == I64_MAX <==> Unlimited(supply, budgetPercent)
  {
  }
}
