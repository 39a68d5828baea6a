/** The `Allocation` resource: what the operator configures and what the controller reports. */
module Crd {
  import opened Wrappers
  import opened Quantity
  import opened Admission

  datatype EnforcementMode = Enforce | DryRun

  datatype AllocationSpec = AllocationSpec(
    budgetPercent: int,
    enforcementMode: Option<EnforcementMode>,
    excludedNamespaces: Option<seq<string>>,
    excludedPriorityClasses: Option<seq<string>>,
    cpuBudgetPercent: Option<int>,
    memoryBudgetPercent: Option<int>)

  datatype AllocationStatus = AllocationStatus(
    inUse: Figures,
    ceiling: Figures,
    utilizationCpu: real,
    utilizationMemory: real,
    effectiveBudgets: Budgets,
    lastUpdated: string)

  datatype Allocation = Allocation(spec: AllocationSpec, status: Option<AllocationStatus>)

  function ResolveEnforcementMode(mode: Option<EnforcementMode>): EnforcementMode {
    mode.GetOr(Enforce)
  }

  function ResolveEffectiveBudgets(spec: AllocationSpec): Budgets {
    Budgets(spec.cpuBudgetPercent.GetOr(spec.budgetPercent), spec.memoryBudgetPercent.GetOr(spec.budgetPercent))
  }

  datatype ExemptionReason = NamespaceExcluded | PriorityClassExcluded | WebhookNamespace

  predicate ListContains(list: Option<seq<string>>, value: string) {
    list.Some? && value in list.value
  }

  function CheckExemption(podNamespace: Option<string>, podPriorityClass: Option<string>,
                          spec: AllocationSpec, webhookNamespace: string): Option<ExemptionReason>
  {
    if podNamespace == Some(webhookNamespace) then
      Some(WebhookNamespace)
    else if podNamespace.Some? && ListContains(spec.excludedNamespaces, podNamespace.value) then
      Some(NamespaceExcluded)
    else if podPriorityClass.Some? && podPriorityClass.value != ""
         && ListContains(spec.excludedPriorityClasses, podPriorityClass.value) then
      Some(PriorityClassExcluded)
    else
      None
  }
}
