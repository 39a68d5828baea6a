/** The budget arithmetic: ceilings, and the check of a request against them. */
module Admission {
  import opened MachineInt
  import opened Quantity

  datatype Budgets = Budgets(cpu: int, memory: int) {
    function Of(resource: ResourceType): int {
      match resource
      case Cpu => cpu
      case Memory => memory
    }
  }

  datatype BudgetViolation = BudgetViolation(resource: ResourceType, inUse: I64, requested: I64,
                                             projected: I64, ceiling: I64)

  datatype AdmissionVerdict = Admit | Deny(violations: seq<BudgetViolation>)

  function CeilingSingle(total: I64, budgetPercent: int): I64 {
    var product := total * Clamp(budgetPercent, 0, 100);
    ProductFits(total, Clamp(budgetPercent, 0, 100));
    Min(TruncDiv(product, 100), I64_MAX)
  }

  lemma ProductFits(total: I64, percent: int)
    requires 0 <= percent <= 100
    ensures 100 * I64_MIN <= total * percent <= 100 * I64_MAX
  {
  }

  function CeilingPerResource(total: Figures, budgets: Budgets): Figures {
    Figures(CeilingSingle(total.cpu, budgets.cpu), CeilingSingle(total.memory, budgets.memory))
  }

  /** The violation of one resource, if its projection exceeds the ceiling. */
  function Exceeded(resource: ResourceType, inUse: Figures, request: Figures, ceiling: Figures)
    : seq<BudgetViolation>
  {
    var projected := SaturatingAdd(inUse.Of(resource), request.Of(resource));
    if projected > ceiling.Of(resource) then
      [BudgetViolation(resource, inUse.Of(resource), request.Of(resource), projected, ceiling.Of(resource))]
    else []
  }

  function Verdict(inUse: Figures, request: Figures, ceiling: Figures): AdmissionVerdict {
    var violations := Exceeded(Cpu, inUse, request, ceiling) + Exceeded(Memory, inUse, request, ceiling);
    if violations == [] then Admit else Deny(violations)
  }

  method CheckBudget(inUse: Figures, request: Figures, ceiling: Figures) returns (v: AdmissionVerdict)
    ensures v == Verdict(inUse, request, ceiling)
  {
    var projectedCpu := SaturatingAdd(inUse.cpu, request.cpu);
    var projectedMemory := SaturatingAdd(inUse.memory, request.memory);
    var violations := [];
    if projectedCpu > ceiling.cpu {
      violations := violations +
        [BudgetViolation(Cpu, inUse.cpu, request.cpu, projectedCpu, ceiling.cpu)];
    }
    if projectedMemory > ceiling.memory {
      violations := violations +
        [BudgetViolation(Memory, inUse.memory, request.memory, projectedMemory, ceiling.memory)];
    }
    v := if violations == [] then Admit else Deny(violations);
  }

  // ---------- what the check means over unbounded integers ----------

  predicate Fits(resource: ResourceType, inUse: Figures, request: Figures, ceiling: Figures) {
    inUse.Of(resource) + request.Of(resource) <= ceiling.Of(resource)
  }

  /** What the check lets pass: a projection that fits, or any at all under the largest `i64`,
      which no saturated projection exceeds. */
  predicate Passes(resource: ResourceType, inUse: Figures, request: Figures, ceiling: Figures) {
    Fits(resource, inUse, request, ceiling) || ceiling.Of(resource) == I64_MAX
  }

  /** The saturating comparison agrees with the exact one, except when the ceiling is the
      largest `i64` and the exact projection is larger still. */
  lemma SaturationIsExact(inUse: I64, request: I64, ceiling: I64)
    ensures (SaturatingAdd(inUse, request) <= ceiling <==> inUse + request <= ceiling)
       <==> !(ceiling == I64_MAX < inUse + request)
  {
  }

  /** Admitted iff both resources pass, for all figures. */
  lemma AdmitsIffPasses(inUse: Figures, request: Figures, ceiling: Figures)
    ensures Verdict(inUse, request, ceiling).Admit?
       <==> Passes(Cpu, inUse, request, ceiling) && Passes(Memory, inUse, request, ceiling)
  {
  }

  function Failing(inUse: Figures, request: Figures, ceiling: Figures): seq<ResourceType> {
    (if Passes(Cpu, inUse, request, ceiling) then [] else [Cpu])
    + (if Passes(Memory, inUse, request, ceiling) then [] else [Memory])
  }

  /** A denial lists exactly the resources that do not pass, CPU first, each once, with the
      figures it was judged on; each of them really exceeds its ceiling. */
  lemma DenialNamesFailures(inUse: Figures, request: Figures, ceiling: Figures)
    requires Verdict(inUse, request, ceiling).Deny?
    ensures var vs := Verdict(inUse, request, ceiling).violations;
      && |vs| == |Failing(inUse, request, ceiling)| > 0
      && forall k :: 0 <= k < |vs| ==>
           && vs[k].resource == Failing(inUse, request, ceiling)[k]
           && vs[k].inUse == inUse.Of(vs[k].resource)
           && vs[k].requested == request.Of(vs[k].resource)
           && vs[k].ceiling == ceiling.Of(vs[k].resource)
           && vs[k].projected == Min(I64_MAX, vs[k].inUse + vs[k].requested)
           && vs[k].inUse + vs[k].requested > vs[k].ceiling
  {
  }

  // ---------- ceilings ----------

  /** A ceiling on non-negative supply is the largest whole figure within the percentage. */
  lemma CeilingIsFloor(total: I64, budgetPercent: int, x: int)
    requires total >= 0
    ensures x <= CeilingSingle(total, budgetPercent) <==> 100 * x <= total * Clamp(budgetPercent, 0, 100)
    ensures 0 <= CeilingSingle(total, budgetPercent) <= total
  {
    var percent := Clamp(budgetPercent, 0, 100);
    ProductFits(total, percent);
    assert 0 <= total * percent <= total * 100;
  }

  lemma CeilingMonotone(total: I64, budgetPercent: int, total': I64, budgetPercent': int)
    requires total <= total' && 0 <= total' && budgetPercent <= budgetPercent'
    ensures CeilingSingle(total, budgetPercent) <= CeilingSingle(total', budgetPercent')
  {
    if total < 0 {
      NegativeCeiling(total, budgetPercent);
      CeilingIsFloor(total', budgetPercent', 0);
      return;
    }
    hide CeilingSingle;
    var p, p' := Clamp(budgetPercent, 0, 100), Clamp(budgetPercent', 0, 100);
    CeilingIsFloor(total, budgetPercent, CeilingSingle(total, budgetPercent));
    CeilingIsFloor(total', budgetPercent', CeilingSingle(total, budgetPercent));
    ProductMonotone(total, total', p);
    ProductMonotone(p, p', total');
  }

  lemma NegativeCeiling(total: I64, budgetPercent: int)
    requires total < 0
    ensures CeilingSingle(total, budgetPercent) <= 0
  {
    ProductMonotone(total, 0, Clamp(budgetPercent, 0, 100));
  }

  /** Raising what is allocated or requested, or lowering a ceiling, never admits more. */
  lemma VerdictMonotone(inUse: Figures, request: Figures, ceiling: Figures,
                        inUse': Figures, request': Figures, ceiling': Figures)
    requires forall r: ResourceType :: inUse.Of(r) <= inUse'.Of(r) && request.Of(r) <= request'.Of(r)
                                    && ceiling'.Of(r) <= ceiling.Of(r)
    requires Verdict(inUse', request', ceiling').Admit?
    ensures Verdict(inUse, request, ceiling).Admit?
  {
  }
}
