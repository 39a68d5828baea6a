/** The supply side: the sum over the nodes that pass the filter, with a reason for the rest. */
module NodeCapacity {
  import opened Wrappers
  import opened MachineInt
  import opened Sums
  import opened Text
  import opened Quantity
  import opened Containers
  import opened NodeFilter

  datatype Node = Node(unschedulable: Option<bool>, labels: Option<Labels>, allocatable: Option<map<string, string>>)

  datatype ExclusionBreakdown = ExclusionBreakdown(counted: nat, excludedUnschedulable: nat, excludedBySelector: nat)

  function EffectiveSelectors(selectors: Option<seq<LabelSelector>>): seq<LabelSelector> {
    Valid(selectors.GetOr([]))
  }

  function Valid(sels: seq<LabelSelector>): (r: seq<LabelSelector>)
    ensures forall sel :: sel in r <==> sel in sels && ValidateSelector(sel).None?
  {
    if sels == [] then []
    else if ValidateSelector(sels[0]).None? then [sels[0]] + Valid(sels[1..])
    else Valid(sels[1..])
  }

  /** What becomes of a node. */
  datatype Disposition = Counted | Unschedulable | BySelector | NoAllocatable

  function Dispose(node: Node, sels: seq<LabelSelector>): Disposition {
    if node.unschedulable == Some(true) then Unschedulable
    else if !IsNodeCounted(false, node.labels, Some(sels)) then BySelector
    else if node.allocatable.None? then NoAllocatable
    else Counted
  }

  /** What a node reports for one resource; 0 where the quantity is missing or unreadable. */
  function Amount(resource: ResourceType): Node -> int {
    (node: Node) =>
      match Lookup(node.allocatable, ResourceKey(resource))
      case None => 0
      case Some(q) => (match ParseQuantity(resource, q) case Ok(v) => v case Err(_) => 0)
  }

  /** The nodes with one disposition, in their order. */
  function Select(nodes: seq<Node>, sels: seq<LabelSelector>, d: Disposition): seq<Node> {
    if nodes == [] then []
    else if Dispose(nodes[0], sels) == d then [nodes[0]] + Select(nodes[1..], sels, d)
    else Select(nodes[1..], sels, d)
  }

  /** Supply over unbounded integers: filter first, then sum. */
  function Supply(nodes: seq<Node>, sels: seq<LabelSelector>, resource: ResourceType): int {
    Sum(Select(nodes, sels, Counted), Amount(resource))
  }

  function MachineSupply(nodes: seq<Node>, sels: seq<LabelSelector>): Figures {
    Figures(WrapI64(Supply(nodes, sels, Cpu)), WrapI64(Supply(nodes, sels, Memory)))
  }

  function Breakdown(nodes: seq<Node>, sels: seq<LabelSelector>): ExclusionBreakdown {
    ExclusionBreakdown(|Select(nodes, sels, Counted)|, |Select(nodes, sels, Unschedulable)|,
                       |Select(nodes, sels, BySelector)|)
  }

  method SumNodeAllocatable(nodes: seq<Node>, selectors: Option<seq<LabelSelector>>)
    returns (total: Figures, count: nat, breakdown: ExclusionBreakdown)
    ensures total == MachineSupply(nodes, EffectiveSelectors(selectors))
    ensures breakdown == Breakdown(nodes, EffectiveSelectors(selectors)) && count == breakdown.counted
  {
    hide IsNodeCounted, ParseQuantity;
    var sels := EffectiveSelectors(selectors);
    total, breakdown := Figures(0, 0), ExclusionBreakdown(0, 0, 0);
    var i := 0;
    while i < |nodes|
      invariant 0 <= i <= |nodes|
      invariant total == MachineSupply(nodes[..i], sels)
      invariant breakdown == Breakdown(nodes[..i], sels)
    {
      var node := nodes[i];
      var unschedulable := node.unschedulable.GetOr(false);
      CapacityStep(nodes, sels, i);
      CountedLayers(unschedulable, node.labels, sels);
      if !IsNodeCounted(unschedulable, node.labels, Some(sels)) {
        if unschedulable {
          breakdown := breakdown.(excludedUnschedulable := breakdown.excludedUnschedulable + 1);
        } else {
          breakdown := breakdown.(excludedBySelector := breakdown.excludedBySelector + 1);
        }
      } else if node.allocatable.Some? {
        breakdown := breakdown.(counted := breakdown.counted + 1);
        total := Figures(WrapI64(total.cpu + Amount(Cpu)(node)), WrapI64(total.memory + Amount(Memory)(node)));
      }
      i := i + 1;
    }
    assert nodes[..|nodes|] == nodes;
    count := breakdown.counted;
  }

  lemma CountedLayers(unschedulable: bool, labels: Option<Labels>, sels: seq<LabelSelector>)
    ensures IsNodeCounted(unschedulable, labels, Some(sels))
       <==> !unschedulable && IsNodeCounted(false, labels, Some(sels))
  {
  }

  lemma {:induction false} SelectAppend(a: seq<Node>, b: seq<Node>, sels: seq<LabelSelector>, d: Disposition)
    ensures Select(a + b, sels, d) == Select(a, sels, d) + Select(b, sels, d)
  {
    hide Dispose;
    if a == [] {
      assert a + b == b;
    } else {
      assert (a + b)[1..] == a[1..] + b;
      SelectAppend(a[1..], b, sels, d);
    }
  }

  lemma SelectStep(nodes: seq<Node>, sels: seq<LabelSelector>, i: nat, d: Disposition)
    requires i < |nodes|
    ensures Select(nodes[..i + 1], sels, d)
         == Select(nodes[..i], sels, d) + (if Dispose(nodes[i], sels) == d then [nodes[i]] else [])
  {
    hide Dispose;
    assert nodes[..i + 1] == nodes[..i] + [nodes[i]];
    SelectAppend(nodes[..i], [nodes[i]], sels, d);
  }

  lemma SupplyStep(nodes: seq<Node>, sels: seq<LabelSelector>, i: nat, resource: ResourceType)
    requires i < |nodes|
    ensures Supply(nodes[..i + 1], sels, resource)
         == Supply(nodes[..i], sels, resource)
            + (if Dispose(nodes[i], sels) == Counted then Amount(resource)(nodes[i]) else 0)
  {
    hide Dispose, Amount;
    SelectStep(nodes, sels, i, Counted);
    SumAppend(Select(nodes[..i], sels, Counted), [nodes[i]], Amount(resource));
    assert Sum([nodes[i]], Amount(resource)) == Amount(resource)(nodes[i]);
    assert Select(nodes[..i], sels, Counted) + [] == Select(nodes[..i], sels, Counted);
  }

  /** One loop step: at most one counter moves, and the totals only for a counted node. */
  lemma CapacityStep(nodes: seq<Node>, sels: seq<LabelSelector>, i: nat)
    requires i < |nodes|
    ensures var before, b, d := MachineSupply(nodes[..i], sels), Breakdown(nodes[..i], sels), Dispose(nodes[i], sels);
      && MachineSupply(nodes[..i + 1], sels) ==
           (if d == Counted
            then Figures(WrapI64(before.cpu + Amount(Cpu)(nodes[i])),
                         WrapI64(before.memory + Amount(Memory)(nodes[i])))
            else before)
      && Breakdown(nodes[..i + 1], sels) == ExclusionBreakdown(
           b.counted + (if d == Counted then 1 else 0),
           b.excludedUnschedulable + (if d == Unschedulable then 1 else 0),
           b.excludedBySelector + (if d == BySelector then 1 else 0))
  {
    hide Dispose, Amount, Supply;
    SelectStep(nodes, sels, i, Counted);
    SelectStep(nodes, sels, i, Unschedulable);
    SelectStep(nodes, sels, i, BySelector);
    SupplyStep(nodes, sels, i, Cpu);
    SupplyStep(nodes, sels, i, Memory);
    WrapAbsorbs(Supply(nodes[..i], sels, Cpu), Amount(Cpu)(nodes[i]));
    WrapAbsorbs(Supply(nodes[..i], sels, Memory), Amount(Memory)(nodes[i]));
  }

  // ---------- every node has one fate ----------

  /** The four dispositions share out the nodes: none is lost and none counts twice. */
  lemma {:induction false} DispositionsPartition(nodes: seq<Node>, sels: seq<LabelSelector>)
    ensures var b := Breakdown(nodes, sels);
      b.counted + b.excludedUnschedulable + b.excludedBySelector + |Select(nodes, sels, NoAllocatable)| == |nodes|
  {
    hide Dispose;
    if nodes != [] {
      DispositionsPartition(nodes[1..], sels);
      var d := Dispose(nodes[0], sels);
      assert d == Counted || d == Unschedulable || d == BySelector || d == NoAllocatable;
    }
  }

  /** `f` where the disposition is `d`, 0 elsewhere. */
  function Masked(sels: seq<LabelSelector>, d: Disposition, f: Node -> int): Node -> int {
    (node: Node) => if Dispose(node, sels) == d then f(node) else 0
  }

  lemma {:induction false} FilterThenSum(nodes: seq<Node>, sels: seq<LabelSelector>, d: Disposition, f: Node -> int)
    ensures Sum(Select(nodes, sels, d), f) == Sum(nodes, Masked(sels, d, f))
  {
    hide Dispose;
    if nodes != [] {
      FilterThenSum(nodes[1..], sels, d, f);
      if Dispose(nodes[0], sels) == d {
        assert Select(nodes, sels, d)[1..] == Select(nodes[1..], sels, d);
      }
    }
  }

  function One(): Node -> int {
    (node: Node) => 1
  }

  lemma {:induction false} CountAsSum(nodes: seq<Node>)
    ensures Sum(nodes, One()) == |nodes|
  {
    if nodes != [] {
      CountAsSum(nodes[1..]);
    }
  }

  /** Totals and counters do not depend on the order of the nodes. */
  lemma CapacityIgnoresOrder(nodes: seq<Node>, nodes': seq<Node>, sels: seq<LabelSelector>)
    requires multiset(nodes) == multiset(nodes')
    ensures MachineSupply(nodes, sels) == MachineSupply(nodes', sels)
    ensures Breakdown(nodes, sels) == Breakdown(nodes', sels)
  {
    hide Dispose, Amount;
    forall d: Disposition ensures |Select(nodes, sels, d)| == |Select(nodes', sels, d)| {
      CountAsSum(Select(nodes, sels, d));
      CountAsSum(Select(nodes', sels, d));
      FilterThenSum(nodes, sels, d, One());
      FilterThenSum(nodes', sels, d, One());
      SumPermutation(nodes, nodes', Masked(sels, d, One()));
    }
    forall r: ResourceType ensures Supply(nodes, sels, r) == Supply(nodes', sels, r) {
      FilterThenSum(nodes, sels, Counted, Amount(r));
      FilterThenSum(nodes', sels, Counted, Amount(r));
      SumPermutation(nodes, nodes', Masked(sels, Counted, Amount(r)));
    }
  }

  // ---------- selectors that do nothing ----------

  /** The selectors that can exclude a node: well formed and not empty. */
  function Useful(sels: seq<LabelSelector>): (r: seq<LabelSelector>)
    ensures forall sel :: sel in r <==> sel in sels && ValidateSelector(sel).None? && !SelectorIsEmpty(sel)
  {
    if sels == [] then []
    else if ValidateSelector(sels[0]).None? && !SelectorIsEmpty(sels[0]) then [sels[0]] + Useful(sels[1..])
    else Useful(sels[1..])
  }

  /** Invalid and empty selectors can be deleted from the list without any effect. */
  lemma IdleSelectorsCanGo(nodes: seq<Node>, sels: seq<LabelSelector>)
    ensures var all, useful := EffectiveSelectors(Some(sels)), EffectiveSelectors(Some(Useful(sels)));
      && MachineSupply(nodes, all) == MachineSupply(nodes, useful)
      && Breakdown(nodes, all) == Breakdown(nodes, useful)
  {
    var a, b := Valid(sels), Valid(Useful(sels));
    forall node: Node ensures Dispose(node, a) == Dispose(node, b) {
      SameExclusions(node, a, b);
    }
    forall d: Disposition ensures Select(nodes, a, d) == Select(nodes, b, d) {
      SelectSame(nodes, a, b, d);
    }
  }

  lemma SameExclusions(node: Node, a: seq<LabelSelector>, b: seq<LabelSelector>)
    requires forall sel :: !SelectorIsEmpty(sel) ==> (sel in a <==> sel in b)
    ensures Dispose(node, a) == Dispose(node, b)
  {
  }

  lemma {:induction false} SelectSame(nodes: seq<Node>, a: seq<LabelSelector>, b: seq<LabelSelector>, d: Disposition)
    requires forall node: Node :: Dispose(node, a) == Dispose(node, b)
    ensures Select(nodes, a, d) == Select(nodes, b, d)
  {
    hide Dispose;
    if nodes != [] {
      SelectSame(nodes[1..], a, b, d);
    }
  }

  /** The machine figure is the true supply exactly while the supply fits 64 bits. */
  lemma SupplyFits(nodes: seq<Node>, sels: seq<LabelSelector>, resource: ResourceType)
    ensures Supply(nodes, sels, resource) >= 0
    ensures MachineSupply(nodes, sels).Of(resource) == Supply(nodes, sels, resource)
       <==> Supply(nodes, sels, resource) <= I64_MAX
  {
    forall node: Node ensures Amount(resource)(node) >= 0 {
      AmountNonNegative(node, resource);
    }
    hide Amount;
    SumNonNegative(Select(nodes, sels, Counted), Amount(resource));
  }

  /** What a node reports, by the texts of its own entries: each resource is read by its own
      parser, and an entry that is missing or unreadable counts as 0. */
  lemma AmountMeaning(node: Node)
    ensures Amount(Cpu)(node) == EntryValue(node, "cpu", ParseCpu)
    ensures Amount(Memory)(node) == EntryValue(node, "memory", ParseMemory)
  {
    hide ParseCpu, ParseMemory;
  }

  function EntryValue(node: Node, key: string, parse: string -> Parsed<I64>): int {
    if node.allocatable.Some? && key in node.allocatable.value && parse(node.allocatable.value[key]).Ok?
    then parse(node.allocatable.value[key]).value else 0
  }

  /** One more counted node raises the exact supply by what its texts say: `n` milli-CPUs, `k`
      bytes. */
  lemma NodeAdds(nodes: seq<Node>, node: Node, sels: seq<LabelSelector>, n: nat, k: nat)
    requires node.unschedulable != Some(true) && node.allocatable.Some?
    requires node.labels.None? || !LabelsMatchAnySelector(node.labels.value, sels)
    requires n <= I64_MAX && k <= I64_MAX
    requires map["cpu" := Decimal(n) + "m", "memory" := Decimal(k)] == node.allocatable.value
    ensures Supply(nodes + [node], sels, Cpu) == Supply(nodes, sels, Cpu) + n
    ensures Supply(nodes + [node], sels, Memory) == Supply(nodes, sels, Memory) + k
  {
    hide ParseCpu, ParseMemory, LabelsMatchAnySelector;
    WholeCpu(n);
    PlainBytes(k);
    AmountMeaning(node);
    assert Amount(Cpu)(node) == n && Amount(Memory)(node) == k;
    assert Dispose(node, sels) == Counted;
    hide Amount, Dispose;
    var all := nodes + [node];
    assert all[..|nodes|] == nodes && all[..|nodes| + 1] == all;
    SupplyStep(all, sels, |nodes|, Cpu);
    SupplyStep(all, sels, |nodes|, Memory);
  }

  lemma AmountNonNegative(node: Node, resource: ResourceType)
    ensures Amount(resource)(node) >= 0
  {
  }

  // ---------- exclusion in declarative terms ----------

  /** The fate of a node, without the filter: cordoned nodes first; then nodes whose labels pass
      every test of some valid selector that has tests; then nodes that report nothing. */
  lemma DispositionMeaning(node: Node, sels: seq<LabelSelector>)
    ensures var d := Dispose(node, EffectiveSelectors(Some(sels)));
      && (d == Unschedulable <==> node.unschedulable == Some(true))
      && (d == BySelector <==> node.unschedulable != Some(true) && Excluded(node, sels))
      && (d == NoAllocatable <==>
            node.unschedulable != Some(true) && !Excluded(node, sels) && node.allocatable == None)
  {
    hide LabelsMatchSelector, TestsOf;
    if node.labels.Some? {
      var labels := node.labels.value;
      forall sel | ValidateSelector(sel).None?
        ensures !SelectorIsEmpty(sel) && LabelsMatchSelector(labels, sel) <==> PassesAll(labels, sel)
      {
        SelectorMeaning(labels, sel);
        EmptySelectorHasNoTests(sel);
      }
      hide PassesAll, SelectorIsEmpty, ValidateSelector;
      assert LabelsMatchAnySelector(labels, Valid(sels)) <==> Excluded(node, sels);
    }
  }

  predicate PassesAll(labels: Labels, sel: LabelSelector)
    requires ValidateSelector(sel).None?
  {
    TestsOf(sel) != {} && forall t :: t in TestsOf(sel) ==> Passes(t, labels)
  }

  predicate Excluded(node: Node, sels: seq<LabelSelector>) {
    node.labels.Some?
    && exists sel :: sel in sels && ValidateSelector(sel).None? && PassesAll(node.labels.value, sel)
  }

  /** A selector that a node without any label passes: it has tests and all of them ask for
      absence. */
  predicate OnlyAbsence(sel: LabelSelector)
    requires ValidateSelector(sel).None?
  {
    TestsOf(sel) != {} && forall t :: t in TestsOf(sel) ==> !t.wanted
  }

  lemma NoLabelsPass(sel: LabelSelector)
    requires ValidateSelector(sel).None?
    ensures !SelectorIsEmpty(sel) && LabelsMatchSelector(map[], sel) <==> OnlyAbsence(sel)
  {
    SelectorMeaning(map[], sel);
    EmptySelectorHasNoTests(sel);
    hide LabelsMatchSelector, TestsOf;
    forall t: Test ensures Passes(t, map[]) <==> !t.wanted {
    }
  }

  /** Exactly when a node without a label map is treated like one with an empty label map: when
      no valid selector consists of tests for absence only. */
  lemma MissingLabelsActEmptyIff(sels: seq<LabelSelector>)
    ensures var e := EffectiveSelectors(Some(sels));
      var agree := IsNodeCounted(false, None, Some(e)) == IsNodeCounted(false, Some(map[]), Some(e));
      agree <==> !exists sel :: sel in sels && ValidateSelector(sel).None? && OnlyAbsence(sel)
  {
    var e := EffectiveSelectors(Some(sels));
    forall sel | sel in e ensures !SelectorIsEmpty(sel) && LabelsMatchSelector(map[], sel) <==> OnlyAbsence(sel) {
      NoLabelsPass(sel);
    }
    hide LabelsMatchSelector, OnlyAbsence, SelectorIsEmpty, ValidateSelector;
    assert LabelsMatchAnySelector(map[], e)
      <==> exists sel :: sel in sels && ValidateSelector(sel).None? && OnlyAbsence(sel);
  }
}
