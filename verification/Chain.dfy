/** Supply, ceiling and check taken together: whatever tightens an input never lets more in. */
module Chain {
  import opened Wrappers
  import opened MachineInt
  import opened Text
  import opened Sums
  import opened Quantity
  import opened Admission
  import opened NodeFilter
  import opened NodeCapacity

  /** The decision as the cluster's raw state determines it. */
  predicate Admitted(nodes: seq<Node>, selectors: seq<LabelSelector>, budgets: Budgets,
                     inUse: Figures, request: Figures)
  {
    var supply := MachineSupply(nodes, EffectiveSelectors(Some(selectors)));
    Verdict(inUse, request, CeilingPerResource(supply, budgets)).Admit?
  }

  /** The same nodes, some of them cordoned. */
  predicate Cordoned(nodes: seq<Node>, nodes': seq<Node>) {
    && |nodes| == |nodes'|
    && forall i :: 0 <= i < |nodes| ==>
         nodes'[i] == nodes[i] || nodes'[i] == nodes[i].(unschedulable := Some(true))
  }

  /** Cordoning a node or excluding more of them takes it out of the sum and changes nothing
      else, node by node. */
  lemma NodeShareFalls(node: Node, node': Node, few: seq<LabelSelector>, many: seq<LabelSelector>, r: ResourceType)
    requires node' == node || node' == node.(unschedulable := Some(true))
    requires forall sel :: sel in few ==> sel in many
    ensures Masked(many, Counted, Amount(r))(node') <= Masked(few, Counted, Amount(r))(node)
  {
    hide Amount, IsNodeCounted;
    AmountNonNegative(node, r);
    if Dispose(node', many) == Counted {
      MoreSelectorsCountLess(false, node.labels, few, many);
    }
  }

  lemma {:induction false} SupplyFalls(nodes: seq<Node>, nodes': seq<Node>,
                                       few: seq<LabelSelector>, many: seq<LabelSelector>, r: ResourceType)
    requires Cordoned(nodes, nodes')
    requires forall sel :: sel in few ==> sel in many
    ensures Sum(nodes', Masked(many, Counted, Amount(r))) <= Sum(nodes, Masked(few, Counted, Amount(r)))
  {
    hide Masked, Amount;
    if nodes != [] {
      NodeShareFalls(nodes[0], nodes'[0], few, many, r);
      SupplyFalls(nodes[1..], nodes'[1..], few, many, r);
    }
  }

  // ---------- tightening ----------

  /** One set of inputs to a decision. */
  datatype Inputs = Inputs(nodes: seq<Node>, selectors: seq<LabelSelector>, budgets: Budgets,
                           inUse: Figures, request: Figures)
  {
    predicate IsAdmitted() {
      Admitted(nodes, selectors, budgets, inUse, request)
    }

    function Supplied(): Figures {
      MachineSupply(nodes, EffectiveSelectors(Some(selectors)))
    }
  }

  /** Adding selectors, cordoning nodes, lowering budgets, raising the allocation or the request. */
  predicate Tightens(x: Inputs, y: Inputs) {
    && Cordoned(x.nodes, y.nodes)
    && (forall sel :: sel in x.selectors ==> sel in y.selectors)
    && forall r: ResourceType ::
         y.budgets.Of(r) <= x.budgets.Of(r) && x.inUse.Of(r) <= y.inUse.Of(r) && x.request.Of(r) <= y.request.Of(r)
  }

  /** Tightening turns no denial over these nodes into an admission. */
  ghost predicate NeverReverses(nodes: seq<Node>, sels: seq<LabelSelector>) {
    forall x: Inputs, y: Inputs ::
      x.nodes == nodes && x.selectors == sels && Tightens(x, y) && y.IsAdmitted() ==> x.IsAdmitted()
  }

  /** Cordoning raises no supply figure of these nodes. */
  ghost predicate NothingRaises(nodes: seq<Node>, sels: seq<LabelSelector>) {
    forall cordoned, r: ResourceType :: Cordoned(nodes, cordoned) ==>
      MachineSupply(cordoned, sels).Of(r) <= MachineSupply(nodes, sels).Of(r)
  }

  function CordonAll(nodes: seq<Node>): (r: seq<Node>)
    ensures Cordoned(nodes, r) && forall i :: 0 <= i < |r| ==> r[i].unschedulable == Some(true)
  {
    seq(|nodes|, i requires 0 <= i < |nodes| => nodes[i].(unschedulable := Some(true)))
  }

  lemma {:induction false} NothingLeft(nodes: seq<Node>, sels: seq<LabelSelector>)
    requires forall node :: node in nodes ==> node.unschedulable == Some(true)
    ensures Select(nodes, sels, Counted) == []
  {
    hide IsNodeCounted;
    if nodes != [] {
      NothingLeft(nodes[1..], sels);
    }
  }

  lemma NothingSupplied(nodes: seq<Node>, sels: seq<LabelSelector>)
    requires forall node :: node in nodes ==> node.unschedulable == Some(true)
    ensures MachineSupply(nodes, sels) == Figures(0, 0)
  {
    NothingLeft(nodes, sels);
    hide Amount;
  }

  /** The nodes with those cordoned that the selectors leave out. */
  function CordonExcluded(nodes: seq<Node>, sels: seq<LabelSelector>): seq<Node> {
    if nodes == [] then []
    else [if Dispose(nodes[0], sels) == Counted then nodes[0] else nodes[0].(unschedulable := Some(true))]
         + CordonExcluded(nodes[1..], sels)
  }

  /** What more selectors take out, cordoning can take out too. */
  lemma {:induction false} SelectorsAsCordons(nodes: seq<Node>, nodes': seq<Node>,
                                              few: seq<LabelSelector>, many: seq<LabelSelector>, r: ResourceType)
    requires Cordoned(nodes, nodes')
    requires forall sel :: sel in few ==> sel in many
    ensures Cordoned(nodes, CordonExcluded(nodes', many))
    ensures Sum(CordonExcluded(nodes', many), Masked(few, Counted, Amount(r)))
         == Sum(nodes', Masked(many, Counted, Amount(r)))
  {
    hide Amount, IsNodeCounted;
    if nodes != [] {
      SelectorsAsCordons(nodes[1..], nodes'[1..], few, many, r);
      if Dispose(nodes'[0], many) == Counted {
        MoreSelectorsCountLess(false, nodes'[0].labels, few, many);
      }
    }
  }

  /** If cordoning raises no supply figure, no tightening of the supply does. */
  lemma TightenedSupply(x: Inputs, y: Inputs, r: ResourceType)
    requires NothingRaises(x.nodes, EffectiveSelectors(Some(x.selectors))) && Tightens(x, y)
    ensures y.Supplied().Of(r) <= x.Supplied().Of(r) && 0 <= x.Supplied().Of(r)
  {
    hide Dispose, Amount;
    var few, many := EffectiveSelectors(Some(x.selectors)), EffectiveSelectors(Some(y.selectors));
    forall r': ResourceType ensures Supply(CordonExcluded(y.nodes, many), few, r') == Supply(y.nodes, many, r') {
      SelectorsAsCordons(x.nodes, y.nodes, few, many, r');
      FilterThenSum(CordonExcluded(y.nodes, many), few, Counted, Amount(r'));
      FilterThenSum(y.nodes, many, Counted, Amount(r'));
    }
    SelectorsAsCordons(x.nodes, y.nodes, few, many, r);
    hide Supply;
    assert MachineSupply(CordonExcluded(y.nodes, many), few) == MachineSupply(y.nodes, many);
    NothingSupplied(CordonAll(x.nodes), few);
  }

  lemma FallingSupplyNeverAdmits(x: Inputs, y: Inputs)
    requires Tightens(x, y) && y.IsAdmitted()
    requires forall r: ResourceType :: y.Supplied().Of(r) <= x.Supplied().Of(r) && 0 <= x.Supplied().Of(r)
    ensures x.IsAdmitted()
  {
    hide CeilingSingle, Verdict, MachineSupply;
    var c, c' := CeilingPerResource(x.Supplied(), x.budgets), CeilingPerResource(y.Supplied(), y.budgets);
    forall r: ResourceType
      ensures x.inUse.Of(r) <= y.inUse.Of(r) && x.request.Of(r) <= y.request.Of(r) && c'.Of(r) <= c.Of(r)
    {
      CeilingMonotone(y.Supplied().Of(r), y.budgets.Of(r), x.Supplied().Of(r), x.budgets.Of(r));
    }
    VerdictMonotone(x.inUse, x.request, c, y.inUse, y.request, c');
  }

  /** An allocation of 0 under full budgets, and a request for `n` of one resource and as little as
      can be of the other. */
  function Probe(nodes: seq<Node>, sels: seq<LabelSelector>, r: ResourceType, n: I64): Inputs {
    Inputs(nodes, sels, Budgets(100, 100), Figures(0, 0), if r.Cpu? then Figures(n, I64_MIN) else Figures(I64_MIN, n))
  }

  lemma FullCeiling(total: I64)
    ensures CeilingSingle(total, 100) == total
  {
  }

  lemma ProbeAdmitted(nodes: seq<Node>, sels: seq<LabelSelector>, r: ResourceType, n: I64)
    ensures Probe(nodes, sels, r, n).IsAdmitted() <==> n <= Probe(nodes, sels, r, n).Supplied().Of(r)
  {
    hide CeilingSingle, MachineSupply;
    var supply := Probe(nodes, sels, r, n).Supplied();
    FullCeiling(supply.cpu);
    FullCeiling(supply.memory);
  }

  /** Exactly when tightening is safe, for every node list and every selector list: when no
      cordoning raises a supply figure, which wrap-around can make it do. */
  lemma NeverReversesIff(nodes: seq<Node>, sels: seq<LabelSelector>)
    ensures NeverReverses(nodes, sels) <==> NothingRaises(nodes, EffectiveSelectors(Some(sels)))
  {
    hide MachineSupply, Verdict, CeilingSingle;
    var e := EffectiveSelectors(Some(sels));
    if NothingRaises(nodes, e) {
      forall x: Inputs, y: Inputs | x.nodes == nodes && x.selectors == sels && Tightens(x, y) && y.IsAdmitted()
        ensures x.IsAdmitted()
      {
        forall r: ResourceType ensures y.Supplied().Of(r) <= x.Supplied().Of(r) && 0 <= x.Supplied().Of(r) {
          TightenedSupply(x, y, r);
        }
        FallingSupplyNeverAdmits(x, y);
      }
    }
    if NeverReverses(nodes, sels) {
      forall cordoned, r: ResourceType | Cordoned(nodes, cordoned)
        ensures MachineSupply(cordoned, e).Of(r) <= MachineSupply(nodes, e).Of(r)
      {
        var raised := MachineSupply(cordoned, e).Of(r);
        var x, y := Probe(nodes, sels, r, raised), Probe(cordoned, sels, r, raised);
        ProbeAdmitted(nodes, sels, r, raised);
        ProbeAdmitted(cordoned, sels, r, raised);
        assert Tightens(x, y);
      }
    }
  }

  /** Below 2^64 the condition is plain: tightening is safe exactly when both supplies fit 64
      bits. */
  lemma NeverReversesBelowWrap(nodes: seq<Node>, sels: seq<LabelSelector>)
    requires forall r: ResourceType :: Supply(nodes, EffectiveSelectors(Some(sels)), r) < 0x1_0000_0000_0000_0000
    ensures NeverReverses(nodes, sels)
       <==> forall r: ResourceType :: Supply(nodes, EffectiveSelectors(Some(sels)), r) <= I64_MAX
  {
    hide Supply, Verdict, CeilingSingle;
    var e := EffectiveSelectors(Some(sels));
    NeverReversesIff(nodes, sels);
    forall r: ResourceType ensures Supply(nodes, e, r) >= 0 {
      SupplyFits(nodes, e, r);
    }
    if forall r: ResourceType :: Supply(nodes, e, r) <= I64_MAX {
      FittingSupplyFalls(nodes, e);
    } else {
      NothingSupplied(CordonAll(nodes), e);
      var r: ResourceType :| Supply(nodes, e, r) > I64_MAX;
      assert MachineSupply(nodes, e).Of(r) < 0;
    }
  }

  lemma FittingSupplyFalls(nodes: seq<Node>, sels: seq<LabelSelector>)
    requires forall r: ResourceType :: Supply(nodes, sels, r) <= I64_MAX
    ensures NothingRaises(nodes, sels)
  {
    hide Masked, Amount, Dispose;
    forall cordoned, r: ResourceType | Cordoned(nodes, cordoned)
      ensures MachineSupply(cordoned, sels).Of(r) <= MachineSupply(nodes, sels).Of(r)
    {
      SupplyFalls(nodes, cordoned, sels, sels, r);
      FilterThenSum(nodes, sels, Counted, Amount(r));
      FilterThenSum(cordoned, sels, Counted, Amount(r));
      SupplyFits(nodes, sels, r);
      SupplyFits(cordoned, sels, r);
    }
  }

  /** Adding selectors, cordoning nodes, lowering a budget, raising the allocation or raising
      the request never turns a denial into an admission, as long as the supply fits 64 bits. */
  lemma TighteningNeverAdmits(x: Inputs, y: Inputs)
    requires Tightens(x, y) && !x.IsAdmitted()
    requires forall r: ResourceType :: Supply(x.nodes, EffectiveSelectors(Some(x.selectors)), r) <= I64_MAX
    ensures !y.IsAdmitted()
  {
    hide Supply, Verdict, CeilingSingle;
    FittingSupplyFalls(x.nodes, EffectiveSelectors(Some(x.selectors)));
    NeverReversesIff(x.nodes, x.selectors);
  }

  // ---------- supplies that wrap ----------

  /** Lowering budgets alone: safe exactly when neither supply figure is negative, for a negative
      ceiling rises to 0 with the percentage. */
  lemma LoweringBudgetsIff(nodes: seq<Node>, sels: seq<LabelSelector>)
    ensures var supply := MachineSupply(nodes, EffectiveSelectors(Some(sels)));
      BudgetsNeverReverse(nodes, sels) <==> supply.cpu >= 0 && supply.memory >= 0
  {
    hide MachineSupply, Verdict, CeilingSingle;
    var supply := MachineSupply(nodes, EffectiveSelectors(Some(sels)));
    if supply.cpu >= 0 && supply.memory >= 0 {
      forall x: Inputs, y: Inputs | OnlyBudgets(nodes, sels, x, y) && y.IsAdmitted() ensures x.IsAdmitted() {
        FallingSupplyNeverAdmits(x, y);
      }
    } else {
      var r: ResourceType := if supply.cpu < 0 then Cpu else Memory;
      var x := Probe(nodes, sels, r, 0);
      var y := x.(budgets := Budgets(0, 0));
      ProbeAdmitted(nodes, sels, r, 0);
      NoBudgetNoCeiling(supply.cpu);
      NoBudgetNoCeiling(supply.memory);
      assert OnlyBudgets(nodes, sels, x, y) && y.IsAdmitted() by { ZeroCeilings(y); }
    }
  }

  predicate OnlyBudgets(nodes: seq<Node>, sels: seq<LabelSelector>, x: Inputs, y: Inputs) {
    x.nodes == nodes && x.selectors == sels && Tightens(x, y) && y == x.(budgets := y.budgets)
  }

  ghost predicate BudgetsNeverReverse(nodes: seq<Node>, sels: seq<LabelSelector>) {
    forall x: Inputs, y: Inputs :: OnlyBudgets(nodes, sels, x, y) && y.IsAdmitted() ==> x.IsAdmitted()
  }

  lemma NoBudgetNoCeiling(total: I64)
    ensures CeilingSingle(total, 0) == 0
  {
  }

  lemma ZeroCeilings(y: Inputs)
    requires y.budgets == Budgets(0, 0) && y.inUse == Figures(0, 0) && y.request.cpu <= 0 && y.request.memory <= 0
    ensures y.IsAdmitted()
  {
    hide MachineSupply;
  }

  /** Cordoning alone: a supply that wraps to a negative figure denies even an empty request at
      100%, and cordoning every node admits it. */
  lemma NegativeSupplyReverses(nodes: seq<Node>, sels: seq<LabelSelector>, r: ResourceType)
    requires MachineSupply(nodes, EffectiveSelectors(Some(sels))).Of(r) < 0
    ensures var none, full := Figures(0, 0), Budgets(100, 100);
      !Admitted(nodes, sels, full, none, none) && Admitted(CordonAll(nodes), sels, full, none, none)
  {
    hide Dispose, Amount, CeilingSingle, Supply;
    var e := EffectiveSelectors(Some(sels));
    NothingSupplied(CordonAll(nodes), e);
    FullCeiling(MachineSupply(nodes, e).Of(r));
    FullCeiling(0);
    var ceiling := CeilingPerResource(MachineSupply(nodes, e), Budgets(100, 100));
    assert Exceeded(r, Figures(0, 0), Figures(0, 0), ceiling) != [];
  }

  function NodeOf(bytes: nat): Node {
    Node(None, None, Some(map["memory" := Decimal(bytes)]))
  }

  /** Such a supply: two nodes whose memory together leaves the 64-bit range. */
  lemma TwoNodesWrap(m: nat, n: nat)
    requires m <= I64_MAX && n <= I64_MAX < m + n
    ensures MachineSupply([NodeOf(m), NodeOf(n)], EffectiveSelectors(Some([]))).memory
         == m + n - 0x1_0000_0000_0000_0000 < 0
  {
    hide ParseMemory, ParseCpu, Decimal;
    PlainBytes(m);
    PlainBytes(n);
    var a, b := NodeOf(m), NodeOf(n);
    assert Dispose(a, []) == Counted && Dispose(b, []) == Counted;
    assert Amount(Memory)(a) == m && Amount(Memory)(b) == n;
    hide Dispose, Amount, NodeOf;
    assert [a, b][1..] == [b] && [b][1..] == [];
    assert Select([b], [], Counted) == [b] + [];
    assert Select([a, b], [], Counted) == [a] + [b];
    SumAppend([a], [b], Amount(Memory));
    assert Sum([a], Amount(Memory)) == m && Sum([b], Amount(Memory)) == n;
  }
}
