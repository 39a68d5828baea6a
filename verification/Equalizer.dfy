/** The fleet equalizer for one resource: clusters over the target are frozen, the others give
    up what the frozen ones have too much of. Utilizations are exact reals, in percent. */
module Equalizer {
  import opened MachineInt
  import opened Sums

  datatype Observation = Observation(name: string, utilization: real, capacity: I64)

  datatype BudgetState = Good | Over

  datatype ComputedBudget = ComputedBudget(name: string, budgetPercent: int, state: BudgetState)

  // ---------- the pieces of the computation ----------

  predicate IsOver(o: Observation, target: int) {
    o.utilization > target as real
  }

  function OverOf(obs: seq<Observation>, target: int): (r: seq<Observation>)
    ensures forall o :: o in r ==> o in obs && IsOver(o, target)
  {
    if obs == [] then []
    else if IsOver(obs[0], target) then [obs[0]] + OverOf(obs[1..], target)
    else OverOf(obs[1..], target)
  }

  function GoodOf(obs: seq<Observation>, target: int): (r: seq<Observation>)
    ensures forall o :: o in r ==> o in obs && !IsOver(o, target)
  {
    if obs == [] then []
    else if IsOver(obs[0], target) then GoodOf(obs[1..], target)
    else [obs[0]] + GoodOf(obs[1..], target)
  }

  /** Conversion from a real to an integer drops the fraction. */
  function Truncate(x: real): int {
    if x >= 0.0 then x.Floor else -(-x).Floor
  }

  function Frozen(o: Observation): ComputedBudget {
    ComputedBudget(o.name, Clamp(o.utilization.Floor, 0, 100), Over)
  }

  /** What one over-cluster uses beyond the target, in the resource's own units. */
  function UnitsBeyond(o: Observation, target: int): real {
    (if IsOver(o, target) then o.utilization - target as real else 0.0) * o.capacity as real / 100.0
  }

  function Excess(target: int): Observation -> int {
    (o: Observation) => Truncate(UnitsBeyond(o, target))
  }

  function Overflow(over: seq<Observation>, target: int): int {
    Sum(over, Excess(target))
  }

  function Share(overflow: int, goodCount: nat): int {
    if goodCount == 0 then 0 else TruncDiv(overflow, goodCount)
  }

  /** The points a cluster gives up, over unbounded integers. */
  function ExactReduction(share: int, capacity: I64): int {
    if capacity > 0 then TruncDiv(share * 100, capacity) else 0
  }

  /** The reduction passes through a 32-bit integer, and so does the difference. */
  function GoodBudget(target: int, share: int, capacity: I64): int {
    Clamp(WrapI32(target - WrapI32(ExactReduction(share, capacity))), 0, 100)
  }

  function Reduced(target: int, share: int, o: Observation): ComputedBudget {
    ComputedBudget(o.name, GoodBudget(target, share, o.capacity), Good)
  }

  function FrozenAll(over: seq<Observation>): (r: seq<ComputedBudget>)
    ensures |r| == |over| && forall i :: 0 <= i < |r| ==> r[i] == Frozen(over[i])
  {
    seq(|over|, i requires 0 <= i < |over| => Frozen(over[i]))
  }

  function ReducedAll(target: int, share: int, good: seq<Observation>): (r: seq<ComputedBudget>)
    ensures |r| == |good| && forall i :: 0 <= i < |r| ==> r[i] == Reduced(target, share, good[i])
  {
    seq(|good|, i requires 0 <= i < |good| => Reduced(target, share, good[i]))
  }

  function FleetShare(obs: seq<Observation>, target: int): int {
    Share(Overflow(OverOf(obs, target), target), |GoodOf(obs, target)|)
  }

  /** The whole result: frozen clusters first, then the others, each in input order. */
  function Equalized(obs: seq<Observation>, target: int): seq<ComputedBudget> {
    FrozenAll(OverOf(obs, target)) + ReducedAll(target, FleetShare(obs, target), GoodOf(obs, target))
  }

  method Equalize(obs: seq<Observation>, target: int) returns (results: seq<ComputedBudget>)
    ensures results == Equalized(obs, target)
  {
    hide Overflow, TruncDiv;
    var over, good := OverOf(obs, target), GoodOf(obs, target);
    results := FrozenAll(over);
    if good == [] {
      return;
    }
    var overflow := Overflow(over, target);
    var goodCount := |good|;
    var i := 0;
    while i < |good|
      invariant 0 <= i <= |good|
      invariant results == FrozenAll(over) + ReducedAll(target, Share(overflow, goodCount), good[..i])
    {
      var share := TruncDiv(overflow, goodCount);
      var g := good[i];
      var reduction := if g.capacity > 0 then WrapI32(TruncDiv(share * 100, g.capacity)) else 0;
      var budget := Clamp(WrapI32(target - reduction), 0, 100);
      ReducedStep(target, share, good, i);
      assert GoodBudget(target, share, g.capacity) == budget;
      results := results + [ComputedBudget(g.name, budget, Good)];
      i := i + 1;
    }
    assert good[..|good|] == good;
  }

  lemma ReducedStep(target: int, share: int, good: seq<Observation>, i: nat)
    requires i < |good|
    ensures ReducedAll(target, share, good[..i + 1])
         == ReducedAll(target, share, good[..i]) + [Reduced(target, share, good[i])]
  {
  }

  // ---------- one result per cluster ----------

  /** The clusters in the order the results come in. */
  function Reordered(obs: seq<Observation>, target: int): seq<Observation> {
    OverOf(obs, target) + GoodOf(obs, target)
  }

  lemma {:induction false} PartitionCounts(obs: seq<Observation>, target: int)
    ensures multiset(OverOf(obs, target)) + multiset(GoodOf(obs, target)) == multiset(obs)
  {
    hide IsOver;
    if obs != [] {
      var rest := obs[1..];
      PartitionCounts(rest, target);
      assert obs == [obs[0]] + rest;
      WithFirst(obs[0], rest);
      if IsOver(obs[0], target) {
        WithFirst(obs[0], OverOf(rest, target));
      } else {
        WithFirst(obs[0], GoodOf(rest, target));
      }
    }
  }

  lemma WithFirst(o: Observation, s: seq<Observation>)
    ensures multiset([o] + s) == multiset{o} + multiset(s)
  {
  }

  lemma PartitionKeepsAll(obs: seq<Observation>, target: int)
    ensures multiset(Reordered(obs, target)) == multiset(obs)
    ensures multiset(OverOf(obs, target)) + multiset(GoodOf(obs, target)) == multiset(obs)
  {
    hide OverOf, GoodOf;
    PartitionCounts(obs, target);
  }

  /** Exactly one result per observation, under its own name: the results are the input,
      reordered over-clusters first, and the state says which side a cluster is on. */
  lemma OneResultEach(obs: seq<Observation>, target: int)
    ensures var results, clusters := Equalized(obs, target), Reordered(obs, target);
      && |results| == |obs| == |clusters| && multiset(clusters) == multiset(obs)
      && forall i :: 0 <= i < |results| ==>
           && results[i].name == clusters[i].name
           && (results[i].state == Over <==> IsOver(clusters[i], target))
           && (results[i].state == Over <==> i < |OverOf(obs, target)|)
  {
    PartitionKeepsAll(obs, target);
    hide OverOf, GoodOf, FleetShare, GoodBudget, IsOver;
    assert |multiset(Reordered(obs, target))| == |multiset(obs)|;
  }

  /** `part` picks elements of `whole` from left to right. */
  predicate PicksInOrder(part: seq<Observation>, whole: seq<Observation>, at: seq<nat>) {
    && |at| == |part|
    && (forall k :: 0 <= k < |at| ==> at[k] < |whole| && part[k] == whole[at[k]])
    && (forall j, k :: 0 <= j < k < |at| ==> at[j] < at[k])
  }

  function Shifted(at: seq<nat>): seq<nat> {
    seq(|at|, k requires 0 <= k < |at| => at[k] + 1)
  }

  lemma PicksLater(part: seq<Observation>, whole: seq<Observation>, at: seq<nat>)
    requires whole != [] && PicksInOrder(part, whole[1..], at)
    ensures PicksInOrder(part, whole, Shifted(at))
    ensures PicksInOrder([whole[0]] + part, whole, [0] + Shifted(at))
  {
  }

  /** The reordering is stable: within each side the clusters keep the order of the input. */
  lemma {:induction false} StableOrder(obs: seq<Observation>, target: int) returns (over: seq<nat>, good: seq<nat>)
    ensures PicksInOrder(OverOf(obs, target), obs, over)
    ensures PicksInOrder(GoodOf(obs, target), obs, good)
  {
    hide PicksInOrder, IsOver;
    over, good := [], [];
    if obs == [] {
      NothingToPick(obs);
    } else {
      over, good := StableOrder(obs[1..], target);
      PicksLater(OverOf(obs[1..], target), obs, over);
      PicksLater(GoodOf(obs[1..], target), obs, good);
      over := if IsOver(obs[0], target) then [0] + Shifted(over) else Shifted(over);
      good := if IsOver(obs[0], target) then Shifted(good) else [0] + Shifted(good);
    }
  }

  lemma NothingToPick(whole: seq<Observation>)
    ensures PicksInOrder([], whole, [])
  {
  }

  // ---------- bounds ----------

  predicate Sensible(obs: seq<Observation>, target: int) {
    0 <= target <= 100 && forall o :: o in obs ==> o.capacity >= 0
  }

  /** Every exact reduction can be held by a 32-bit integer. */
  predicate ReductionsFit(obs: seq<Observation>, target: int) {
    forall g :: g in GoodOf(obs, target) ==> ExactReduction(FleetShare(obs, target), g.capacity) < 0x8000_0000
  }

  lemma OverflowNonNegative(over: seq<Observation>, target: int)
    requires forall o :: o in over ==> o.capacity >= 0
    ensures Overflow(over, target) >= 0
  {
    forall o | o in over ensures Excess(target)(o) >= 0 {
      ExcessBounds(o, target);
    }
    hide Excess;
    SumNonNegative(over, Excess(target));
  }

  /** The truncated excess is within one unit of the exact one. */
  lemma ExcessBounds(o: Observation, target: int)
    requires o.capacity >= 0
    ensures Excess(target)(o) >= 0
    ensures IsOver(o, target) ==>
      var exact := (o.utilization - target as real) * o.capacity as real;
      100.0 * Excess(target)(o) as real <= exact < 100.0 * Excess(target)(o) as real + 100.0
  {
  }

  lemma UnitsNonNegative(o: Observation, target: int)
    requires o.capacity >= 0
    ensures UnitsBeyond(o, target) >= 0.0
    ensures IsOver(o, target) ==>
      100.0 * UnitsBeyond(o, target) == (o.utilization - target as real) * o.capacity as real
  {
  }

  lemma ShareNonNegative(obs: seq<Observation>, target: int)
    requires Sensible(obs, target)
    ensures FleetShare(obs, target) >= 0
  {
    hide Overflow;
    OverflowNonNegative(OverOf(obs, target), target);
    if |GoodOf(obs, target)| > 0 {
      ShareBounds(Overflow(OverOf(obs, target), target), |GoodOf(obs, target)|);
    }
  }

  lemma ReductionBounds(share: int, capacity: I64)
    requires share >= 0
    ensures ExactReduction(share, capacity) >= 0
    ensures capacity > 0 ==>
      var held := ExactReduction(share, capacity) * capacity;
      held <= share * 100 < held + capacity
  {
    if capacity > 0 {
      QuotientBounds(share * 100, capacity);
    }
  }

  lemma QuotientBounds(x: nat, d: nat)
    requires d > 0
    ensures 0 <= TruncDiv(x, d)
    ensures x - d < TruncDiv(x, d) * d <= x
  {
    assert x == x / d * d + x % d;
  }

  lemma CancelFactor(x: int, y: int, c: nat)
    requires x * c < y * c
    ensures x < y
  {
  }

  /** A good budget stays within a target below 100 exactly when the low 32 bits of its
      reduction are at most the target plus 2^31; a reduction that fits always qualifies. */
  lemma GoodBudgetWithinTarget(target: int, share: int, capacity: I64)
    requires 0 <= target <= 100 && share >= 0
    ensures 0 <= GoodBudget(target, share, capacity)
    ensures GoodBudget(target, share, capacity) <= target
       <==> target == 100 || ExactReduction(share, capacity) % 0x1_0000_0000 <= target + 0x8000_0000
    ensures ExactReduction(share, capacity) < 0x8000_0000 ==>
      GoodBudget(target, share, capacity) == Max(0, target - ExactReduction(share, capacity))
  {
    hide ExactReduction;
    ReductionBounds(share, capacity);
    WrappedDifference(target, ExactReduction(share, capacity));
  }

  lemma WrappedDifference(target: int, reduction: int)
    requires 0 <= target <= 100 && reduction >= 0
    ensures WrapI32(target - WrapI32(reduction)) <= target
       <==> reduction % 0x1_0000_0000 <= target + 0x8000_0000
  {
    var low := reduction % 0x1_0000_0000;
    LowBits(reduction);
    assert WrapI32(reduction) == if low < 0x8000_0000 then low else low - 0x1_0000_0000;
    WrappedOnce(target - WrapI32(reduction));
    hide WrapI32;
  }

  lemma LowBits(x: int)
    ensures var low := x % 0x1_0000_0000;
      WrapI32(x) == if low < 0x8000_0000 then low else low - 0x1_0000_0000
  {
  }

  lemma WrappedOnce(x: int)
    requires -0x8000_0000 <= x < 0x1_0000_0000
    ensures WrapI32(x) == if x < 0x8000_0000 then x else x - 0x1_0000_0000
  {
  }

  /** A fleet where the reduction does not fit: a large over-cluster and a good cluster of one
      unit. The good cluster ends up above the target, at 100%. */
  lemma WrappedReductionRaisesBudget()
    ensures var obs := [Observation("big", 90.0, 429_496_720), Observation("tiny", 10.0, 1)];
      Equalized(obs, 80) == [ComputedBudget("big", 90, Over), ComputedBudget("tiny", 100, Good)]
  {
    var big, tiny := Observation("big", 90.0, 429_496_720), Observation("tiny", 10.0, 1);
    TwoClusters(big, tiny, 80);
    assert Excess(80)(big) == 42_949_672;
    assert GoodBudget(80, 42_949_672, 1) == 100;
    hide Excess, GoodBudget, Equalized;
  }

  lemma TwoClusters(a: Observation, b: Observation, target: int)
    requires IsOver(a, target) && !IsOver(b, target)
    ensures Equalized([a, b], target) == [Frozen(a), Reduced(target, Share(Excess(target)(a), 1), b)]
  {
    hide IsOver, Excess, Frozen, Reduced, Share;
    assert [a, b][1..] == [b] && [b][1..] == [] && [a][1..] == [];
    assert GoodOf([b][1..], target) == [] && OverOf([a][1..], target) == [];
    assert OverOf([b], target) == [] && GoodOf([b], target) == [b] + [];
    assert OverOf([a, b], target) == [a] + [] && GoodOf([a, b], target) == [b];
    assert Overflow([a], target) == Excess(target)(a) + Sum([], Excess(target));
  }

  /** Over budgets lie in target..100, good budgets in 0..target, for every input; in
      particular when there is nobody to compensate, or a cluster has no capacity. */
  lemma BudgetBounds(obs: seq<Observation>, target: int, i: nat)
    requires Sensible(obs, target) && ReductionsFit(obs, target) && i < |Equalized(obs, target)|
    ensures var b := Equalized(obs, target)[i];
      if b.state == Over then target <= b.budgetPercent <= 100 else 0 <= b.budgetPercent <= target
  {
    hide ExactReduction, FleetShare, GoodBudget;
    var over, good := OverOf(obs, target), GoodOf(obs, target);
    if i < |over| {
      assert Equalized(obs, target)[i] == Frozen(over[i]) && IsOver(over[i], target);
    } else {
      var g := good[i - |over|];
      assert Equalized(obs, target)[i] == Reduced(target, FleetShare(obs, target), g) && g in good;
      ShareNonNegative(obs, target);
      GoodBudgetWithinTarget(target, FleetShare(obs, target), g.capacity);
      ReductionBounds(FleetShare(obs, target), g.capacity);
    }
  }

  /** Exactly which good clusters of a fleet keep the target: those whose share does not come to a
      whole point of their capacity, those without capacity, and all of them at a target of 0. */
  lemma TargetKeptIff(obs: seq<Observation>, target: int, i: nat)
    requires Sensible(obs, target) && ReductionsFit(obs, target) && i < |Equalized(obs, target)|
    requires Equalized(obs, target)[i].state == Good
    ensures
      var capacity := Reordered(obs, target)[i].capacity;
      var kept := Equalized(obs, target)[i].budgetPercent == target;
      kept <==> target == 0 || capacity == 0 || 100 * FleetShare(obs, target) < capacity
  {
    hide ExactReduction, FleetShare, GoodBudget;
    var g, share := GoodOf(obs, target)[i - |OverOf(obs, target)|], FleetShare(obs, target);
    assert g in GoodOf(obs, target) && Reordered(obs, target)[i] == g;
    ShareNonNegative(obs, target);
    GoodBudgetWithinTarget(target, share, g.capacity);
    ReductionBounds(share, g.capacity);
    WholePointIff(share, g.capacity);
  }

  lemma WholePointIff(share: int, capacity: I64)
    requires share >= 0 && capacity >= 0
    ensures ExactReduction(share, capacity) == 0 <==> capacity == 0 || 100 * share < capacity
  {
    ReductionBounds(share, capacity);
    if capacity > 0 && ExactReduction(share, capacity) > 0 {
      ProductMonotone(1, ExactReduction(share, capacity), capacity);
    }
  }

  lemma NothingToCompensate(obs: seq<Observation>, target: int, i: nat)
    requires Sensible(obs, target) && i < |Equalized(obs, target)|
    requires Equalized(obs, target)[i].state == Good
    requires OverOf(obs, target) == [] || Reordered(obs, target)[i].capacity == 0
    ensures Equalized(obs, target)[i].budgetPercent == target
  {
  }

  // ---------- balance ----------

  function Capacity(): Observation -> int {
    (o: Observation) => o.capacity
  }

  function CapacityOf(os: seq<Observation>): int {
    Sum(os, Capacity())
  }

  /** Total budget in percent-units: each result weighted with its own cluster's capacity. */
  function Weighted(results: seq<ComputedBudget>, clusters: seq<Observation>): int
    requires |results| == |clusters|
  {
    if results == [] then 0
    else results[0].budgetPercent * clusters[0].capacity + Weighted(results[1..], clusters[1..])
  }

  lemma {:induction false} WeightedAppend(a: seq<ComputedBudget>, b: seq<ComputedBudget>,
                                          as_: seq<Observation>, bs: seq<Observation>)
    requires |a| == |as_| && |b| == |bs|
    ensures Weighted(a + b, as_ + bs) == Weighted(a, as_) + Weighted(b, bs)
  {
    if a == [] {
      assert a + b == b && as_ + bs == bs;
    } else {
      assert (a + b)[1..] == a[1..] + b && (as_ + bs)[1..] == as_[1..] + bs;
      WeightedAppend(a[1..], b, as_[1..], bs);
    }
  }

  /** A frozen cluster keeps its share of the target plus its excess, up to rounding. */
  lemma FrozenWeight(o: Observation, target: int)
    requires 0 <= target && o.capacity >= 0 && IsOver(o, target)
    ensures o.utilization <= 100.0 ==>
      (Frozen(o).budgetPercent + 1) * o.capacity >= target * o.capacity + 100 * Excess(target)(o)
    ensures Frozen(o).budgetPercent * o.capacity <= target * o.capacity + 100 * Excess(target)(o) + 100
  {
    ExcessBounds(o, target);
    var b, e := Frozen(o).budgetPercent, Excess(target)(o);
    assert b as real <= o.utilization && (o.utilization <= 100.0 ==> o.utilization <= b as real + 1.0);
    hide Excess, Frozen, IsOver;
    if o.utilization <= 100.0 {
      WeightFromBelow(o.utilization, b + 1, target, o.capacity, e);
    }
    WeightFromAbove(o.utilization, b, target, o.capacity, e);
  }

  lemma WeightFromBelow(u: real, b: int, target: int, c: nat, e: int)
    requires u <= b as real && 100.0 * e as real <= (u - target as real) * c as real
    ensures b * c >= target * c + 100 * e
  {
  }

  lemma WeightFromAbove(u: real, b: int, target: int, c: nat, e: int)
    requires b as real <= u && (u - target as real) * c as real < 100.0 * e as real + 100.0
    ensures b * c <= target * c + 100 * e + 100
  {
  }

  lemma RealProductMonotone(x: real, y: real, c: real)
    requires x <= y && c >= 0.0
    ensures x * c <= y * c
  {
  }

  /** A good cluster gives up its share of the overflow, up to rounding. */
  lemma ReducedWeight(target: int, share: int, o: Observation)
    requires 0 <= target <= 100 && share >= 0 && o.capacity >= 0
    ensures GoodBudget(target, share, o.capacity) * o.capacity >= target * o.capacity - 100 * share
    ensures o.capacity > 0 && ExactReduction(share, o.capacity) <= target ==>
      GoodBudget(target, share, o.capacity) * o.capacity <= target * o.capacity - 100 * share + o.capacity
  {
    var reduction, c, b := ExactReduction(share, o.capacity), o.capacity, GoodBudget(target, share, o.capacity);
    ReductionBounds(share, c);
    GoodBudgetWithinTarget(target, share, c);
    assert b >= target - reduction;
    hide GoodBudget, ExactReduction;
    if c > 0 {
      ProductMonotone(target - reduction, b, c);
      assert (target - reduction) * c == target * c - reduction * c;
    }
  }

  lemma {:induction false} FrozenWeights(over: seq<Observation>, target: int)
    requires 0 <= target && forall o :: o in over ==> o.capacity >= 0 && IsOver(o, target)
    ensures (forall o :: o in over ==> o.utilization <= 100.0) ==>
      Weighted(FrozenAll(over), over) + CapacityOf(over) >= target * CapacityOf(over) + 100 * Overflow(over, target)
    ensures Weighted(FrozenAll(over), over)
         <= target * CapacityOf(over) + 100 * Overflow(over, target) + 100 * |over|
  {
    hide Excess, Frozen, IsOver;
    if over != [] {
      FrozenWeight(over[0], target);
      FrozenWeights(over[1..], target);
      assert FrozenAll(over)[1..] == FrozenAll(over[1..]);
      CapacityStep(over, target);
    }
  }

  /** Capacities and their multiples, one cluster at a time. */
  lemma CapacityStep(os: seq<Observation>, target: int)
    requires os != []
    ensures CapacityOf(os) == os[0].capacity + CapacityOf(os[1..])
    ensures target * CapacityOf(os) == target * os[0].capacity + target * CapacityOf(os[1..])
  {
  }

  /** What a good cluster keeps when it gives up its share exactly. */
  function Kept(target: int, share: int): Observation -> int {
    (o: Observation) => target * o.capacity - 100 * share
  }

  lemma {:induction false} KeptTotal(target: int, share: int, good: seq<Observation>)
    ensures Sum(good, Kept(target, share)) == target * CapacityOf(good) - 100 * (share * |good|)
  {
    if good != [] {
      KeptTotal(target, share, good[1..]);
      CapacityStep(good, target);
      Distribute(share, |good[1..]|, 1);
    }
  }

  lemma {:induction false} ReducedWeights(target: int, share: int, good: seq<Observation>)
    requires 0 <= target <= 100 && share >= 0 && forall o :: o in good ==> o.capacity >= 0
    ensures Weighted(ReducedAll(target, share, good), good) >= Sum(good, Kept(target, share))
    ensures (forall o :: o in good ==> o.capacity > 0 && ExactReduction(share, o.capacity) <= target) ==>
      Weighted(ReducedAll(target, share, good), good) <= Sum(good, Kept(target, share)) + CapacityOf(good)
  {
    hide GoodBudget, ExactReduction;
    if good != [] {
      ReducedWeight(target, share, good[0]);
      ReducedWeights(target, share, good[1..]);
      assert ReducedAll(target, share, good)[1..] == ReducedAll(target, share, good[1..]);
    }
  }

  /** Flooring gives a good cluster no more than its exact due precisely when nothing is floored:
      a whole-point reduction that does not exceed the target. Any share and any capacity. */
  lemma FlooringIsExactIff(target: int, share: int, capacity: I64)
    requires 0 <= target <= 100 && share >= 0 && capacity >= 0
    ensures var reduction := ExactReduction(share, capacity);
      var within := GoodBudget(target, share, capacity) * capacity <= target * capacity - 100 * share;
      within <==> reduction <= target && reduction * capacity == share * 100
  {
    var reduction, b := ExactReduction(share, capacity), GoodBudget(target, share, capacity);
    ReductionBounds(share, capacity);
    GoodBudgetWithinTarget(target, share, capacity);
    assert capacity == 0 ==> reduction == 0;
    hide GoodBudget, ExactReduction;
    Distribute(capacity, target - reduction, reduction);
    if reduction > target {
      ProductMonotone(0, b, capacity);
      ProductMonotone(target + 1, reduction, capacity);
      Distribute(capacity, target, 1);
    }
  }

  /** A budget that the flooring leaves too high: the exact budget is 46 2/3, the floored
      reduction of 33 leaves 47. */
  lemma FlooringRaisesBudget()
    ensures GoodBudget(80, 1, 3) == 47 && GoodBudget(80, 1, 3) * 3 > 80 * 3 - 100 * 1
  {
  }

  /** For the good clusters together: they give up the whole overflow assigned to them exactly
      when each of them does. */
  lemma {:induction false} OverflowAbsorbedIff(target: int, share: int, good: seq<Observation>)
    requires 0 <= target <= 100 && share >= 0 && forall o :: o in good ==> o.capacity >= 0
    ensures Weighted(ReducedAll(target, share, good), good) <= Sum(good, Kept(target, share))
       <==> forall o :: o in good ==> && ExactReduction(share, o.capacity) <= target
                                      && ExactReduction(share, o.capacity) * o.capacity == share * 100
  {
    hide GoodBudget, ExactReduction;
    if good != [] {
      FlooringIsExactIff(target, share, good[0].capacity);
      ReducedWeight(target, share, good[0]);
      ReducedWeights(target, share, good[1..]);
      OverflowAbsorbedIff(target, share, good[1..]);
      assert ReducedAll(target, share, good)[1..] == ReducedAll(target, share, good[1..]);
      assert good == [good[0]] + good[1..];
    }
  }

  lemma ShareBounds(overflow: nat, goodCount: nat)
    requires goodCount > 0
    ensures Share(overflow, goodCount) >= 0
    ensures overflow - goodCount < Share(overflow, goodCount) * goodCount <= overflow
  {
    QuotientBounds(overflow, goodCount);
  }

  lemma CapacitySplits(obs: seq<Observation>, target: int)
    ensures CapacityOf(obs) == CapacityOf(OverOf(obs, target)) + CapacityOf(GoodOf(obs, target))
    ensures target * CapacityOf(obs)
         == target * CapacityOf(OverOf(obs, target)) + target * CapacityOf(GoodOf(obs, target))
  {
    PartitionKeepsAll(obs, target);
    SumPermutation(Reordered(obs, target), obs, Capacity());
    SumAppend(OverOf(obs, target), GoodOf(obs, target), Capacity());
    Distribute(target, CapacityOf(OverOf(obs, target)), CapacityOf(GoodOf(obs, target)));
  }

  lemma Distribute(t: int, a: int, b: int)
    ensures t * (a + b) == t * a + t * b
  {
  }

  /** The fleet total. */
  function FleetWeight(obs: seq<Observation>, target: int): int {
    Weighted(FrozenAll(OverOf(obs, target)), OverOf(obs, target))
    + Weighted(ReducedAll(target, FleetShare(obs, target), GoodOf(obs, target)), GoodOf(obs, target))
  }

  lemma FleetWeightIsTotal(obs: seq<Observation>, target: int)
    ensures |Equalized(obs, target)| == |Reordered(obs, target)|
    ensures FleetWeight(obs, target) == Weighted(Equalized(obs, target), Reordered(obs, target))
  {
    WeightedAppend(FrozenAll(OverOf(obs, target)), ReducedAll(target, FleetShare(obs, target), GoodOf(obs, target)),
                   OverOf(obs, target), GoodOf(obs, target));
  }

  /** Balance from below: while no cluster is above 100%, the fleet keeps at least the target
      less one point of the over-clusters' capacity. */
  lemma BalanceFromBelow(obs: seq<Observation>, target: int)
    requires Sensible(obs, target)
    requires forall o :: o in OverOf(obs, target) ==> o.utilization <= 100.0
    ensures FleetWeight(obs, target) >= target * CapacityOf(obs) - CapacityOf(OverOf(obs, target))
  {
    hide Weighted, Overflow, CapacityOf;
    var over, good := OverOf(obs, target), GoodOf(obs, target);
    OverflowNonNegative(over, target);
    FrozenWeights(over, target);
    ShareNonNegative(obs, target);
    ReducedWeights(target, FleetShare(obs, target), good);
    KeptTotal(target, FleetShare(obs, target), good);
    CapacitySplits(obs, target);
    if good != [] {
      ShareBounds(Overflow(over, target), |good|);
    }
  }

  /** Balance from above: with capacity everywhere and every reduction within the target, the
      fleet exceeds the target by at most one point of the good clusters' capacity and less
      than 100 percent-units of rounding per cluster. */
  lemma BalanceFromAbove(obs: seq<Observation>, target: int)
    requires Sensible(obs, target) && GoodOf(obs, target) != []
    requires forall g :: g in GoodOf(obs, target) ==>
      g.capacity > 0 && ExactReduction(FleetShare(obs, target), g.capacity) <= target
    ensures FleetWeight(obs, target)
          < target * CapacityOf(obs) + CapacityOf(GoodOf(obs, target)) + 100 * |obs|
  {
    hide Weighted, Overflow, CapacityOf;
    var over, good := OverOf(obs, target), GoodOf(obs, target);
    OverflowNonNegative(over, target);
    FrozenWeights(over, target);
    ShareBounds(Overflow(over, target), |good|);
    ReducedWeights(target, FleetShare(obs, target), good);
    KeptTotal(target, FleetShare(obs, target), good);
    CapacitySplits(obs, target);
    PartitionKeepsAll(obs, target);
    assert |obs| == |multiset(obs)| == |multiset(over) + multiset(good)| == |over| + |good|;
  }

  // ---------- exact balance ----------

  /** Nothing is rounded: whole-percent utilizations up to 100, whole excess units, a share
      that divides evenly, and whole-point reductions no larger than the target. */
  predicate NothingRounded(obs: seq<Observation>, target: int) {
    && (forall o :: o in OverOf(obs, target) ==>
          && o.utilization == Frozen(o).budgetPercent as real
          && (Frozen(o).budgetPercent - target) * o.capacity % 100 == 0)
    && Overflow(OverOf(obs, target), target) == FleetShare(obs, target) * |GoodOf(obs, target)|
    && forall g :: g in GoodOf(obs, target) ==>
         && ExactReduction(FleetShare(obs, target), g.capacity) * g.capacity == FleetShare(obs, target) * 100
         && ExactReduction(FleetShare(obs, target), g.capacity) <= target
  }

  lemma {:induction false} FrozenWeightsExact(over: seq<Observation>, target: int)
    requires 0 <= target && forall o :: o in over ==> o.capacity >= 0 && IsOver(o, target)
    requires forall o :: o in over ==> && o.utilization == Frozen(o).budgetPercent as real
                                       && (Frozen(o).budgetPercent - target) * o.capacity % 100 == 0
    ensures Weighted(FrozenAll(over), over) == target * CapacityOf(over) + 100 * Overflow(over, target)
  {
    hide Excess, Frozen, IsOver;
    if over != [] {
      WholeExcess(over[0], target);
      FrozenWeightsExact(over[1..], target);
      assert FrozenAll(over)[1..] == FrozenAll(over[1..]);
      CapacityStep(over, target);
    }
  }

  lemma WholeExcess(o: Observation, target: int)
    requires o.capacity >= 0 && IsOver(o, target)
    requires o.utilization == Frozen(o).budgetPercent as real
    requires (Frozen(o).budgetPercent - target) * o.capacity % 100 == 0
    ensures Frozen(o).budgetPercent * o.capacity == target * o.capacity + 100 * Excess(target)(o)
  {
    ExcessBounds(o, target);
    var b, c, e := Frozen(o).budgetPercent, o.capacity, Excess(target)(o);
    hide Excess, Frozen, IsOver;
    assert o.utilization - target as real == (b - target) as real;
    WholeProduct(b - target, c);
    WholeHundreds((b - target) * c, e);
    Distribute(c, b - target, target);
  }

  lemma WholeHundreds(x: int, e: int)
    requires x % 100 == 0
    requires 100.0 * e as real <= x as real < 100.0 * e as real + 100.0
    ensures x == 100 * e
  {
  }

  lemma {:induction false} ReducedWeightsExact(target: int, share: int, good: seq<Observation>)
    requires 0 <= target <= 100 && share >= 0 && forall o :: o in good ==> o.capacity >= 0
    requires forall o :: o in good ==> && ExactReduction(share, o.capacity) * o.capacity == share * 100
                                       && ExactReduction(share, o.capacity) <= target
    ensures Weighted(ReducedAll(target, share, good), good) == Sum(good, Kept(target, share))
  {
    hide GoodBudget, ExactReduction;
    if good != [] {
      var reduction, c := ExactReduction(share, good[0].capacity), good[0].capacity;
      ReductionBounds(share, c);
      GoodBudgetWithinTarget(target, share, c);
      assert GoodBudget(target, share, c) == target - reduction;
      Distribute(c, target - reduction, reduction);
      ReducedWeightsExact(target, share, good[1..]);
      assert ReducedAll(target, share, good)[1..] == ReducedAll(target, share, good[1..]);
    }
  }

  /** Without rounding the fleet lands on the target exactly. */
  lemma BalanceExact(obs: seq<Observation>, target: int)
    requires Sensible(obs, target) && NothingRounded(obs, target)
    ensures FleetWeight(obs, target) == target * CapacityOf(obs)
  {
    hide Weighted, Overflow, CapacityOf, FleetShare, Frozen, ExactReduction;
    FrozenWeightsExact(OverOf(obs, target), target);
    ShareNonNegative(obs, target);
    ReducedWeightsExact(target, FleetShare(obs, target), GoodOf(obs, target));
    KeptTotal(target, FleetShare(obs, target), GoodOf(obs, target));
    CapacitySplits(obs, target);
  }

  // ---------- relational laws ----------

  /** The same fleet with the utilization of over-clusters raised. */
  predicate Raised(obs: seq<Observation>, obs': seq<Observation>, target: int) {
    && |obs| == |obs'|
    && forall i :: 0 <= i < |obs| ==>
         if IsOver(obs[i], target)
         then obs'[i] == obs[i].(utilization := obs'[i].utilization) && obs[i].utilization <= obs'[i].utilization
         else obs'[i] == obs[i]
  }

  lemma {:induction false} RaisedParts(obs: seq<Observation>, obs': seq<Observation>, target: int)
    requires Raised(obs, obs', target) && forall o :: o in obs ==> o.capacity >= 0
    ensures GoodOf(obs', target) == GoodOf(obs, target)
    ensures |OverOf(obs', target)| == |OverOf(obs, target)|
    ensures Overflow(OverOf(obs, target), target) <= Overflow(OverOf(obs', target), target)
  {
    hide Excess;
    if obs != [] {
      RaisedParts(obs[1..], obs'[1..], target);
      if IsOver(obs[0], target) {
        ExcessMonotone(obs[0], obs'[0], target);
        assert OverOf(obs, target)[1..] == OverOf(obs[1..], target);
        assert OverOf(obs', target)[1..] == OverOf(obs'[1..], target);
      }
    }
  }

  lemma ExcessMonotone(o: Observation, o': Observation, target: int)
    requires IsOver(o, target) && o.capacity == o'.capacity >= 0 && o.utilization <= o'.utilization
    ensures Excess(target)(o) <= Excess(target)(o')
  {
    var p, p', c := o.utilization - target as real, o'.utilization - target as real, o.capacity as real;
    UnitsNonNegative(o, target);
    UnitsNonNegative(o', target);
    hide UnitsBeyond;
    RealProductMonotone(p, p', c);
    assert 100.0 * UnitsBeyond(o, target) == p * c && 100.0 * UnitsBeyond(o', target) == p' * c;
    TruncateMonotone(UnitsBeyond(o, target), UnitsBeyond(o', target));
  }

  lemma TruncateMonotone(x: real, y: real)
    requires 0.0 <= x <= y
    ensures Truncate(x) <= Truncate(y)
  {
  }

  lemma ReductionMonotone(share: nat, share': nat, capacity: I64, capacity': I64)
    requires share <= share' && capacity' <= capacity && capacity' > 0
    ensures ExactReduction(share, capacity) <= ExactReduction(share', capacity')
  {
    var q, q' := ExactReduction(share, capacity), ExactReduction(share', capacity');
    ReductionBounds(share, capacity);
    ReductionBounds(share', capacity');
    hide ExactReduction;
    assert q * capacity' <= q * capacity;
    assert q * capacity' < (q' + 1) * capacity' == q' * capacity' + capacity';
    CancelFactor(q, q' + 1, capacity');
  }

  /** Raising over-clusters never raises a good cluster's budget. */
  lemma MoreExcessLowersBudgets(obs: seq<Observation>, obs': seq<Observation>, target: int, k: nat)
    requires Sensible(obs, target) && Raised(obs, obs', target)
    requires ReductionsFit(obs, target) && ReductionsFit(obs', target)
    requires k < |GoodOf(obs, target)|
    ensures GoodOf(obs', target) == GoodOf(obs, target)
    ensures var i, i' := |OverOf(obs, target)| + k, |OverOf(obs', target)| + k;
      Equalized(obs', target)[i'].budgetPercent <= Equalized(obs, target)[i].budgetPercent
  {
    RaisedParts(obs, obs', target);
    var g := GoodOf(obs, target)[k];
    var share, share' := FleetShare(obs, target), FleetShare(obs', target);
    ShareNonNegative(obs, target);
    OverflowNonNegative(OverOf(obs, target), target);
    ShareMonotone(Overflow(OverOf(obs, target), target), Overflow(OverOf(obs', target), target), |GoodOf(obs, target)|);
    GoodBudgetWithinTarget(target, share, g.capacity);
    GoodBudgetWithinTarget(target, share', g.capacity);
    if g.capacity > 0 {
      ReductionMonotone(share, share', g.capacity, g.capacity);
    }
    assert ExactReduction(share, g.capacity) < 0x8000_0000;
    assert g in GoodOf(obs', target);
    assert ExactReduction(share', g.capacity) < 0x8000_0000;
    hide GoodBudget, ExactReduction;
  }

  lemma ShareMonotone(overflow: nat, overflow': nat, goodCount: nat)
    requires overflow <= overflow' && goodCount > 0
    ensures Share(overflow, goodCount) <= Share(overflow', goodCount)
  {
    var q, q' := Share(overflow, goodCount), Share(overflow', goodCount);
    ShareBounds(overflow, goodCount);
    ShareBounds(overflow', goodCount);
    hide Share;
    assert q * goodCount < (q' + 1) * goodCount == q' * goodCount + goodCount;
    CancelFactor(q, q' + 1, goodCount);
  }

  /** Of two good clusters with capacity, the larger never gets the lower budget. */
  lemma LargerClusterKeepsMore(obs: seq<Observation>, target: int, i: nat, j: nat)
    requires Sensible(obs, target) && ReductionsFit(obs, target)
    requires i < |GoodOf(obs, target)| && j < |GoodOf(obs, target)|
    requires 0 < GoodOf(obs, target)[i].capacity <= GoodOf(obs, target)[j].capacity
    ensures var first := |OverOf(obs, target)|;
      Equalized(obs, target)[first + i].budgetPercent <= Equalized(obs, target)[first + j].budgetPercent
  {
    var share, a, b := FleetShare(obs, target), GoodOf(obs, target)[i], GoodOf(obs, target)[j];
    ShareNonNegative(obs, target);
    GoodBudgetWithinTarget(target, share, a.capacity);
    GoodBudgetWithinTarget(target, share, b.capacity);
    ReductionMonotone(share, share, b.capacity, a.capacity);
    assert ExactReduction(share, a.capacity) < 0x8000_0000 && ExactReduction(share, b.capacity) < 0x8000_0000;
    hide GoodBudget, ExactReduction;
  }
}
