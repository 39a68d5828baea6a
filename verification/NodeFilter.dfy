/** Which nodes count toward capacity: label selectors and the two exclusion layers. */
module NodeFilter {
  import opened Wrappers

  datatype Requirement = Requirement(key: string, operator: string, values: Option<seq<string>>)

  datatype LabelSelector = LabelSelector(
    matchLabels: Option<map<string, string>>,
    matchExpressions: Option<seq<Requirement>>)

  datatype SelectorError =
    | UnknownOperator(operator: string, key: string)
    | MissingValues(operator: string, key: string)
    | UnexpectedValues(operator: string, key: string)

  type Labels = map<string, string>

  // ---------- the program's functions ----------

  function ValidateRequirement(req: Requirement): Option<SelectorError> {
    var hasValues := req.values.Some? && req.values.value != [];
    if req.operator == "In" || req.operator == "NotIn" then
      if hasValues then None else Some(MissingValues(req.operator, req.key))
    else if req.operator == "Exists" || req.operator == "DoesNotExist" then
      if hasValues then Some(UnexpectedValues(req.operator, req.key)) else None
    else
      Some(UnknownOperator(req.operator, req.key))
  }

  /** The first defect of the list, if any. */
  function ValidateRequirements(reqs: seq<Requirement>): (e: Option<SelectorError>)
    ensures e.None? <==> forall req :: req in reqs ==> ValidateRequirement(req).None?
  {
    if reqs == [] then None
    else
      match ValidateRequirement(reqs[0])
      case Some(e) => Some(e)
      case None => ValidateRequirements(reqs[1..])
  }

  function ValidateSelector(selector: LabelSelector): Option<SelectorError> {
    ValidateRequirements(selector.matchExpressions.GetOr([]))
  }

  function LabelOf(labels: Labels, key: string): Option<string> {
    if key in labels then Some(labels[key]) else None
  }

  predicate RequirementMatches(labels: Labels, req: Requirement) {
    var nodeValue := LabelOf(labels, req.key);
    match req.operator
    case "In" => nodeValue.Some? && req.values.Some? && nodeValue.value in req.values.value
    case "NotIn" => req.values.None? || !(nodeValue.Some? && nodeValue.value in req.values.value)
    case "Exists" => nodeValue.Some?
    case "DoesNotExist" => nodeValue.None?
    case _ => false
  }

  predicate LabelsMatchSelector(labels: Labels, selector: LabelSelector) {
    && (selector.matchLabels.Some? ==>
          forall key :: key in selector.matchLabels.value ==>
            LabelOf(labels, key) == Some(selector.matchLabels.value[key]))
    && (selector.matchExpressions.Some? ==>
          forall req :: req in selector.matchExpressions.value ==> RequirementMatches(labels, req))
  }

  predicate SelectorIsEmpty(selector: LabelSelector) {
    && (selector.matchLabels.Some? ==> selector.matchLabels.value == map[])
    && (selector.matchExpressions.Some? ==> selector.matchExpressions.value == [])
  }

  predicate LabelsMatchAnySelector(labels: Labels, selectors: seq<LabelSelector>) {
    exists sel :: sel in selectors && !SelectorIsEmpty(sel) && LabelsMatchSelector(labels, sel)
  }

  predicate IsNodeCounted(unschedulable: bool, labels: Option<Labels>, selectors: Option<seq<LabelSelector>>) {
    if unschedulable then false
    else if selectors.None? || selectors.value == [] then true
    else if labels.None? then true
    else !LabelsMatchAnySelector(labels.value, selectors.value)
  }

  // ---------- what a selector means ----------

  /** A test of the value a node has under one key: is it one of these, or is there one at all;
      each can be asked either way round. */
  datatype Test =
    | Membership(key: string, values: set<string>, wanted: bool)
    | Presence(key: string, wanted: bool)

  predicate Passes(t: Test, labels: Labels) {
    match t
    case Membership(key, values, wanted) => (key in labels && labels[key] in values) == wanted
    case Presence(key, wanted) => (key in labels) == wanted
  }

  function ValueSet(values: Option<seq<string>>): set<string> {
    set v | v in values.GetOr([])
  }

  /** The test a well-formed requirement stands for; `NotIn` is the negation of `In`, and
      `DoesNotExist` that of `Exists`. */
  function TestOf(req: Requirement): Test
    requires ValidateRequirement(req).None?
  {
    if req.operator == "In" then Membership(req.key, ValueSet(req.values), true)
    else if req.operator == "NotIn" then Membership(req.key, ValueSet(req.values), false)
    else Presence(req.key, req.operator == "Exists")
  }

  /** All tests of a selector: an exact label is membership in a one-element set. */
  function TestsOf(selector: LabelSelector): set<Test>
    requires ValidateSelector(selector).None?
  {
    var exact := selector.matchLabels.GetOr(map[]);
    (set key | key in exact :: Membership(key, {exact[key]}, true))
    + (set req | req in selector.matchExpressions.GetOr([]) :: TestOf(req))
  }

  /** Which requirements are well formed: a membership test with values, or a presence test without;
      and what is wrong with any other. */
  lemma WellFormedIff(req: Requirement)
    ensures var valued := req.values.Some? && |req.values.value| > 0;
      var membership, presence := req.operator in {"In", "NotIn"}, req.operator in {"Exists", "DoesNotExist"};
      ValidateRequirement(req) ==
        if membership then (if valued then None else Some(MissingValues(req.operator, req.key)))
        else if presence then (if valued then Some(UnexpectedValues(req.operator, req.key)) else None)
        else Some(UnknownOperator(req.operator, req.key))
  {
  }

  /** A selector is refused for the first of its requirements that is not well formed. */
  lemma {:induction false} FirstDefect(reqs: seq<Requirement>, i: nat)
    requires i < |reqs| && ValidateRequirement(reqs[i]).Some?
    requires forall j :: 0 <= j < i ==> ValidateRequirement(reqs[j]).None?
    ensures ValidateRequirements(reqs) == ValidateRequirement(reqs[i])
  {
    if i > 0 {
      FirstDefect(reqs[1..], i - 1);
    }
  }

  /** The layers outside the selectors: a cordoned node never counts, and without selectors every
      other node does. */
  lemma OuterLayers(labels: Option<Labels>, selectors: Option<seq<LabelSelector>>)
    ensures !IsNodeCounted(true, labels, selectors)
    ensures selectors.GetOr([]) == [] ==> IsNodeCounted(false, labels, selectors)
    ensures IsNodeCounted(false, None, selectors)
  {
  }

  lemma RequirementMeaning(labels: Labels, req: Requirement)
    requires ValidateRequirement(req).None?
    ensures req.operator in {"In", "NotIn", "Exists", "DoesNotExist"}
    ensures RequirementMatches(labels, req) <==> Passes(TestOf(req), labels)
  {
  }

  /** A validated selector matches exactly the label maps that pass every one of its tests. */
  lemma SelectorMeaning(labels: Labels, selector: LabelSelector)
    requires ValidateSelector(selector).None?
    ensures LabelsMatchSelector(labels, selector) <==> forall t :: t in TestsOf(selector) ==> Passes(t, labels)
  {
    var reqs := selector.matchExpressions.GetOr([]);
    var exact := selector.matchLabels.GetOr(map[]);
    forall req | req in reqs ensures RequirementMatches(labels, req) <==> Passes(TestOf(req), labels) {
      RequirementMeaning(labels, req);
    }
    hide RequirementMatches, TestOf;
    forall key | key in exact
      ensures LabelOf(labels, key) == Some(exact[key]) <==> Passes(Membership(key, {exact[key]}, true), labels)
    {
    }
    if LabelsMatchSelector(labels, selector) {
      forall t | t in TestsOf(selector) ensures Passes(t, labels) {
      }
    } else if forall t :: t in TestsOf(selector) ==> Passes(t, labels) {
      forall key | key in exact ensures LabelOf(labels, key) == Some(exact[key]) {
        assert Membership(key, {exact[key]}, true) in TestsOf(selector);
      }
      forall req | req in reqs ensures RequirementMatches(labels, req) {
        assert TestOf(req) in TestsOf(selector);
      }
      assert false;
    }
  }

  /** Empty selectors have no tests at all; the filter must skip them or they would match every
      node. */
  lemma EmptySelectorHasNoTests(selector: LabelSelector)
    ensures SelectorIsEmpty(selector) ==> ValidateSelector(selector).None?
    ensures ValidateSelector(selector).None? ==> (SelectorIsEmpty(selector) <==> TestsOf(selector) == {})
  {
    if ValidateSelector(selector).None? && !SelectorIsEmpty(selector) {
      var reqs := selector.matchExpressions.GetOr([]);
      var exact := selector.matchLabels.GetOr(map[]);
      if reqs != [] {
        assert TestOf(reqs[0]) in TestsOf(selector);
      } else {
        var key :| key in exact;
        assert Membership(key, {exact[key]}, true) in TestsOf(selector);
      }
    }
  }

  /** A node without a label map is counted even where an empty label map would be excluded. */
  lemma MissingLabelsAreNotEmptyLabels(key: string)
    ensures var sels := Some([LabelSelector(None, Some([Requirement(key, "DoesNotExist", None)]))]);
      && IsNodeCounted(false, None, sels)
      && !IsNodeCounted(false, Some(map[]), sels)
  {
    var sel := LabelSelector(None, Some([Requirement(key, "DoesNotExist", None)]));
    assert RequirementMatches(map[], Requirement(key, "DoesNotExist", None));
    assert LabelsMatchSelector(map[], sel) && sel in [sel];
  }

  /** More selectors exclude more nodes. */
  lemma MoreSelectorsCountLess(unschedulable: bool, labels: Option<Labels>,
                               few: seq<LabelSelector>, many: seq<LabelSelector>)
    requires forall sel :: sel in few ==> sel in many
    requires IsNodeCounted(unschedulable, labels, Some(many))
    ensures IsNodeCounted(unschedulable, labels, Some(few))
  {
  }
}
