/** Every reason for a rejection, and the fail-closed response it becomes. */
module AdmissionErrors {
  import opened Wrappers
  import opened Text
  import opened Quantity
  import opened Admission

  datatype MissingCapacityData = AllocationMissing | ClusterCapacityMissing

  datatype AdmissionError =
    | OverBudget(violations: seq<BudgetViolation>)
    | CapacityDataStale(ageSecs: int, thresholdSecs: int)
    | CapacityDataMissing(which: MissingCapacityData)
    | DeserialisationFailure(detail: string)
    | QuantityParseFailure(field: string, value: string)
    | Timeout(timeoutMs: nat)
    | InternalError
    | Unknown(detail: string)

  datatype Failure = Failure(message: string, reason: string, code: int)

  datatype AdmissionResponse = AdmissionResponse(uid: string, allowed: bool,
                                                 warnings: Option<seq<string>>, result: Option<Failure>)

  function StatusCode(error: AdmissionError): int {
    match error
    case OverBudget(_) => 403
    case DeserialisationFailure(_) => 400
    case QuantityParseFailure(_, _) => 400
    case _ => 500
  }

  function Slug(error: AdmissionError): string {
    match error
    case OverBudget(_) => "over_budget"
    case CapacityDataStale(_, _) => "capacity_data_stale"
    case CapacityDataMissing(_) => "capacity_data_missing"
    case DeserialisationFailure(_) => "deserialisation_failure"
    case QuantityParseFailure(_, _) => "quantity_parse_failure"
    case Timeout(_) => "timeout"
    case InternalError => "internal_error"
    case Unknown(_) => "unknown"
  }

  function Reason(error: AdmissionError): string {
    match error
    case OverBudget(_) => "OverBudget"
    case CapacityDataStale(_, _) => "CapacityDataStale"
    case CapacityDataMissing(_) => "CapacityDataMissing"
    case DeserialisationFailure(_) => "DeserialisationFailure"
    case QuantityParseFailure(_, _) => "QuantityParseFailure"
    case Timeout(_) => "Timeout"
    case InternalError => "InternalError"
    case Unknown(_) => "Unknown"
  }

  function Name(r: ResourceType): string {
    if r.Cpu? then "CPU" else "memory"
  }

  function Unit(r: ResourceType): string {
    if r.Cpu? then "m" else " bytes"
  }

  function MessageLine(v: BudgetViolation): string {
    Name(v.resource) + " budget exceeded: allocated " + FiguresText(v, Unit(v.resource))
  }

  function FiguresText(v: BudgetViolation, unit: string): string {
    SignedDecimal(v.inUse) + (unit + ", requested " + AfterAllocated(v, unit))
  }

  function AfterAllocated(v: BudgetViolation, unit: string): string {
    SignedDecimal(v.requested) + (unit + ", projected " + AfterRequested(v, unit))
  }

  function AfterRequested(v: BudgetViolation, unit: string): string {
    SignedDecimal(v.projected) + (unit + ", ceiling " + (SignedDecimal(v.ceiling) + unit))
  }

  function Lines(violations: seq<BudgetViolation>): string {
    if violations == [] then ""
    else if |violations| == 1 then MessageLine(violations[0])
    else MessageLine(violations[0]) + "\n" + Lines(violations[1..])
  }

  function Message(error: AdmissionError): string {
    match error
    case OverBudget(violations) => Lines(violations)
    case CapacityDataStale(age, threshold) =>
      "capacity data unavailable: last refresh " + SignedDecimal(age) + "s ago exceeds "
      + SignedDecimal(threshold) + "s threshold"
    case CapacityDataMissing(which) =>
      "capacity data unavailable: "
      + (if which.AllocationMissing? then "allocation state not initialised"
         else "cluster capacity state not initialised")
    case DeserialisationFailure(detail) => "admission request malformed: " + detail
    case QuantityParseFailure(field, value) =>
      "cannot parse resource quantity in pod spec: " + field + "=" + value
    case Timeout(ms) => "admission decision timed out after " + Decimal(ms) + "ms"
    case InternalError => "internal error: panic in admission handler"
    case Unknown(detail) => "internal error: " + detail
  }

  function IntoResponse(error: AdmissionError, uid: string): AdmissionResponse {
    AdmissionResponse(uid, false, None, Some(Failure(Message(error), Reason(error), StatusCode(error))))
  }

  // ---------- a message tells the whole story ----------

  /** A rejection line determines the violation: the resource and all four figures can be read
      back from it. */
  lemma MessageDeterminesViolation(v: BudgetViolation, v': BudgetViolation)
    requires MessageLine(v) == MessageLine(v')
    ensures v == v'
  {
    hide SignedDecimal;
    var text := " budget exceeded: allocated ";
    assert MessageLine(v)[0] == Name(v.resource)[0] && MessageLine(v')[0] == Name(v'.resource)[0];
    var unit, lead := Unit(v.resource), Name(v.resource) + text;
    DropPrefix(lead, FiguresText(v, unit), FiguresText(v', unit));
    NextFigure(v.inUse, v'.inUse, unit + ", requested ", AfterAllocated(v, unit), AfterAllocated(v', unit));
    NextFigure(v.requested, v'.requested, unit + ", projected ", AfterRequested(v, unit), AfterRequested(v', unit));
    NextFigure(v.projected, v'.projected, unit + ", ceiling ", SignedDecimal(v.ceiling) + unit,
               SignedDecimal(v'.ceiling) + unit);
    assert SignedDecimal(v.ceiling) + unit == SignedDecimal(v.ceiling) + (unit + "");
    assert SignedDecimal(v'.ceiling) + unit == SignedDecimal(v'.ceiling) + (unit + "");
    NextFigure(v.ceiling, v'.ceiling, unit, "", "");
  }

  /** So does a whole rejection: all its violations, in order, can be read back, one line each. */
  lemma {:induction false} MessageDeterminesViolations(vs: seq<BudgetViolation>, vs': seq<BudgetViolation>)
    requires Message(OverBudget(vs)) == Message(OverBudget(vs'))
    ensures vs == vs'
  {
    hide MessageLine;
    LinesDetermine(vs, vs');
  }

  lemma {:induction false} LinesDetermine(vs: seq<BudgetViolation>, vs': seq<BudgetViolation>)
    requires Lines(vs) == Lines(vs')
    ensures vs == vs'
  {
    hide MessageLine;
    forall v: BudgetViolation ensures MessageLine(v) != "" && '\n' !in MessageLine(v) {
      OneLine(v);
    }
    if vs != [] && vs' != [] {
      if |vs| > 1 {
        SplitOnceAt(MessageLine(vs[0]), '\n', Lines(vs[1..]));
      }
      if |vs'| > 1 {
        SplitOnceAt(MessageLine(vs'[0]), '\n', Lines(vs'[1..]));
      }
      assert MessageLine(vs[0]) == MessageLine(vs'[0]) && (|vs| > 1 <==> |vs'| > 1);
      MessageDeterminesViolation(vs[0], vs'[0]);
      if |vs| > 1 {
        LinesDetermine(vs[1..], vs'[1..]);
      }
    }
  }

  /** A rejection line has no line breaks of its own. */
  lemma OneLine(v: BudgetViolation)
    ensures MessageLine(v) != "" && '\n' !in MessageLine(v)
  {
    hide SignedDecimal, FiguresText;
    assert '\n' !in FiguresText(v, Unit(v.resource)) by { FiguresOnOneLine(v); }
    hide Unit;
    var lead := Name(v.resource) + " budget exceeded: allocated ";
    assert '\n' !in Name(v.resource) && '\n' !in " budget exceeded: allocated ";
    Unbroken(Name(v.resource), " budget exceeded: allocated ");
    Unbroken(lead, FiguresText(v, Unit(v.resource)));
  }

  lemma FiguresOnOneLine(v: BudgetViolation)
    ensures '\n' !in FiguresText(v, Unit(v.resource))
  {
    var unit := Unit(v.resource);
    assert '\n' !in unit && '\n' !in ", requested " && '\n' !in ", projected " && '\n' !in ", ceiling ";
    hide Unit, SignedDecimal;
    forall n: int ensures '\n' !in SignedDecimal(n) {
      SignedDecimalFaithful(n, n);
    }
    forall a: string, b: string | '\n' !in a && '\n' !in b ensures '\n' !in a + b {
      Unbroken(a, b);
    }
  }

  lemma Unbroken(a: string, b: string)
    requires '\n' !in a && '\n' !in b
    ensures '\n' !in a + b
  {
  }

  /** What the other messages show: the age before the threshold, which cached object is missing,
      the offending text, the time allowed. */
  lemma FailureTexts(a: int, b: int, field: string, value: string, ms: nat, detail: string)
    ensures Message(CapacityDataStale(a, b)) == "capacity data unavailable: last refresh " + SignedDecimal(a)
                                                + "s ago exceeds " + SignedDecimal(b) + "s threshold"
    ensures Message(CapacityDataMissing(AllocationMissing))
         == "capacity data unavailable: " + "allocation state not initialised"
    ensures Message(CapacityDataMissing(ClusterCapacityMissing))
         == "capacity data unavailable: " + "cluster capacity state not initialised"
    ensures Message(QuantityParseFailure(field, value))
         == "cannot parse resource quantity in pod spec: " + field + "=" + value
    ensures Message(Timeout(ms)) == "admission decision timed out after " + Decimal(ms) + "ms"
    ensures Message(DeserialisationFailure(detail)) == "admission request malformed: " + detail
    ensures Message(InternalError) == "internal error: panic in admission handler"
    ensures Message(Unknown(detail)) == "internal error: " + detail
  {
    hide SignedDecimal, Decimal;
  }

  // ---------- reasons, slugs and codes ----------

  /** A budget denial is forbidden, a malformed request is the client's error, and every other
      failure is the server's; the machine-readable reason tells which of the eight it was. */
  lemma CodesByReason(error: AdmissionError, error': AdmissionError, uid: string)
    ensures var response := IntoResponse(error, uid);
      && response.uid == uid && !response.allowed && response.warnings.None? && response.result.Some?
      && (response.result.value.code == 403 <==> error.OverBudget?)
      && (response.result.value.code == 400 <==> error.DeserialisationFailure? || error.QuantityParseFailure?)
      && (response.result.value.code in {400, 403, 500})
    ensures Reason(error) == Reason(error') <==> Kind(error) == Kind(error')
    ensures Slug(error) == Slug(error') <==> Kind(error) == Kind(error')
  {
    hide Message;
  }

  function Kind(error: AdmissionError): nat {
    match error
    case OverBudget(_) => 0
    case CapacityDataStale(_, _) => 1
    case CapacityDataMissing(_) => 2
    case DeserialisationFailure(_) => 3
    case QuantityParseFailure(_, _) => 4
    case Timeout(_) => 5
    case InternalError => 6
    case Unknown(_) => 7
  }

  /** The whole text of a line: each figure behind its own word, in the unit of the resource. */
  lemma LineFormat(v: BudgetViolation)
    ensures v.resource == Cpu ==>
      MessageLine(v) == "CPU budget exceeded: allocated " + (SignedDecimal(v.inUse)
                        + ("m, requested " + (SignedDecimal(v.requested)
                        + ("m, projected " + (SignedDecimal(v.projected)
                        + ("m, ceiling " + (SignedDecimal(v.ceiling) + "m")))))))
    ensures v.resource == Memory ==>
      MessageLine(v) == "memory budget exceeded: allocated " + (SignedDecimal(v.inUse)
                        + (" bytes, requested " + (SignedDecimal(v.requested)
                        + (" bytes, projected " + (SignedDecimal(v.projected)
                        + (" bytes, ceiling " + (SignedDecimal(v.ceiling) + " bytes")))))))
  {
    hide SignedDecimal;
    if v.resource == Cpu {
      CpuTitle();
      CpuWords();
    } else {
      MemoryTitle();
      MemoryWords();
    }
  }

  lemma CpuTitle()
    ensures "CPU" + " budget exceeded: allocated " == "CPU budget exceeded: allocated "
  {
  }

  lemma MemoryTitle()
    ensures "memory" + " budget exceeded: allocated " == "memory budget exceeded: allocated "
  {
  }

  lemma CpuWords()
    ensures "m" + ", requested " == "m, requested "
    ensures "m" + ", projected " == "m, projected "
    ensures "m" + ", ceiling " == "m, ceiling "
  {
  }

  lemma MemoryWords()
    ensures " bytes" + ", requested " == " bytes, requested "
    ensures " bytes" + ", projected " == " bytes, projected "
    ensures " bytes" + ", ceiling " == " bytes, ceiling "
  {
  }

  lemma DropPrefix(prefix: string, a: string, b: string)
    requires prefix + a == prefix + b
    ensures a == b
  {
    assert (prefix + a)[|prefix|..] == a && (prefix + b)[|prefix|..] == b;
  }

  /** A number ends where something that is neither digit nor sign begins. */
  lemma NextFigure(m: int, n: int, text: string, a: string, b: string)
    requires text != "" && text[0] != '-' && !IsDigit(text[0])
    requires SignedDecimal(m) + (text + a) == SignedDecimal(n) + (text + b)
    ensures m == n && a == b
  {
    SignedDecimalFaithful(m, n);
    SignedDecimalFaithful(n, m);
    hide SignedDecimal;
    var s, t, c := SignedDecimal(m), SignedDecimal(n), text[0];
    assert text == [c] + text[1..];
    assert s + (text + a) == s + [c] + (text[1..] + a);
    assert t + (text + b) == t + [c] + (text[1..] + b);
    SplitOnceAt(s, c, text[1..] + a);
    SplitOnceAt(t, c, text[1..] + b);
    DropPrefix(text[1..], a, b);
  }
}
