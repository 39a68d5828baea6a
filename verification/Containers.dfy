/** The requests of containers, and the effective request of a pod. */
module Containers {
  import opened Wrappers
  import opened MachineInt
  import opened Text
  import opened Sums
  import opened Quantity

  // ---------- containers ----------

  datatype Resources = Resources(requests: Option<map<string, string>>, limits: Option<map<string, string>>)

  datatype Container = Container(resources: Option<Resources>)

  datatype PodSpec = PodSpec(containers: seq<Container>, initContainers: Option<seq<Container>>,
                             priorityClassName: Option<string>)

  function ResourceKey(resource: ResourceType): string {
    match resource
    case Cpu => "cpu"
    case Memory => "memory"
  }

  function Lookup(m: Option<map<string, string>>, key: string): Option<string> {
    if m.Some? && key in m.value then Some(m.value[key]) else None
  }

  /** The quantity text in force: the request, else the limit. */
  function EffectiveQuantity(c: Container, resource: ResourceType): Option<string> {
    match c.resources
    case None => None
    case Some(r) =>
      match Lookup(r.requests, ResourceKey(resource))
      case Some(q) => Some(q)
      case None => Lookup(r.limits, ResourceKey(resource))
  }

  function Resolve(c: Container, resource: ResourceType): (r: Parsed<I64>)
    ensures r.Ok? ==> r.value >= 0
  {
    match EffectiveQuantity(c, resource)
    case None => Ok(0)
    case Some(q) => ParseQuantity(resource, q)
  }

  function ContainerRequests(c: Container): (r: Parsed<Figures>)
    ensures r.Ok? ==> r.value.cpu >= 0 && r.value.memory >= 0
  {
    match Resolve(c, Cpu)
    case Err(e) => Err(e)
    case Ok(cpu) =>
      match Resolve(c, Memory)
      case Err(e) => Err(e)
      case Ok(memory) => Ok(Figures(cpu, memory))
  }

  /** One container's request as a plain number; 0 where it does not parse. */
  function RequestOf(resource: ResourceType): Container -> int {
    (c: Container) => match ContainerRequests(c) case Ok(f) => f.Of(resource) case Err(_) => 0
  }

  function FirstError(cs: seq<Container>): Option<QuantityParseError> {
    if cs == [] then None
    else
      match ContainerRequests(cs[0])
      case Err(e) => Some(e)
      case Ok(_) => FirstError(cs[1..])
  }

  /** The largest single request, and 0 when there is none. */
  function Largest(cs: seq<Container>, resource: ResourceType): (r: int)
    ensures r >= 0
  {
    if cs == [] then 0 else Max(RequestOf(resource)(cs[0]), Largest(cs[1..], resource))
  }

  function InitContainers(spec: PodSpec): seq<Container> {
    spec.initContainers.GetOr([])
  }

  function AllContainers(spec: PodSpec): seq<Container> {
    spec.containers + InitContainers(spec)
  }

  /** What a pod asks of one resource: its regular containers together, or its largest init
      container if that is more. */
  function Demand(spec: PodSpec, resource: ResourceType): int {
    Max(Sum(spec.containers, RequestOf(resource)), Largest(InitContainers(spec), resource))
  }

  /** The same figure with the regular sum taken in 64-bit arithmetic. */
  function MachineDemand(spec: PodSpec, resource: ResourceType): (r: int) {
    Max(WrapI64(Sum(spec.containers, RequestOf(resource))), Largest(InitContainers(spec), resource))
  }

  function PodRequests(spec: PodSpec): (r: Parsed<Figures>)
  {
    match FirstError(AllContainers(spec))
    case Some(e) => Err(e)
    case None =>
      DemandFits(spec, Cpu);
      DemandFits(spec, Memory);
      Ok(Figures(MachineDemand(spec, Cpu), MachineDemand(spec, Memory)))
  }

  lemma {:induction false} LargestFits(cs: seq<Container>, resource: ResourceType)
    ensures Largest(cs, resource) <= I64_MAX
  {
    if cs != [] {
      LargestFits(cs[1..], resource);
    }
  }

  lemma DemandFits(spec: PodSpec, resource: ResourceType)
    ensures 0 <= MachineDemand(spec, resource) <= I64_MAX
  {
    LargestFits(InitContainers(spec), resource);
  }

  /** The two running totals of the first loop. */
  function RunningSums(cs: seq<Container>): Figures {
    Figures(WrapI64(Sum(cs, RequestOf(Cpu))), WrapI64(Sum(cs, RequestOf(Memory))))
  }

  /** The two running maxima of the second loop. */
  function RunningMaxima(cs: seq<Container>): Figures {
    LargestFits(cs, Cpu);
    LargestFits(cs, Memory);
    Figures(Largest(cs, Cpu), Largest(cs, Memory))
  }

  method ExtractPodRequests(spec: PodSpec) returns (r: Parsed<Figures>)
    ensures r == PodRequests(spec)
  {
    hide ContainerRequests, RequestOf, FirstError;
    assert FirstError([]).None? by { EmptyHasNoError(); }
    var cs, inits := spec.containers, InitContainers(spec);
    FirstErrorAppend(cs, inits);
    var sums := Figures(0, 0);
    var i := 0;
    while i < |cs|
      invariant 0 <= i <= |cs|
      invariant FirstError(cs[..i]).None?
      invariant sums == RunningSums(cs[..i])
    {
      var one := ContainerRequests(cs[i]);
      FirstErrorAt(cs, i);
      if one.Err? {
        return Err(one.error);
      }
      RunningSumsStep(cs, i);
      sums := Figures(WrapI64(sums.cpu + one.value.cpu), WrapI64(sums.memory + one.value.memory));
      i := i + 1;
    }
    assert cs[..|cs|] == cs;

    var maxima := Figures(0, 0);
    if spec.initContainers.Some? {
      var j := 0;
      while j < |inits|
        invariant 0 <= j <= |inits|
        invariant FirstError(inits[..j]).None?
        invariant maxima == RunningMaxima(inits[..j])
      {
        var one := ContainerRequests(inits[j]);
        FirstErrorAt(inits, j);
        if one.Err? {
          return Err(one.error);
        }
        RunningMaximaStep(inits, j);
        maxima := Figures(Max(maxima.cpu, one.value.cpu), Max(maxima.memory, one.value.memory));
        j := j + 1;
      }
      assert inits[..|inits|] == inits;
    }
    r := Ok(Figures(Max(sums.cpu, maxima.cpu), Max(sums.memory, maxima.memory)));
  }

  // ---------- facts the loops use ----------

  lemma {:induction false} FirstErrorAppend(a: seq<Container>, b: seq<Container>)
    ensures FirstError(a + b) == if FirstError(a).Some? then FirstError(a) else FirstError(b)
  {
    if a == [] {
      assert a + b == b;
    } else {
      assert (a + b)[1..] == a[1..] + b;
      FirstErrorAppend(a[1..], b);
    }
  }

  lemma EmptyHasNoError()
    ensures FirstError([]).None?
  {
  }

  lemma FirstErrorAt(cs: seq<Container>, i: nat)
    requires i < |cs| && FirstError(cs[..i]).None?
    ensures ContainerRequests(cs[i]).Ok? ==> FirstError(cs[..i + 1]).None?
    ensures ContainerRequests(cs[i]).Err? ==> FirstError(cs) == Some(ContainerRequests(cs[i]).error)
  {
    hide ContainerRequests;
    assert cs[..i + 1] == cs[..i] + [cs[i]];
    FirstErrorAppend(cs[..i], [cs[i]]);
    assert cs == cs[..i + 1] + cs[i + 1..];
    FirstErrorAppend(cs[..i + 1], cs[i + 1..]);
  }

  lemma RunningSumsStep(cs: seq<Container>, i: nat)
    requires i < |cs| && ContainerRequests(cs[i]).Ok?
    ensures var sums, one := RunningSums(cs[..i]), ContainerRequests(cs[i]).value;
      RunningSums(cs[..i + 1]) == Figures(WrapI64(sums.cpu + one.cpu), WrapI64(sums.memory + one.memory))
  {
    hide ContainerRequests;
    SumStep(cs, i, RequestOf(Cpu));
    SumStep(cs, i, RequestOf(Memory));
    WrapAbsorbs(Sum(cs[..i], RequestOf(Cpu)), RequestOf(Cpu)(cs[i]));
    WrapAbsorbs(Sum(cs[..i], RequestOf(Memory)), RequestOf(Memory)(cs[i]));
  }

  lemma RunningMaximaStep(cs: seq<Container>, i: nat)
    requires i < |cs| && ContainerRequests(cs[i]).Ok?
    ensures var maxima, one := RunningMaxima(cs[..i]), ContainerRequests(cs[i]).value;
      RunningMaxima(cs[..i + 1]) == Figures(Max(maxima.cpu, one.cpu), Max(maxima.memory, one.memory))
  {
    hide ContainerRequests;
    LargestStep(cs, i, Cpu);
    LargestStep(cs, i, Memory);
  }

  lemma {:induction false} LargestAppend(a: seq<Container>, b: seq<Container>, resource: ResourceType)
    ensures Largest(a + b, resource) == Max(Largest(a, resource), Largest(b, resource))
  {
    if a == [] {
      assert a + b == b;
    } else {
      assert (a + b)[1..] == a[1..] + b;
      LargestAppend(a[1..], b, resource);
    }
  }

  lemma LargestStep(cs: seq<Container>, i: nat, resource: ResourceType)
    requires i < |cs|
    ensures Largest(cs[..i + 1], resource) == Max(Largest(cs[..i], resource), RequestOf(resource)(cs[i]))
  {
    assert cs[..i + 1] == cs[..i] + [cs[i]];
    LargestAppend(cs[..i], [cs[i]], resource);
  }

  // ---------- the effective pod request ----------

  /** The text that counts for one resource of a container: its request, else its limit. */
  predicate InForce(c: Container, key: string, text: Option<string>) {
    match c.resources
    case None => text == None
    case Some(Resources(None, None)) => text == None
    case Some(Resources(Some(requests), None)) => if key in requests then text == Some(requests[key]) else text == None
    case Some(Resources(None, Some(limits))) => if key in limits then text == Some(limits[key]) else text == None
    case Some(Resources(Some(requests), Some(limits))) =>
      if key in requests then text == Some(requests[key])
      else if key in limits then text == Some(limits[key])
      else text == None
  }

  /** What a container asks for, in all presence cases of its two lists: each resource is read by
      its own parser from its own text, no text asks for nothing, and one unreadable text makes
      the container unreadable, the CPU error first. */
  lemma ContainerMeaning(c: Container, cpu: Option<string>, memory: Option<string>)
    requires InForce(c, "cpu", cpu) && InForce(c, "memory", memory)
    ensures var cpuRead, memoryRead := ReadOrNothing(cpu, ParseCpu), ReadOrNothing(memory, ParseMemory);
      && (ContainerRequests(c).Ok? <==> cpuRead.Ok? && memoryRead.Ok?)
      && (cpuRead.Ok? && memoryRead.Ok? ==> ContainerRequests(c) == Ok(Figures(cpuRead.value, memoryRead.value)))
      && (cpuRead.Err? ==> ContainerRequests(c) == Err(cpuRead.error))
      && (cpuRead.Ok? && memoryRead.Err? ==> ContainerRequests(c) == Err(memoryRead.error))
  {
    hide ParseCpu, ParseMemory;
  }

  function ReadOrNothing(text: Option<string>, parse: string -> Parsed<I64>): Parsed<I64> {
    match text
    case None => Ok(0)
    case Some(t) => parse(t)
  }

  lemma {:induction false} LargestBound(cs: seq<Container>, resource: ResourceType, bound: nat)
    ensures Largest(cs, resource) <= bound <==> forall c :: c in cs ==> RequestOf(resource)(c) <= bound
  {
    hide ContainerRequests;
    if cs != [] {
      LargestBound(cs[1..], resource, bound);
      assert cs == [cs[0]] + cs[1..];
    }
  }

  /** The demand is the least figure that covers the regular containers together and every
      init container alone. */
  lemma DemandIsLeast(spec: PodSpec, resource: ResourceType, bound: nat)
    ensures Demand(spec, resource) <= bound
       <==> && Sum(spec.containers, RequestOf(resource)) <= bound
            && (spec.initContainers.Some? ==>
                  forall c :: c in spec.initContainers.value ==> RequestOf(resource)(c) <= bound)
  {
    LargestBound(InitContainers(spec), resource, bound);
  }

  /** A pod that parses gets exactly its demand, as long as the regular sum fits 64 bits. */
  lemma RequestIsDemand(spec: PodSpec, resource: ResourceType)
    requires PodRequests(spec).Ok?
    ensures PodRequests(spec).value.Of(resource) >= 0
    ensures PodRequests(spec).value.Of(resource) == Demand(spec, resource)
       <==> Sum(spec.containers, RequestOf(resource)) <= I64_MAX
  {
    hide ContainerRequests;
    RegularSumNonNegative(spec.containers, resource);
    LargestFits(InitContainers(spec), resource);
  }

  lemma RegularSumNonNegative(cs: seq<Container>, resource: ResourceType)
    ensures Sum(cs, RequestOf(resource)) >= 0
  {
  }

  /** Figures with one resource set. */
  function Only(r: ResourceType, n: nat): (f: Figures)
    requires n <= I64_MAX
    ensures f.Of(r) == n
  {
    if r.Cpu? then Figures(n, 0) else Figures(0, n)
  }

  /** A container that asks for `n` milli-CPUs or bytes and nothing else. */
  function Asks(r: ResourceType, n: nat): Container {
    Container(Some(Resources(Some(map[ResourceKey(r) := Decimal(n) + (if r.Cpu? then "m" else "")]), None)))
  }

  /** When the regular sum leaves the 64-bit range the figure is no longer the demand: two
      containers that together ask for more of a resource than `i64` holds come out as 0. */
  lemma RegularSumWraps(r: ResourceType, m: nat, n: nat)
    requires m <= I64_MAX && n <= I64_MAX < m + n
    ensures var spec := PodSpec([Asks(r, m), Asks(r, n)], None, None);
      Demand(spec, r) == m + n && PodRequests(spec) == Ok(Figures(0, 0))
  {
    hide ContainerRequests, Asks, Demand, PodRequests;
    AsksRequests(r, m);
    AsksRequests(r, n);
    TwoContainers(r, Asks(r, m), Asks(r, n), m, n);
  }

  /** A pod of one such container asks for just that. */
  lemma OneContainer(r: ResourceType, n: nat)
    requires n <= I64_MAX
    ensures PodRequests(PodSpec([Asks(r, n)], None, None)) == Ok(Only(r, n))
  {
    hide ContainerRequests, Asks;
    AsksRequests(r, n);
    var a := Asks(r, n);
    assert AllContainers(PodSpec([a], None, None)) == [a];
    assert FirstError([a]).None?;
    forall s: ResourceType ensures Sum([a], RequestOf(s)) == Only(r, n).Of(s) {
      assert Sum([a], RequestOf(s)) == RequestOf(s)(a);
    }
  }

  lemma TwoContainers(r: ResourceType, a: Container, b: Container, m: nat, n: nat)
    requires m <= I64_MAX && n <= I64_MAX < m + n
    requires ContainerRequests(a) == Ok(Only(r, m)) && ContainerRequests(b) == Ok(Only(r, n))
    ensures var spec := PodSpec([a, b], None, None);
      Demand(spec, r) == m + n && PodRequests(spec) == Ok(Figures(0, 0))
  {
    hide ContainerRequests;
    var spec := PodSpec([a, b], None, None);
    assert AllContainers(spec) == [a] + [b] && spec.containers == [a] + [b];
    FirstErrorAppend([a], [b]);
    assert FirstError([a]).None? && FirstError([b]).None?;
    forall s: ResourceType ensures Sum([a] + [b], RequestOf(s)) == Only(r, m).Of(s) + Only(r, n).Of(s) {
      SumAppend([a], [b], RequestOf(s));
      assert Sum([a], RequestOf(s)) == RequestOf(s)(a);
      assert Sum([b], RequestOf(s)) == RequestOf(s)(b);
    }
  }

  lemma AsksRequests(r: ResourceType, n: nat)
    requires n <= I64_MAX
    ensures ContainerRequests(Asks(r, n)) == Ok(Only(r, n))
  {
    hide ParseMemory, ParseCpu;
    if r.Cpu? {
      WholeCpu(n);
    } else {
      PlainBytes(n);
      assert Decimal(n) + "" == SignedDecimal(n);
    }
  }

  lemma {:induction false} FirstErrorSome(cs: seq<Container>)
    ensures FirstError(cs).Some? <==> exists c :: c in cs && ContainerRequests(c).Err?
  {
    hide ContainerRequests;
    if cs != [] {
      FirstErrorSome(cs[1..]);
      assert cs == [cs[0]] + cs[1..];
    }
  }

  /** A container of the pod, of either kind. */
  predicate Holds(spec: PodSpec, c: Container) {
    c in spec.containers || (spec.initContainers.Some? && c in spec.initContainers.value)
  }

  /** A text that counts and that its parser refuses. */
  predicate Refused(c: Container, text: string) {
    || (InForce(c, "cpu", Some(text)) && ParseCpu(text).Err?)
    || (InForce(c, "memory", Some(text)) && ParseMemory(text).Err?)
  }

  /** A pod is refused exactly when some quantity in force on some container, regular or init,
      does not parse. */
  lemma FailsIffUnparseable(spec: PodSpec)
    ensures PodRequests(spec).Err? <==> exists c, text :: Holds(spec, c) && Refused(c, text)
  {
    hide Refused, ContainerRequests;
    FirstErrorSome(AllContainers(spec));
    forall c ensures ContainerRequests(c).Err? <==> exists text :: Refused(c, text) {
      RefusedContainer(c);
    }
  }

  lemma RefusedContainer(c: Container)
    ensures ContainerRequests(c).Err? <==> exists text :: Refused(c, text)
  {
    hide ParseCpu, ParseMemory;
    var cpu, memory := EffectiveQuantity(c, Cpu), EffectiveQuantity(c, Memory);
    assert InForce(c, "cpu", cpu) && InForce(c, "memory", memory);
    ContainerMeaning(c, cpu, memory);
    hide ContainerRequests;
    if ContainerRequests(c).Err? {
      assert (cpu.Some? && Refused(c, cpu.value)) || (memory.Some? && Refused(c, memory.value));
    }
  }

  /** The order in which containers are listed does not change the request. */
  lemma RequestIgnoresOrder(a: PodSpec, b: PodSpec)
    requires multiset(a.containers) == multiset(b.containers)
    requires multiset(InitContainers(a)) == multiset(InitContainers(b))
    ensures PodRequests(a).Ok? <==> PodRequests(b).Ok?
    ensures PodRequests(a).Ok? ==> PodRequests(a) == PodRequests(b)
  {
    hide ContainerRequests;
    SameMembers(a.containers, b.containers);
    SameMembers(InitContainers(a), InitContainers(b));
    FirstErrorSome(AllContainers(a));
    FirstErrorSome(AllContainers(b));
    forall resource: ResourceType ensures MachineDemand(a, resource) == MachineDemand(b, resource) {
      SumPermutation(a.containers, b.containers, RequestOf(resource));
      LargestBound(InitContainers(a), resource, Largest(InitContainers(a), resource));
      LargestBound(InitContainers(b), resource, Largest(InitContainers(b), resource));
      LargestBound(InitContainers(a), resource, Largest(InitContainers(b), resource));
      LargestBound(InitContainers(b), resource, Largest(InitContainers(a), resource));
    }
  }
}
