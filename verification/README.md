# Emergency ration webhook: a verified model

The system guards a Kubernetes cluster's capacity. One controller sums what the nodes offer, another
sums what the running pods ask for and publishes both with a ceiling; an admission webhook judges each
pod against the last published figures and fails closed; an equalizer on top redistributes budgets
between clusters. This project models those parts and proves what they promise.

| file | what it holds |
|---|---|
| `MachineInt.dfy`, `Text.dfy`, `Sums.dfy`, `Wrappers.dfy` | 64- and 32-bit arithmetic, string primitives, sums, option types |
| `Calendar.dfy`, `Timestamp.dfy` | day numbers and dates; RFC 3339 text (section 5.6) to seconds and back; freshness |
| `Quantity.dfy`, `Containers.dfy` | quantity text; container and pod requests |
| `Admission.dfy`, `Crd.dfy`, `Allocation.dfy` | ceilings and the budget check, the `Allocation` object, the demand side |
| `NodeFilter.dfy`, `NodeCapacity.dfy`, `Chain.dfy` | node selectors, the supply side, the whole chain from nodes to decision |
| `Errors.dfy`, `Handler.dfy`, `Delta.dfy`, `Metrics.dfy` | rejections, the decision, its agreement with the recount, the counters |
| `Overshoot.dfy` | admission against snapshots as a system of interleaved steps of any number of replicas |
| `SerialAdmission.dfy` | the discipline under which that system keeps the budget, and the runs that break it |
| `Singleton.dfy` | get-or-create by racing replicas |
| `Equalizer.dfy`, `Reconcile.dfy` | the fleet algorithm and one reconcile cycle |

Integers are those of a release build: plain addition wraps around, saturating addition clamps,
division truncates toward zero and casts to `i32` drop the high bits. Each total has an exact
counterpart over unbounded integers and a lemma that says exactly when the two agree. Floating-point
values (utilizations, suffixed quantities) are exact reals.

## Where the code and its comments differ

The model follows the code.

- An overflowed projection does not always exceed the ceiling (`src/webhook/admission.rs:74-75`): with
  the whole `i64` range as ceiling it saturates to the ceiling and is admitted.
  `Admission.SaturationIsExact` gives the exact condition.
- The request of a pod is not always its demand (`src/resources/quantity.rs:170-174`): the regular sum
  can wrap. `Containers.RequestIsDemand` gives the exact condition, `Containers.RegularSumWraps` a family of
  pods that break it.
- Flooring a good cluster's reduction makes its budget less restrictive, not more
  (`src/equalizer/algorithm.rs:54-55`): `Equalizer.FlooringRaisesBudget` is an input,
  `Equalizer.FlooringIsExactIff` the exact condition for one cluster, `Equalizer.OverflowAbsorbedIff` for
  all good clusters together, and `Equalizer.BalanceFromAbove` bounds what it costs. A reduction
  that does not fit 32 bits can raise a budget above the target:
  `Equalizer.WrappedReductionRaisesBudget` and, with the exact condition,
  `Equalizer.GoodBudgetWithinTarget`.
- The parser takes more than "exactly this shape" (`src/time_util.rs:34-37`): unpadded or signed fields
  and days up to 31 in every month. `Timestamp.ParseThenPrint` says which accepted texts are canonical.
- A node without a label map is counted even where an empty label map is excluded
  (`src/controllers/node_filter.rs:215-218`): `NodeFilter.MissingLabelsAreNotEmptyLabels` shows one,
  `NodeCapacity.MissingLabelsActEmptyIff` says for which selector lists the two are treated alike.
- The first recount does not only "carry zeros" until the ticker refreshes them
  (`src/controllers/allocation.rs:309-314`): it publishes an allocation of 0 under a real ceiling with a
  fresh stamp, and a webhook that receives it admits against it. `Overshoot.ColdRecount` is the run,
  `Overshoot.OvershootBound` the bound that still holds, `Overshoot.PlainBoundIff` the exact condition for
  the bound by the allocation shown, and `SerialAdmission.SerialBudgetIff` the exact condition for the
  budget itself under serial admission.
- Tightening the figures behind a decision can admit more once the supply wraps around
  (`src/controllers/node_capacity.rs:54-88`). Below 2^64 it is safe exactly when both supplies fit 64 bits
  (`Chain.NeverReversesBelowWrap`); for any supply, exactly when no cordoning raises a supply figure
  (`Chain.NeverReversesIff`). `Chain.NegativeSupplyReverses` cordons, and `Chain.LoweringBudgetsIff` says
  when lowering budgets alone goes wrong.

## Model

| member | source | states |
|---|---|---|
| Calendar.Epoch | src/time_util.rs:80-94 | day 0 is 1970-01-01 |
| Calendar.CivilIsValid | src/time_util.rs:83-94 | every integer day number gives a date that exists in the Gregorian calendar |
| Calendar.CivilSuccessor | src/time_util.rs:83-94 | the date of day z+1 is the calendar successor of the date of day z, for every integer z, under the 4/100/400 leap rule |
| Calendar.DaysOfCivil | src/time_util.rs:96-107 | date conversion is undone by the inverse conversion, for every day number |
| Calendar.CivilOfDays | src/time_util.rs:96-107 | the inverse conversion is undone too, for every valid date of every year, negative ones included |
| Calendar.NextIsLater | src/time_util.rs:96-107 | the calendar successor of a valid date has the next day number |
| Calendar.DaysInOrder | src/time_util.rs:100-107 | day numbers keep the order of valid dates, both directions |
| Timestamp.PrintThenParse | src/time_util.rs:38-78 | every second prints to a text that reads back as itself when its year is 1..9999, and to a refused text otherwise |
| Timestamp.FieldsAccepted | src/time_util.rs:43-66 | zero-padded fields in the plain ranges are accepted iff the year is 1..9999, with any day up to 31 counting on into the next month |
| Timestamp.PrintedIsCanonical | src/time_util.rs:70-78 | such a text has exactly 20 characters in the shape dddd-dd-ddTdd:dd:ddZ |
| Timestamp.ReadableInterval | src/time_util.rs:55-63 | the readable seconds are one interval, with its two end points |
| Timestamp.ParseThenPrint | src/time_util.rs:38-67 | an accepted text prints back unchanged iff it is zero-padded and names a real date |
| Timestamp.StampedFreshness | src/webhook/handler.rs:475-493 | a status stamped at t is stale at `now` iff now - t exceeds the threshold; a future stamp is fresh |
| Timestamp.AnyReadableFreshness | src/webhook/handler.rs:485-489 | for stamps before the epoch, exactly when saturation makes the judgement differ from the exact distance |
| Timestamp.UnreadableIsStale | src/webhook/handler.rs:477-481 | a stamp outside the readable years is stale whatever the clock says |
| Quantity.OneSuffixMatches | src/resources/quantity.rs:52-53 | no two suffixes of the list can end the same text |
| Quantity.SuffixOrderIrrelevant | src/resources/quantity.rs:97-105 | any order of the suffix list splits every text the same way, so first match is longest match |
| Text.SignedReadBack | src/resources/quantity.rs:61-64 | the `i64` parser reads back the decimal text of every number that fits and refuses any other |
| Quantity.PlainBytes | src/resources/quantity.rs:55-72 | decimal text of n bytes parses to n for every n in 0..i64::MAX; larger and negative numbers are refused |
| Quantity.SuffixedBytes | src/resources/quantity.rs:74-94 | a whole number with any suffix means that many units, capped at the largest i64 |
| Quantity.DecimalBytes | src/resources/quantity.rs:45-132 | digits, a point and digits of any length, with any suffix or none, mean the nearest whole number of bytes, up on a tie, capped |
| Quantity.ExponentBytes | src/resources/quantity.rs:45-132 | `e` and `E` exponents, signed or not, scale by powers of ten |
| Quantity.ExplicitPlus | src/resources/quantity.rs:55-72 | a plus sign changes nothing |
| Quantity.GarbageRefused | src/resources/quantity.rs:24-94 | the empty text, and a number followed by any character that is no digit, point or unit, are refused |
| Quantity.WholeCpu | src/resources/quantity.rs:24-38 | whole cores are thousands of milli-CPUs, whole `m` quantities are themselves, capped |
| Quantity.DecimalCpus | src/resources/quantity.rs:24-38 | decimal cores and decimal milli-CPUs with a fraction of any length mean the nearest whole milli-CPU |
| Quantity.DecimalCores | src/resources/quantity.rs:24-38 | cores with three decimals are exact milli-CPUs |
| Quantity.RoundsToNearest | src/resources/quantity.rs:128-132 | conversion to an integer rounds to the nearest figure, up on a tie |
| Quantity.NegativeRefused | src/resources/quantity.rs:107-126 | a negative number is refused, minus zero is not |
| Containers.ExtractPodRequests | src/resources/quantity.rs:167-192 | the two loops compute the wrapped regular sum against the largest init request, or the first error |
| Containers.ContainerMeaning | src/resources/quantity.rs:134-158 | in every presence case of the two maps: each resource is read by its own parser from its request, else its limit, else 0; refused iff one of the two is, CPU first |
| Containers.DemandIsLeast | src/resources/quantity.rs:160-166 | the demand is the least figure covering the regular containers together and each init container alone |
| Containers.RequestIsDemand | src/resources/quantity.rs:170-192 | a parsed pod's request is non-negative, and is its demand iff the regular sum fits 64 bits |
| Containers.RegularSumWraps | src/resources/quantity.rs:170-174 | two containers that together ask for more of either resource than i64 holds come out as 0 |
| Containers.FailsIffUnparseable | src/resources/quantity.rs:137-192 | extraction fails iff on some regular or init container a text that counts (request, else limit) is refused by its parser |
| Containers.RequestIgnoresOrder | src/resources/quantity.rs:167-192 | the order of containers changes neither success nor the figures |
| Admission.CheckBudget | src/webhook/admission.rs:69-104 | the step-by-step check returns the verdict that the lemmas below characterise |
| Admission.SaturationIsExact | src/webhook/admission.rs:74-89 | the saturating comparison is the exact one except at a ceiling of i64::MAX |
| Admission.AdmitsIffPasses | src/webhook/admission.rs:66-89 | admitted iff for both resources allocated + request, over unbounded integers, stays within the ceiling or the ceiling is i64::MAX |
| Admission.DenialNamesFailures | src/webhook/admission.rs:79-103 | for all figures, a denial lists exactly the failing resources, CPU first, with the figures they were judged on |
| Admission.CeilingIsFloor | src/webhook/admission.rs:36-42 | the ceiling is the largest whole figure within the clamped percentage of the supply |
| Admission.VerdictMonotone | src/webhook/admission.rs:69-104 | more allocated, more requested or a lower ceiling never admits more |
| AllocationController.SumPodAllocation | src/controllers/allocation.rs:38-61 | the loop returns the wrapped total over non-terminal, parseable pods |
| AllocationController.PodCounts | src/controllers/allocation.rs:31-60 | one more pod adds nothing when its phase is Failed or Succeeded, and its readable request in any other phase or none |
| AllocationController.ReportedIsTotal | src/controllers/allocation.rs:42-60 | the reported figure is the exact total iff that total fits 64 bits |
| AllocationController.TotalIgnoresOrder | src/controllers/allocation.rs:38-61 | the total does not depend on the order of the pods |
| AllocationController.DeleteLowers | src/controllers/allocation.rs:44-59 | deleting a pod takes away exactly what it added and never raises the total |
| AllocationController.TerminateLowers | src/controllers/allocation.rs:31-48 | a pod that becomes Failed or Succeeded gives back exactly what it added |
| AllocationController.EndToEnd | src/controllers/allocation.rs:71-88 | against a built status, admitted iff 100*(allocated+request) <= supply*clamped budget for both resources, over unbounded integers |
| AllocationController.StatusFollowsSpec | src/controllers/allocation.rs:71-96 | a status carries the figures and the stamp it was built from, each resource with its own override or else the common budget, and that percentage of its own supply as ceiling |
| AllocationController.UtilizationIsRatio | src/controllers/allocation.rs:82-96 | the published utilization times the ceiling is the allocation for any ceiling but 0, passes 1 exactly when the allocation passes a positive ceiling, and is 0 without one |
| NodeFilter.RequirementMeaning | src/controllers/node_filter.rs:128-150 | a validated requirement has a known operator and evaluates to its membership or presence test |
| NodeFilter.WellFormedIff | src/controllers/node_filter.rs:44-98 | which requirements are well formed, by operator and values, and the defect of any other |
| NodeFilter.FirstDefect | src/controllers/node_filter.rs:44-98 | a selector is refused for its first defect |
| NodeFilter.OuterLayers | src/controllers/node_filter.rs:201-221 | a cordoned node never counts; without selectors, or without labels, every other does |
| NodeFilter.SelectorMeaning | src/controllers/node_filter.rs:105-157 | a validated selector matches iff every one of its tests passes |
| NodeFilter.EmptySelectorHasNoTests | src/controllers/node_filter.rs:159-171 | a selector is empty iff it has no tests, and then it is valid |
| NodeFilter.MissingLabelsAreNotEmptyLabels | src/controllers/node_filter.rs:210-220 | a node without labels is counted where one with an empty label map is excluded |
| NodeCapacity.MissingLabelsActEmptyIff | src/controllers/node_filter.rs:210-220 | for every selector list: a node without labels fares like one with an empty label map iff no valid selector consists of absence tests only |
| NodeFilter.MoreSelectorsCountLess | src/controllers/node_filter.rs:181-221 | adding selectors never brings a node back |
| NodeCapacity.SumNodeAllocatable | src/controllers/node_capacity.rs:39-89 | the loop equals filter-then-sum, with the three counters |
| NodeCapacity.AmountMeaning | src/controllers/node_capacity.rs:75-86 | a node's figure for a resource is its own entry read by the parser of that resource, 0 where missing or unreadable |
| NodeCapacity.NodeAdds | src/controllers/node_capacity.rs:57-88 | a counted node that reports n milli-CPUs and k bytes raises the exact supply by n and k |
| NodeCapacity.DispositionsPartition | src/controllers/node_capacity.rs:57-87 | every node is counted, unschedulable, excluded by selector or without allocatable: exactly one |
| NodeCapacity.DispositionMeaning | src/controllers/node_capacity.rs:57-80 | which of the four a node is, in terms of cordon, selector tests and report |
| NodeCapacity.CapacityIgnoresOrder | src/controllers/node_capacity.rs:39-89 | totals and counters do not depend on node order |
| NodeCapacity.IdleSelectorsCanGo | src/controllers/node_capacity.rs:97-115 | invalid and empty selectors can be deleted without changing any figure |
| NodeCapacity.SupplyFits | src/controllers/node_capacity.rs:54-88 | the machine supply is the exact supply iff that fits 64 bits |
| Chain.NeverReversesIff | src/webhook/admission.rs:36-104 | for every node and selector list: more selectors, cordoned nodes, lower budgets, more allocated or more requested never turn a denial into an admission iff no cordoning raises a supply figure |
| Chain.NeverReversesBelowWrap | src/controllers/node_capacity.rs:54-88 | for supplies below 2^64, iff both fit 64 bits |
| Chain.TighteningNeverAdmits | src/webhook/admission.rs:36-104 | in particular whenever the supply fits 64 bits |
| Chain.LoweringBudgetsIff | src/webhook/admission.rs:36-64 | lowering budgets alone never does iff neither supply figure is negative |
| Chain.NegativeSupplyReverses | src/controllers/node_capacity.rs:54-88 | for any nodes whose supply wraps to a negative figure, cordoning all of them turns a denial into an admission |
| Chain.TwoNodesWrap | src/controllers/node_capacity.rs:81-85 | two nodes whose memory together leaves the 64-bit range have such a supply |
| AdmissionErrors.MessageDeterminesViolation | src/webhook/error.rs:38-52 | the resource and all four figures can be read back from a rejection line |
| AdmissionErrors.MessageDeterminesViolations | src/webhook/error.rs:138-150 | so can a whole rejection: the list of violations in order |
| AdmissionErrors.LineFormat | src/webhook/error.rs:38-52 | the text of a line, figure by figure with its unit |
| AdmissionErrors.FailureTexts | src/webhook/error.rs:139-185 | which figure or text stands where in the other messages |
| AdmissionErrors.CodesByReason | src/webhook/error.rs:108-136 | 403 exactly for budget denials, 400 exactly for malformed requests and quantities, 500 otherwise; reasons and slugs tell the eight kinds apart |
| Handler.AllowedIff | src/webhook/handler.rs:215-417 | the exact condition under which a request is allowed, over every cache state |
| Handler.DryRunConvertsOnlyBudgetDenials | src/webhook/handler.rs:389-430 | switching the mode changes budget denials only; the warning is the prefix and the enforce message |
| Handler.AgreesWithDecide | src/webhook/handler.rs:953-973 | behind the guards, in enforce mode, the full decision is the plain one |
| Handler.RejectionsAreExplained | src/webhook/handler.rs:708-736 | allowed iff no failure is attached; code 403 for budget denials, 400 or 500 otherwise; warnings only on dry-run denials |
| Handler.RejectionReasons | src/webhook/handler.rs:262-325 | which reason is given, guard by guard |
| Handler.RejectionsShowCause | src/webhook/handler.rs:262-325 | what each guard's rejection carries: response, slug, mode, freshness and totals |
| Handler.NoStatusRejects | src/webhook/handler.rs:215-260 | without a cached status every request is rejected with code 500 and CapacityDataMissing |
| Handler.ExemptionIsUnion | src/crd/allocation.rs:164-186 | exempt iff own namespace, listed namespace or listed non-empty priority class; which reason wins |
| Handler.ExemptIff | src/webhook/handler.rs:262-270 | by the fields of the request: exempt iff its namespace is the own one or listed, or the non-empty priority class of its new pod is listed; the reason in that order; the old pod has no say |
| Handler.SummaryShowsFigures | src/webhook/handler.rs:556-582 | a budget decision reports the figures it used and marks exactly the resources that do not pass, whatever the ceiling |
| Handler.EffectiveRequestNeverWraps | src/webhook/handler.rs:977-986 | an UPDATE's difference is the exact difference |
| Handler.EffectiveRequestMeaning | src/webhook/handler.rs:977-1000 | by the request's pods: the new pod's figures, less the old pod's on an UPDATE only; unreadable iff a pod that matters is |
| Handler.UnreadableCause | src/webhook/handler.rs:990-1000 | the error names the offending text of the new pod, else of the old one |
| Handler.EnforcedEndToEnd | src/webhook/handler.rs:215-417 | from raw supply, totals and stamp to the answer: the exact condition for enforced, non-exempt requests |
| Delta.CreateAddsRequest | src/webhook/handler.rs:977-1000 | a created pod raises the recounted total by exactly the request checked |
| Delta.UpdateAddsDifference | src/webhook/handler.rs:979-983 | an updated pod moves the recounted total by exactly the difference checked |
| Delta.UpdateMovesReportedTotal | src/controllers/allocation.rs:55-58 | in 64-bit arithmetic this holds without a bound on the totals |
| Metrics.Registry.RecordMetrics | src/webhook/handler.rs:847-883 | the new contents of every series after one decision |
| Metrics.Registry.Handle | src/webhook/handler.rs:147-177 | the response returned, for evaluated requests and for every guard; afterwards the series account for everything handled so far and the books balance |
| Metrics.Registry.RefreshGauges | src/webhook/handler.rs:906-945 | the background refresh, after which the series still account for the whole history |
| Metrics.BudgetConsistent | src/webhook/handler.rs:363-415 | a budget denial marks at least one resource, an admission none |
| Metrics.RunsBalance | src/webhook/handler.rs:843-883 | over any run of decisions and gauge refreshes: durations = CPU verdicts + exemptions, CPU and memory totals agree, dry-run verdicts count the warnings given, and the counters bracket the rejections |
| Metrics.CountersTally | src/webhook/handler.rs:847-883 | over any run each verdict series stands at the number of outcomes that gave its resource its verdict, each exemption series at the exemptions for its reason |
| Metrics.GuardsReject | src/webhook/handler.rs:147-213 | malformed requests, timeouts and panics are rejected, each with its own error, to the request that was asked |
| Handler.BudgetDecides | src/webhook/handler.rs:215-325 | exactly which requests reach the budget check |
| Metrics.GaugesShowLast | src/webhook/handler.rs:877-945 | after any run the gauges show what the last judged request or refresh with a status showed, whatever came after it |
| Metrics.GaugesStartAtZero | src/webhook/handler.rs:877-945 | while nothing was shown they stand at 0 |
| Overshoot.StepKeepsInv | src/controllers/allocation.rs:215-266 | every step of every interleaving of any number of controllers and webhooks keeps, for every store state and every version of the status however old: real total <= what it counted + what its store had not seen + changes since |
| Overshoot.StepEffects | src/controllers/allocation.rs:215-266 | what each step does to totals, pending admissions and snapshots: pods give back what they added, an admission is used once with the room it was judged against, any version can arrive |
| Overshoot.JudgedFits | src/webhook/handler.rs:327-337 | an admission that the budget decided is charged at most the room its version of the status left |
| Overshoot.PersistMoves | src/webhook/handler.rs:327-337 | an admission that takes effect moves the real total by its charge, or not at all if the pod has ended |
| Overshoot.OvershootBound | src/webhook/handler.rs:327-337 | over every run and for every version a webhook holds: real total <= what its recount counted + what its store had not seen + room of each admission it does not reflect |
| Overshoot.NothingMissedIff | src/controllers/allocation.rs:38-61 | the allocation shown is all of that iff the counted total fits 64 bits and the store had synced or nothing ran at the start |
| Overshoot.ColdRecount | src/controllers/allocation.rs:309-314 | the first recount over any running pods publishes an allocation of 0, which breaks the bound by the allocation shown iff something runs |
| Overshoot.PlainBoundIff | src/controllers/allocation.rs:309-314 | the bound by the allocation shown holds over all runs iff nothing ran at the start or no status of an unsynced store is delivered |
| Overshoot.WrappedRecount | src/controllers/allocation.rs:55-58 | from any state whose real total leaves 64 bits, a sync, a recount and a delivery break it too |
| SerialAdmission.SerialRunsStayWithinCeiling | src/webhook/admission.rs:69-104 | with each admission reflected before the next decision and ceilings not falling, the real total never passes the ceiling, and 100 times it never passes supply times the clamped budget |
| SerialAdmission.CeilingIsPromise | src/webhook/admission.rs:36-42 | in every reachable state with a non-negative supply, staying within the ceiling is staying within that percentage of the supply, over unbounded integers |
| SerialAdmission.ColdStartPassesCeiling | src/controllers/allocation.rs:309-314 | for every start with something running, a serial run in which the first recount counts an empty store and the ceiling is passed |
| SerialAdmission.SerialBudgetIff | src/controllers/allocation.rs:309-314 | for every start, all serial runs stay within the ceiling iff unsynced recounts are not judged against, nothing runs, or what runs reaches i64::MAX |
| SerialAdmission.TwoAdmissionsOvershoot | src/webhook/handler.rs:327-337 | without the discipline, one request admitted twice against one snapshot passes the ceiling |
| SerialAdmission.OvershootHappens | src/webhook/handler.rs:327-337 | such a run exists from an empty cluster, for every pod that fits under the ceiling once and not twice |
| Singleton.EnsureEstablishes | src/controllers/allocation.rs:178-212 | left alone, ensure_singleton keeps an existing instance and creates the default where there is none |
| Singleton.OperatorSpecSurvives | src/controllers/allocation.rs:172-177 | an operator's spec survives any interleaving of any number of replicas |
| Singleton.SpecIsLastWrite | src/controllers/allocation.rs:172-212 | over any run, operator steps included, the spec is the one last written by an operator or by an effective controller create, which writes the default |
| Singleton.CreationsBalance | src/controllers/node_capacity.rs:169-184 | over any run creations and deletions balance: races never create twice |
| Singleton.PatchesReachIt | src/controllers/node_capacity.rs:241-308 | after an error-free ensure and without deletions, no status patch meets a 404 |
| Singleton.PatchLands | src/controllers/node_capacity.rs:241-308 | left alone, a status patch lands on the instance that is there, or after a 404 on the recreated default, with the status that was to be written |
| Singleton.RecomputeLands | src/controllers/allocation.rs:215-266 | left alone, a recompute patches the instance that is there, recreates the default on 404 and leaves the status to the next tick, and gives up on any other error |
| Singleton.RecomputeTriesOnce | src/controllers/allocation.rs:250-266 | a recompute whose patch meets 404 does not recreate in the same tick |
| Singleton.OnlyNotFoundRecreates | src/controllers/node_capacity.rs:155-184 | a create follows only a lookup answered with 404, a second lookup only a first patch answered with 404 |
| Singleton.RetriesEnd | src/controllers/node_capacity.rs:241-308 | every answer leaves a busy replica fewer steps: no retry loops |
| Singleton.StatusWasAsked | src/controllers/node_capacity.rs:241-308 | over any run a stored status is one that some replica was asked to write |
| Singleton.FreshClusterIsGuarded | src/controllers/allocation.rs:98-168 | a cluster only controllers touched runs at 80% for both resources, enforced, with no exclusions |
| Equalizer.Equalize | src/equalizer/algorithm.rs:56-114 | the loop computes the result the lemmas below speak of |
| Equalizer.OneResultEach | src/equalizer/algorithm.rs:62-113 | exactly one result per observation, under its own name, over-clusters first |
| Equalizer.StableOrder | src/equalizer/algorithm.rs:62-65 | within each side the clusters keep the order of the input |
| Equalizer.BudgetBounds | src/equalizer/algorithm.rs:67-111 | over budgets in target..100, good budgets in 0..target when every reduction fits 32 bits |
| Equalizer.GoodBudgetWithinTarget | src/equalizer/algorithm.rs:97-105 | exactly which reductions keep a good budget within the target, and its value when the reduction fits |
| Equalizer.WrappedReductionRaisesBudget | src/equalizer/algorithm.rs:99-105 | a fleet whose good cluster is raised to 100% because its reduction does not fit |
| Equalizer.FlooringIsExactIff | src/equalizer/algorithm.rs:54-55 | for every share and capacity, the weighted budget is at most target*capacity less the share iff the reduction is a whole number not above the target |
| Equalizer.FlooringRaisesBudget | src/equalizer/algorithm.rs:54-55 | target 80, share 1, capacity 3: budget 47 where 46 2/3 is due |
| Equalizer.OverflowAbsorbedIff | src/equalizer/algorithm.rs:93-111 | the good clusters together give up their whole overflow iff each of them does |
| Equalizer.TargetKeptIff | src/equalizer/algorithm.rs:93-111 | exactly which good clusters of a fleet keep the target: no capacity, a share below one whole point of it, or a target of 0 |
| Equalizer.BalanceFromBelow | src/equalizer/algorithm.rs:56-114 | weighted budgets reach target*capacity less one point of the over-clusters' capacity, when none is above 100% |
| Equalizer.BalanceFromAbove | src/equalizer/algorithm.rs:56-114 | they exceed it by at most one point of good capacity and 100 units per cluster |
| Equalizer.BalanceExact | docs/equalizer.md:23-31 | where nothing is rounded the fleet lands on the target exactly |
| Equalizer.FleetWeightIsTotal | src/equalizer/algorithm.rs:67-113 | the weight the balance laws bound is that of the returned results |
| Equalizer.MoreExcessLowersBudgets | src/equalizer/algorithm.rs:84-105 | raising over-clusters never raises a good cluster's budget |
| Equalizer.LargerClusterKeepsMore | src/equalizer/algorithm.rs:47-52 | of two good clusters with capacity the larger never gets the lower budget |
| Reconcile.Fleet.PatchOverrides | src/equalizer/reconcile.rs:253-284 | an accepted patch leaves every other target and every other field as it was; a refused one changes nothing |
| Reconcile.Fleet.Reconcile | src/equalizer/reconcile.rs:56-129 | one cycle's stored specs and reported status |
| Reconcile.LookupIsOwn | src/equalizer/reconcile.rs:71-76 | the lookup by name undoes the reordering |
| Reconcile.FailuresDoNotSpread | src/equalizer/reconcile.rs:65-72 | budgets and patches equal those of a fleet without the failed targets |
| Reconcile.ReportIsOwn | src/equalizer/reconcile.rs:322-385 | each target is reported in spec order with its own two results, or with its error and no budget |
| Reconcile.ReportFollowsReadings | src/equalizer/reconcile.rs:287-385 | by the target's own readings: over target iff a reading is above its target; the CPU budget is its own CPU use where that is above target, else the target less its part of the overflow of the CPU readings; memory likewise |
| Reconcile.ResourcesAreIndependent | src/equalizer/reconcile.rs:287-318 | CPU budgets do not change when only memory readings and the memory target do, and the other way round |
| Reconcile.StoredSpecIsOwn | src/equalizer/reconcile.rs:78-103 | accepted targets hold their own two results as overrides, all other specs are untouched |
| Reconcile.StoredIsReported | src/equalizer/reconcile.rs:78-129 | the overrides stored for an accepted target are the budgets reported for it |
| Reconcile.ConditionIsMaximum | src/equalizer/crd.rs:158-176 | the fleet condition is the severity maximum |
| Reconcile.ConditionOfParts | src/equalizer/crd.rs:165-176 | it distributes over concatenation and ignores order |

## Left out

- HTTP and TLS servers, watchers, reflectors, kube clients, JSON and YAML, CRD schemas: they appear as steps that deliver a snapshot or as an error outcome.
- The timeout and the panic guard: each is an outcome that `Metrics.Registry.Handle` maps to its rejection.
- Floating-point rounding, infinities and NaN: utilizations and suffixed quantities are exact reals, and the words `inf` and `nan` do not parse as quantities here.
- Saturation of the 128-bit overflow sum in the equalizer: it is an unbounded integer here.
- Structured logs, workload and operation labels, latency values, Prometheus text: they would add only easy members.
- `src/bin/erw-verify`, `src/config.rs`, the mocks: cluster tooling and flag lookup.
- Secret and kubeconfig reading in the equalizer: a target enters the cycle as read or as failed, and each target name stands for its own cluster.
- Overshoot.OvershootBound: assumes that an ended pod stays ended, that a pod store syncs to the whole pod list as it stood at some moment, and that an UPDATE replaces the object the webhook compared with. Admissions that no budget judged (exempt, dry-run, a ceiling of i64::MAX, pods that never pass the webhook) enter with their own change as limit.
- SerialAdmission.SerialBudgetIff: the discipline is a condition on runs; nothing in the program enforces it.
- Quantity.SuffixedBytes: exact decimals stand for `f64`, so a count above 2^53 gives the ideal figure and not the rounded one.
- Quantity.WholeCpu: exact decimals stand for `f64`, so a count above 2^53 gives the ideal figure and not the rounded one.
- Quantity.DecimalBytes: exact decimals stand for `f64`, so a product that `f64` rounds gives the ideal figure and not the rounded one.
- Quantity.ExponentBytes: exact decimals stand for `f64`, so a product that `f64` rounds gives the ideal figure and not the rounded one.
- Quantity.DecimalCpus: exact decimals stand for `f64`, so a product that `f64` rounds gives the ideal figure and not the rounded one.
- Quantity.DecimalCores: exact decimals stand for `f64`, whose rounding of large core counts is not modelled.
- Chain.TighteningNeverAdmits: requires the supply to fit 64 bits; Chain.NeverReversesIff is the law without that.
- Reconcile.ReportIsOwn: requires unique target names, which the spec asks of its operator; with duplicates the last entry wins.
- Node and exclusion counters are unbounded naturals; the program holds them in 32 bits.
