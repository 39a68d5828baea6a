/** The webhook's view of a request against the controller's view of the pods: what admission
    charges for a pod is what the next recount finds. */
module Delta {
  import opened Wrappers
  import opened MachineInt
  import opened Sums
  import opened Quantity
  import opened AllocationController
  import opened Handler

  /** What a pod adds while it runs is what admission charges for it. */
  lemma ChargedAsCounted(pod: Pod, r: ResourceType)
    requires IsNonTerminal(pod.phase) && PodRequest(Some(pod)).Ok?
    ensures Added(r)(pod) == PodRequest(Some(pod)).value.Of(r)
  {
  }

  /** A created pod raises the total by exactly the request that was checked, wherever the
      cache inserts it. */
  lemma CreateAddsRequest(pods: seq<Pod>, i: nat, request: AdmissionRequest, r: ResourceType)
    requires i <= |pods| && request.operation.Create? && request.newPod.Some?
    requires IsNonTerminal(request.newPod.value.phase) && EffectiveRequest(request).Ok?
    ensures Total(pods[..i] + [request.newPod.value] + pods[i..], r)
         == Total(pods, r) + EffectiveRequest(request).value.Of(r)
  {
    hide PodRequest, Added;
    var pod := request.newPod.value;
    var grown := pods[..i] + [pod] + pods[i..];
    SumRemove(grown, i, Added(r));
    assert RemoveAt(grown, i) == pods;
    ChargedAsCounted(pod, r);
  }

  /** An updated pod moves the total by exactly the difference that was checked. */
  lemma UpdateAddsDifference(pods: seq<Pod>, i: nat, request: AdmissionRequest, r: ResourceType)
    requires i < |pods| && request.operation.Update?
    requires request.oldPod == Some(pods[i]) && request.newPod.Some?
    requires request.newPod.value.phase == pods[i].phase && IsNonTerminal(pods[i].phase)
    requires EffectiveRequest(request).Ok?
    ensures Total(pods[i := request.newPod.value], r)
         == Total(pods, r) + EffectiveRequest(request).value.Of(r)
  {
    EffectiveRequestNeverWraps(request);
    ChargedAsCounted(pods[i], r);
    ChargedAsCounted(request.newPod.value, r);
    SumReplace(pods, i, request.newPod.value, Added(r));
    hide PodRequest, Added;
  }

  /** In 64-bit arithmetic the same holds without any bound on the totals: the recount wraps
      the way the difference does. */
  lemma UpdateMovesReportedTotal(pods: seq<Pod>, i: nat, request: AdmissionRequest, r: ResourceType)
    requires i < |pods| && request.operation.Update?
    requires request.oldPod == Some(pods[i]) && request.newPod.Some?
    requires request.newPod.value.phase == pods[i].phase && IsNonTerminal(pods[i].phase)
    requires EffectiveRequest(request).Ok?
    ensures MachineTotal(pods[i := request.newPod.value]).Of(r)
         == WrapI64(MachineTotal(pods).Of(r) + EffectiveRequest(request).value.Of(r))
  {
    hide EffectiveRequest;
    UpdateAddsDifference(pods, i, request, r);
    WrapAbsorbs(Total(pods, r), EffectiveRequest(request).value.Of(r));
  }
}
