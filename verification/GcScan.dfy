/** The garbage collector's pass over every record of every pool. */
module GcScan {
  import opened Wrappers
  import opened PoolRecords

  datatype Phase = Pending | Running | Succeeded | Failed | Unknown

  datatype OwnerRef = OwnerRef(apiVersion: string, kind: string, controller: bool)

  /** Set when the pod is being deleted. */
  datatype Deletion = Deletion(timestamp: int, graceSeconds: int)

  datatype Pod = Pod(uid: string, phase: Phase, podIPs: seq<string>, deletion: Option<Deletion>, owners: seq<OwnerRef>, node: string)

  datatype Endpoint = Endpoint(uid: string, ownerKind: string)

  datatype Config = Config(
    enableStatefulSet: bool, enableKubevirt: bool, gcOnReadyNode: bool, gcOnNotReadyNode: bool,
    gcRunningWithoutIPs: bool, additionalGraceDelay: int, elected: bool)

  /** What the scan reads besides pools and endpoints. A missing node or validity answer is a failed read. */
  datatype World = World(
    pods: map<string, Pod>, failedPods: set<string>, failedEndpoints: set<string>, badKeys: set<string>,
    nodeReady: map<string, bool>, validStatefulSet: map<string, bool>, validVM: map<string, bool>, now: int)

  const STATEFUL_SET := "StatefulSet"
  const VMI := "VirtualMachineInstance"
  const APPS_V1 := "apps/v1"
  const KUBEVIRT_V1 := "kubevirt.io/v1"

  /** What the scan does about one record. */
  datatype Decision = Decision(trace: bool, releaseIP: bool, gcEndpoint: bool)

  // ----- Helpers of the scan -----

  /** `metav1.GetControllerOf`. */
  function ControllerOf(owners: seq<OwnerRef>): Option<OwnerRef> {
    if owners == [] then None else if owners[0].controller then Some(owners[0]) else ControllerOf(owners[1..])
  }

  predicate IsStaticIPPod(cfg: Config, pod: Pod) {
    var owner := ControllerOf(pod.owners);
    owner.Some? &&
    ((cfg.enableStatefulSet && owner.value.apiVersion == APPS_V1 && owner.value.kind == STATEFUL_SET) ||
     (cfg.enableKubevirt && owner.value.apiVersion == KUBEVIRT_V1 && owner.value.kind == VMI))
  }

  /** `isValidStatefulsetOrKubevirt`. */
  function IsValidStatic(cfg: Config, w: World, key: string, kind: string): Result<bool, string> {
    if cfg.enableStatefulSet && kind == STATEFUL_SET then
      if key in w.validStatefulSet then Ok(w.validStatefulSet[key]) else Err("statefulset check failed")
    else if cfg.enableKubevirt && kind == VMI then
      if key in w.validVM then Ok(w.validVM[key]) else Err("vm check failed")
    else Ok(false)
  }

  /** `isShouldGCOrTraceStatelessTerminatingPodOnNode`. */
  function ShouldGCOnNode(cfg: Config, w: World, pod: Pod): Result<bool, string> {
    if pod.node !in w.nodeReady then Err("failed to get node")
    else Ok(if w.nodeReady[pod.node] then cfg.gcOnReadyNode else cfg.gcOnNotReadyNode)
  }

  /** `shouldTraceOrReclaimIPInDeletionTimeStampPod`: reclaim, trace. */
  function TerminatingDecision(cfg: Config, w: World, pod: Pod, shouldGC: bool): (bool, bool)
    requires pod.deletion.Some?
  {
    var d := pod.deletion.value;
    if w.now > d.timestamp + d.graceSeconds + cfg.additionalGraceDelay then (shouldGC, false)
    else if pod.podIPs != [] then (false, true)
    else (true, false)
  }

  /** A static pod has a controller, so it has an owner; the code asks the first one for its kind. */
  function FirstKind(pod: Pod): string {
    if pod.owners == [] then "" else pod.owners[0].kind
  }

  // ----- The decision, case by case -----

  /** Whether the pod's status calls for reclaiming, or for tracing; None when a check failed. */
  function StatusVerdict(cfg: Config, w: World, key: string, pod: Pod, isStatic: bool, shouldGC: bool): Option<(bool, bool)> {
    var valid := IsValidStatic(cfg, w, key, FirstKind(pod));
    if pod.phase.Succeeded? || pod.phase.Failed? then
      if isStatic then (if valid.Err? then None else Some((!valid.value, valid.value)))
      else if pod.deletion.Some? then Some(TerminatingDecision(cfg, w, pod, shouldGC))
      else Some((false, false))
    else if pod.phase.Pending? then Some((false, false))
    else if pod.deletion.Some? then Some(TerminatingDecision(cfg, w, pod, shouldGC))
    else if pod.podIPs != [] then Some((false, false))
    else if isStatic then (if valid.Err? then None else Some((!valid.value, false)))
    else Some((if pod.phase.Running? then cfg.gcRunningWithoutIPs else true, false))
  }

  /** What a UID other than the pod's means for its holder: reclaim it, unless a valid static pod is
      still starting; None when the check failed. */
  function OutdatedVerdict(cfg: Config, w: World, key: string, pod: Pod, isStatic: bool): Option<bool> {
    var valid := IsValidStatic(cfg, w, key, FirstKind(pod));
    if !isStatic || pod.podIPs != [] then Some(true)
    else if valid.Err? then None
    else Some(!valid.value)
  }

  const SKIP := Decision(false, false, false)

  function Decide(cfg: Config, w: World, endpoints: map<string, Endpoint>, record: Record): Decision {
    var key := record.nsName;
    var epFailed := key in w.failedEndpoints;
    var epFound := !epFailed && key in endpoints;
    if key in w.badKeys || key in w.failedPods then SKIP
    else if key !in w.pods then
      if epFailed then SKIP
      else if !epFound then Decision(false, true, false)
      else (match IsValidStatic(cfg, w, key, endpoints[key].ownerKind)
        case Err(_) => SKIP
        case Ok(valid) => Decision(false, !valid, !valid))
    else
      var pod := w.pods[key];
      var isStatic := IsStaticIPPod(cfg, pod);
      var onNode := ShouldGCOnNode(cfg, w, pod);
      if !isStatic && onNode.Err? then SKIP
      else (match StatusVerdict(cfg, w, key, pod, isStatic, !isStatic && onNode.value)
        case None => SKIP
        case Some((statusGC, wantTrace)) =>
          var trace := wantTrace && cfg.elected;
          var outdated := OutdatedVerdict(cfg, w, key, pod, isStatic);
          var ipVerdict := if pod.uid != record.uid then outdated else Some(statusGC);
          if ipVerdict.None? then Decision(trace, false, false)
          else if !epFound then Decision(trace, ipVerdict.value, false)
          else if pod.uid == endpoints[key].uid then Decision(trace, ipVerdict.value, statusGC)
          else if outdated.None? then Decision(trace, false, false)
          else Decision(trace, ipVerdict.value || !isStatic, outdated.value))
  }

  predicate Finished(pod: Pod) {
    pod.phase.Succeeded? || pod.phase.Failed?
  }

  /** A static pod that has finished, or runs without addresses, is judged by whether its workload is valid. */
  predicate JudgedByWorkload(pod: Pod, isStatic: bool) {
    isStatic && (Finished(pod) || (pod.deletion.None? && pod.podIPs == [] && !pod.phase.Pending?))
  }

  /** A pod being deleted is judged by how long ago, unless it is starting or a finished static one. */
  predicate JudgedByDeletion(pod: Pod, isStatic: bool) {
    pod.deletion.Some? && !pod.phase.Pending? && !(isStatic && Finished(pod))
  }

  predicate Expired(cfg: Config, w: World, pod: Pod) {
    pod.deletion.Some? && w.now > pod.deletion.value.timestamp + pod.deletion.value.graceSeconds + cfg.additionalGraceDelay
  }

  /** Neither terminating nor finished, and either still starting or running with addresses. */
  predicate Live(pod: Pod) {
    pod.deletion.None? && (pod.phase.Pending? || (pod.phase.Running? && pod.podIPs != []))
  }

  /** The reasons there are. For reclaiming: the workload of a static pod is no longer valid; the grace period of
      a deleted pod is over and its node allows it, or the pod has no address left before that; or a pod that
      is neither static nor starting nor finished has none. For tracing: a finished static pod whose workload is
      valid, or a deleted pod that still has addresses within its grace period. No answer: the workload could
      not be checked. A live pod gives no reason, and no pod one for both. */
  predicate StatusReasons(cfg: Config, w: World, key: string, pod: Pod, isStatic: bool, shouldGC: bool, flags: Option<(bool, bool)>) {
    var valid := IsValidStatic(cfg, w, key, FirstKind(pod));
    && (flags.None? <==> JudgedByWorkload(pod, isStatic) && valid.Err?)
    && (flags.Some? ==>
          && (flags.value.0 <==>
                || (JudgedByWorkload(pod, isStatic) && valid == Ok(false))
                || (JudgedByDeletion(pod, isStatic) && (if Expired(cfg, w, pod) then shouldGC else pod.podIPs == []))
                || (!isStatic && pod.deletion.None? && pod.podIPs == [] && !pod.phase.Pending? && !Finished(pod)
                    && (pod.phase.Running? ==> cfg.gcRunningWithoutIPs)))
          && (flags.value.1 <==>
                || (JudgedByWorkload(pod, isStatic) && Finished(pod) && valid == Ok(true))
                || (JudgedByDeletion(pod, isStatic) && !Expired(cfg, w, pod) && pod.podIPs != []))
          && (Live(pod) ==> flags.value == (false, false)) && !(flags.value.0 && flags.value.1))
  }

  /** The switch over the pod's phase: reclaim, trace; None stands for `continue`. */
  method ExamineStatus(cfg: Config, w: World, key: string, pod: Pod, flagStaticIPPod: bool, shouldGC: bool)
    returns (flags: Option<(bool, bool)>)
    ensures StatusReasons(cfg, w, key, pod, flagStaticIPPod, shouldGC, flags)
    ensures flags == StatusVerdict(cfg, w, key, pod, flagStaticIPPod, shouldGC)
  {
    hide IsValidStatic;
    var flagPodStatusShouldGCIP, flagTracePodEntry := false, false;
    if pod.phase.Succeeded? || pod.phase.Failed? {
      if flagStaticIPPod {
        var validPod := IsValidStatic(cfg, w, key, FirstKind(pod));
        if validPod.Err? { return None; }
        if validPod.value { flagTracePodEntry := true; } else { flagPodStatusShouldGCIP := true; }
      } else if pod.deletion.Some? {
        var reclaimTrace := TerminatingDecision(cfg, w, pod, shouldGC);
        flagPodStatusShouldGCIP, flagTracePodEntry := reclaimTrace.0, reclaimTrace.1;
      }
    } else if pod.phase.Pending? {
      flagPodStatusShouldGCIP := false;
    } else if pod.deletion.Some? {
      var reclaimTrace := TerminatingDecision(cfg, w, pod, shouldGC);
      flagPodStatusShouldGCIP, flagTracePodEntry := reclaimTrace.0, reclaimTrace.1;
    } else if pod.podIPs == [] {
      if flagStaticIPPod {
        var validPod := IsValidStatic(cfg, w, key, FirstKind(pod));
        if validPod.Err? { return None; }
        flagPodStatusShouldGCIP := !validPod.value;
      } else if pod.phase.Running? {
        flagPodStatusShouldGCIP := cfg.gcRunningWithoutIPs;
      } else {
        flagPodStatusShouldGCIP := true;
      }
    }
    return Some((flagPodStatusShouldGCIP, flagTracePodEntry));
  }

  /** The body of the record loop with its flags and early exits. */
  method Examine(cfg: Config, w: World, endpoints: map<string, Endpoint>, record: Record) returns (d: Decision)
    ensures d == Decide(cfg, w, endpoints, record)
  {
    hide IsStaticIPPod, IsValidStatic, ShouldGCOnNode, StatusVerdict;
    var key := record.nsName;
    if key in w.badKeys { return SKIP; }
    var flagGCIPPoolIP, flagGCEndpoint, flagPodStatusShouldGCIP, flagTracePodEntry := false, false, false, false;
    var flagStaticIPPod, shouldGcStatelessTerminatingPod := false, false;
    var endpointFailed := key in w.failedEndpoints;
    var endpointFound := !endpointFailed && key in endpoints;
    if key in w.failedPods { return SKIP; }
    if key !in w.pods {
      if endpointFailed { return SKIP; }
      if !endpointFound { return Decision(false, true, false); }
      var validPod := IsValidStatic(cfg, w, key, endpoints[key].ownerKind);
      if validPod.Err? || validPod.value { return SKIP; }
      return Decision(false, true, true);
    }
    var pod := w.pods[key];
    flagStaticIPPod := IsStaticIPPod(cfg, pod);
    if !flagStaticIPPod {
      var onNode := ShouldGCOnNode(cfg, w, pod);
      if onNode.Err? { return SKIP; }
      shouldGcStatelessTerminatingPod := onNode.value;
    }
    var status := ExamineStatus(cfg, w, key, pod, flagStaticIPPod, shouldGcStatelessTerminatingPod);
    if status.None? { return SKIP; }
    flagPodStatusShouldGCIP, flagTracePodEntry := status.value.0, status.value.1;
    var trace := flagTracePodEntry && cfg.elected;
    if pod.uid != record.uid {
      if flagStaticIPPod && pod.podIPs == [] {
        var validPod := IsValidStatic(cfg, w, key, FirstKind(pod));
        if validPod.Err? { return Decision(trace, false, false); }
        flagGCIPPoolIP := !validPod.value;
      } else {
        flagGCIPPoolIP := true;
      }
    } else if flagPodStatusShouldGCIP {
      flagGCIPPoolIP := true;
    }
    if endpointFound {
      if pod.uid != endpoints[key].uid {
        if flagStaticIPPod {
          if pod.podIPs != [] {
            flagGCEndpoint := true;
          } else {
            var validPod := IsValidStatic(cfg, w, key, FirstKind(pod));
            if validPod.Err? { return Decision(trace, false, false); }
            flagGCEndpoint := !validPod.value;
          }
        } else {
          flagGCIPPoolIP := true;
          flagGCEndpoint := true;
        }
      } else if flagPodStatusShouldGCIP {
        flagGCEndpoint := true;
      }
    }
    return Decision(trace, flagGCIPPoolIP, flagGCEndpoint);
  }

  // ----- What the decision never does, and what it leaves -----

  /** The record of a live pod under its own UID is released exactly when an endpoint of that name carries
      another UID, the pod has no static address, and its node could be read. */
  lemma LivePodReleasedIff(cfg: Config, w: World, endpoints: map<string, Endpoint>, record: Record)
    requires record.nsName in w.pods && Live(w.pods[record.nsName]) && w.pods[record.nsName].uid == record.uid
    requires record.nsName !in w.badKeys && record.nsName !in w.failedPods && record.nsName !in w.failedEndpoints
    ensures var pod := w.pods[record.nsName];
      Decide(cfg, w, endpoints, record).releaseIP <==>
        && record.nsName in endpoints && endpoints[record.nsName].uid != pod.uid
        && !IsStaticIPPod(cfg, pod) && pod.node in w.nodeReady
    ensures record.nsName in endpoints && endpoints[record.nsName].uid == w.pods[record.nsName].uid ==>
      !Decide(cfg, w, endpoints, record).gcEndpoint
  {
  }

  /** Every read the scan may need for this workload succeeds. */
  predicate Readable(cfg: Config, w: World, key: string) {
    && key !in w.badKeys && key !in w.failedPods && key !in w.failedEndpoints
    && (key in w.pods ==> w.pods[key].node in w.nodeReady)
    && (cfg.enableStatefulSet ==> key in w.validStatefulSet) && (cfg.enableKubevirt ==> key in w.validVM)
  }

  predicate ErrorFree(cfg: Config, w: World, pools: map<Name, Records>) {
    forall n, ip | n in pools && ip in pools[n] :: Readable(cfg, w, pools[n][ip].nsName)
  }

  /** The workload of a static address still wants it: its pod is missing and the endpoint names a valid
      owner, or its pod is still starting. */
  predicate ValidStaticWorkload(cfg: Config, w: World, endpoints: map<string, Endpoint>, key: string) {
    if key !in w.pods then key in endpoints && IsValidStatic(cfg, w, key, endpoints[key].ownerKind) == Ok(true)
    else
      var pod := w.pods[key];
      IsStaticIPPod(cfg, pod) && pod.podIPs == [] && IsValidStatic(cfg, w, key, FirstKind(pod)) == Ok(true)
  }

  /** The record's pod exists with the recorded UID. */
  predicate Owned(w: World, record: Record) {
    record.nsName in w.pods && w.pods[record.nsName].uid == record.uid
  }

  lemma KeptMeansOwned(cfg: Config, w: World, endpoints: map<string, Endpoint>, record: Record)
    requires !Decide(cfg, w, endpoints, record).releaseIP
    requires Readable(cfg, w, record.nsName)
    ensures Owned(w, record) || ValidStaticWorkload(cfg, w, endpoints, record.nsName)
  {
    hide IsStaticIPPod, TerminatingDecision;
  }

  // ----- The pass -----

  type Name = string

  /** The stored objects the pass changes, and the endpoints it has not met yet. */
  datatype Store = Store(pools: map<Name, Records>, endpoints: map<string, Endpoint>, suspicious: set<string>)

  /** A record as listed at the start of the pass. */
  datatype Item = Item(pool: Name, ip: nat, record: Record)

  /** Examine one listed record and carry the decision out. */
  function ScanItem(cfg: Config, w: World, s: Store, item: Item): Store {
    var key := item.record.nsName;
    var d := Decide(cfg, w, s.endpoints, item.record);
    var met := key !in w.badKeys && key !in w.failedEndpoints && key in s.endpoints;
    Store(
      if d.releaseIP && item.pool in s.pools
      then s.pools[item.pool := ReleaseRecords(s.pools[item.pool], [IPAndUID(item.ip, item.record.uid)])] else s.pools,
      if d.gcEndpoint then s.endpoints - {key} else s.endpoints,
      if met then s.suspicious - {key} else s.suspicious)
  }

  /** The records are examined in some order; the two goroutines for v4 and v6 interleave. */
  function Pass(cfg: Config, w: World, s: Store, items: seq<Item>): Store {
    if items == [] then s else ScanItem(cfg, w, Pass(cfg, w, s, items[..|items| - 1]), items[|items| - 1])
  }

  /** The items are the records of the store, each once. */
  predicate Lists(pools: map<Name, Records>, items: seq<Item>) {
    && (forall i :: 0 <= i < |items| ==>
          items[i].pool in pools && items[i].ip in pools[items[i].pool] && pools[items[i].pool][items[i].ip] == items[i].record)
    && (forall i, j :: 0 <= i < j < |items| ==> items[i] != items[j])
  }

  ghost predicate ListsAll(pools: map<Name, Records>, items: seq<Item>) {
    Lists(pools, items) && forall n, ip :: n in pools && ip in pools[n] ==> Item(n, ip, pools[n][ip]) in items
  }

  ghost predicate Recorded(s: Store, item: Item) {
    item.pool in s.pools && item.ip in s.pools[item.pool] && s.pools[item.pool][item.ip] == item.record
  }

  /** One step touches only its own record, and removes it exactly when the decision says so. */
  lemma ScanItemStep(cfg: Config, w: World, s: Store, item: Item, other: Item)
    requires Recorded(s, item) && Recorded(s, other)
    ensures var s' := ScanItem(cfg, w, s, item);
      Recorded(s', other) <==> !(other == item && Decide(cfg, w, s.endpoints, item.record).releaseIP)
  {
    hide Decide, ReleaseRecords;
    ReleaseMeaning(s.pools[item.pool], [IPAndUID(item.ip, item.record.uid)]);
  }

  lemma ScanItemShrinks(cfg: Config, w: World, s: Store, item: Item)
    ensures var s' := ScanItem(cfg, w, s, item);
      && s'.pools.Keys == s.pools.Keys
      && (forall n, ip :: n in s'.pools && ip in s'.pools[n] ==> ip in s.pools[n] && s'.pools[n][ip] == s.pools[n][ip])
      && (forall key :: key in s'.endpoints ==> key in s.endpoints && s'.endpoints[key] == s.endpoints[key])
  {
    hide Decide, ReleaseRecords;
    if item.pool in s.pools {
      ReleaseMeaning(s.pools[item.pool], [IPAndUID(item.ip, item.record.uid)]);
    }
  }

  /** After a prefix of the items: those still to come are untouched, those done are gone exactly if
      their decision at the time was to release. */
  lemma {:induction false} PassPrefix(cfg: Config, w: World, s: Store, items: seq<Item>, n: nat)
    requires Lists(s.pools, items) && n <= |items|
    ensures var s' := Pass(cfg, w, s, items[..n]);
      && (forall i :: n <= i < |items| ==> Recorded(s', items[i]))
      && s'.pools.Keys == s.pools.Keys
      && (forall m, ip :: m in s'.pools && ip in s'.pools[m] ==> ip in s.pools[m] && s'.pools[m][ip] == s.pools[m][ip])
      && (forall key :: key in s'.endpoints ==> key in s.endpoints && s'.endpoints[key] == s.endpoints[key])
  {
    hide ScanItem;
    if n > 0 {
      var mid := Pass(cfg, w, s, items[..n - 1]);
      PassPrefix(cfg, w, s, items, n - 1);
      assert items[..n][..n - 1] == items[..n - 1];
      ScanItemShrinks(cfg, w, mid, items[n - 1]);
      forall i | n <= i < |items| ensures Recorded(Pass(cfg, w, s, items[..n]), items[i]) {
        assert items[n - 1] != items[i];
        ScanItemStep(cfg, w, mid, items[n - 1], items[i]);
      }
    }
  }

  /** Item `k` is still recorded after `n` steps exactly if it has not been released. */
  lemma {:induction false} PassRecord(cfg: Config, w: World, s: Store, items: seq<Item>, k: nat, n: nat)
    requires Lists(s.pools, items) && k < n <= |items|
    ensures Recorded(Pass(cfg, w, s, items[..n]), items[k]) <==>
      !Decide(cfg, w, Pass(cfg, w, s, items[..k]).endpoints, items[k].record).releaseIP
    decreases n
  {
    hide ScanItem, Decide, Recorded, Lists, Pass;
    var mid := Pass(cfg, w, s, items[..n - 1]);
    PassStep(cfg, w, s, items, n);
    if k == n - 1 {
      ScanItemStep(cfg, w, mid, items[k], items[k]);
    } else {
      PassRecord(cfg, w, s, items, k, n - 1);
      if Recorded(mid, items[k]) {
        ListsOnce(s.pools, items, k, n - 1);
        ScanItemStep(cfg, w, mid, items[n - 1], items[k]);
      } else {
        GoneStaysGone(cfg, w, mid, items[n - 1], items[k]);
      }
    }
  }

  lemma PassStep(cfg: Config, w: World, s: Store, items: seq<Item>, n: nat)
    requires Lists(s.pools, items) && 0 < n <= |items|
    ensures var mid := Pass(cfg, w, s, items[..n - 1]);
      Recorded(mid, items[n - 1]) && Pass(cfg, w, s, items[..n]) == ScanItem(cfg, w, mid, items[n - 1])
  {
    hide ScanItem, Lists;
    assert items[..n][..n - 1] == items[..n - 1];
    PassPrefix(cfg, w, s, items, n - 1);
  }

  lemma ListsOnce(pools: map<Name, Records>, items: seq<Item>, i: nat, j: nat)
    requires Lists(pools, items) && i < j < |items|
    ensures items[i] != items[j]
  {
  }

  lemma GoneStaysGone(cfg: Config, w: World, s: Store, item: Item, other: Item)
    requires !Recorded(s, other)
    ensures !Recorded(ScanItem(cfg, w, s, item), other)
  {
    hide ScanItem;
    ScanItemShrinks(cfg, w, s, item);
  }

  /** A pass without failed reads, over any pools and in any order, leaves a record only if its pod exists
      with that UID or a still valid static workload wants it. */
  lemma PassLeavesOwned(cfg: Config, w: World, s: Store, items: seq<Item>, n: Name, ip: nat)
    requires ListsAll(s.pools, items) && ErrorFree(cfg, w, s.pools)
    requires var s' := Pass(cfg, w, s, items); n in s'.pools && ip in s'.pools[n]
    ensures n in s.pools && ip in s.pools[n]
    ensures Owned(w, s.pools[n][ip]) || ValidStaticWorkload(cfg, w, s.endpoints, s.pools[n][ip].nsName)
  {
    hide Decide, ScanItem, Pass, IsValidStatic, IsStaticIPPod;
    assert items[..|items|] == items;
    PassPrefix(cfg, w, s, items, |items|);
    var record := s.pools[n][ip];
    var k :| 0 <= k < |items| && items[k] == Item(n, ip, record);
    PassRecord(cfg, w, s, items, k, |items|);
    PassPrefix(cfg, w, s, items, k);
    var met := Pass(cfg, w, s, items[..k]).endpoints;
    KeptMeansOwned(cfg, w, met, record);
  }

  /** The pass never takes the address of a live pod recorded under its UID, if the endpoint of that name,
      when there is one, carries the UID too. */
  lemma PassKeepsLive(cfg: Config, w: World, s: Store, items: seq<Item>, n: Name, ip: nat)
    requires ListsAll(s.pools, items) && ErrorFree(cfg, w, s.pools) && n in s.pools && ip in s.pools[n]
    requires var record := s.pools[n][ip];
      && Owned(w, record) && Live(w.pods[record.nsName])
      && (record.nsName in s.endpoints ==> s.endpoints[record.nsName].uid == record.uid)
    ensures var s' := Pass(cfg, w, s, items); n in s'.pools && ip in s'.pools[n] && s'.pools[n][ip] == s.pools[n][ip]
  {
    hide Decide, ScanItem, Pass, IsValidStatic, IsStaticIPPod;
    assert items[..|items|] == items;
    var record := s.pools[n][ip];
    var k :| 0 <= k < |items| && items[k] == Item(n, ip, record);
    PassPrefix(cfg, w, s, items, k);
    LivePodReleasedIff(cfg, w, Pass(cfg, w, s, items[..k]).endpoints, record);
    PassRecord(cfg, w, s, items, k, |items|);
  }

  /** What an outdated endpoint costs a live pod with two records: the pass takes the record it meets first
      and, the endpoint being gone then, keeps the other, so the outcome depends on the order. */
  lemma StaleEndpointCostsFirstRecord(cfg: Config, w: World, s: Store, first: Item, second: Item)
    requires Lists(s.pools, [first, second]) && first.record == second.record
    requires var key := first.record.nsName;
      && Readable(cfg, w, key) && Owned(w, first.record) && Live(w.pods[key]) && !IsStaticIPPod(cfg, w.pods[key])
      && key in s.endpoints && s.endpoints[key].uid != first.record.uid
    ensures var s' := Pass(cfg, w, s, [first, second]); !Recorded(s', first) && Recorded(s', second)
  {
    hide ScanItem, Pass, IsValidStatic, IsStaticIPPod;
    var items := [first, second];
    assert items[..0] == [] && items[..1] == [first] && items[..2] == items;
    PassNothing(cfg, w, s);
    PassAppend(cfg, w, s, [], first);
    assert [] + [first] == [first];
    LivePodReleasedIff(cfg, w, s.endpoints, first.record);
    PassRecord(cfg, w, s, items, 0, 2);
    FirstDropsEndpoint(cfg, w, s, first);
    LivePodReleasedIff(cfg, w, ScanItem(cfg, w, s, first).endpoints, second.record);
    PassRecord(cfg, w, s, items, 1, 2);
  }

  lemma FirstDropsEndpoint(cfg: Config, w: World, s: Store, item: Item)
    requires var key := item.record.nsName;
      && Readable(cfg, w, key) && Owned(w, item.record) && Live(w.pods[key]) && !IsStaticIPPod(cfg, w.pods[key])
      && key in s.endpoints && s.endpoints[key].uid != item.record.uid
    ensures item.record.nsName !in ScanItem(cfg, w, s, item).endpoints
  {
  }

  /** Endpoints left as suspicious after the pass are exactly those no record names. */
  lemma {:induction false} PassSuspects(cfg: Config, w: World, s: Store, items: seq<Item>, key: string)
    requires w.badKeys == {} && w.failedEndpoints == {} && s.suspicious == s.endpoints.Keys
    ensures var s' := Pass(cfg, w, s, items);
      && (key in s'.suspicious <==> key in s.endpoints && forall i :: 0 <= i < |items| ==> items[i].record.nsName != key)
      && (key in s'.suspicious ==> key in s'.endpoints)
      && (key in s.endpoints && key !in s'.endpoints ==> key !in s'.suspicious)
  {
    hide Decide, ReleaseRecords;
    if items != [] {
      var m := |items| - 1;
      PassSuspects(cfg, w, s, items[..m], key);
      DropsMetOnly(cfg, w, Pass(cfg, w, s, items[..m]).endpoints, items[m].record);
      assert forall i :: 0 <= i < m ==> items[..m][i] == items[i];
    }
  }

  lemma DropsMetOnly(cfg: Config, w: World, endpoints: map<string, Endpoint>, record: Record)
    ensures Decide(cfg, w, endpoints, record).gcEndpoint ==> record.nsName in endpoints
  {
  }

  /** `executeScanAll` over the listed pools. */
  class Scanner {
    const cfg: Config
    var pools: map<Name, Records>
    var endpoints: map<string, Endpoint>
    var suspiciousEndpointMap: set<string>

    constructor (cfg: Config, pools: map<Name, Records>, endpoints: map<string, Endpoint>)
      ensures this.cfg == cfg && this.pools == pools && this.endpoints == endpoints && suspiciousEndpointMap == endpoints.Keys
    {
      this.cfg, this.pools, this.endpoints, suspiciousEndpointMap := cfg, pools, endpoints, endpoints.Keys;
    }

    ghost function Abstract(): Store reads this {
      Store(pools, endpoints, suspiciousEndpointMap)
    }

    /** The loop over the listed pools. */
    method ScanAll(w: World) returns (ghost items: seq<Item>)
      modifies this`pools, this`endpoints, this`suspiciousEndpointMap
      ensures ListsAll(old(pools), items)
      ensures Abstract() == Pass(cfg, w, old(Abstract()), items)
    {
      hide Pass, ListsPool, Lists;
      items := [];
      ghost var start := Abstract();
      ghost var done: map<Name, Records> := map[];
      var listed := pools;
      var left := listed.Keys;
      PassNothing(cfg, w, start);
      ListsNothing();
      while left != {}
        invariant left <= listed.Keys && done.Keys == listed.Keys - left
        invariant forall n :: n in done ==> done[n] == listed[n]
        invariant Abstract() == Pass(cfg, w, start, items) && pools.Keys == listed.Keys
        invariant ListsAll(done, items)
        decreases left
      {
        var n :| n in left;
        ghost var more := ScanPool(w, n, listed[n]);
        PassConcat(cfg, w, start, items, more);
        ListsConcat(done, n, listed[n], items, more);
        items := items + more;
        done := done[n := listed[n]];
        left := left - {n};
      }
      assert done == listed;
    }

    /** The loop over the listed records of one pool. */
    method ScanPool(w: World, n: Name, listed: Records) returns (ghost items: seq<Item>)
      requires n in pools
      modifies this`pools, this`endpoints, this`suspiciousEndpointMap
      ensures ListsPool(n, listed, items) && pools.Keys == old(pools.Keys)
      ensures Abstract() == Pass(cfg, w, old(Abstract()), items)
    {
      hide ScanItem, Pass;
      items := [];
      ghost var start := Abstract();
      var ips := listed.Keys;
      PassNothing(cfg, w, start);
      while ips != {}
        invariant ips <= listed.Keys
        invariant Abstract() == Pass(cfg, w, start, items) && pools.Keys == old(pools.Keys)
        invariant forall i :: 0 <= i < |items| ==> ListsOne(n, listed, items[i]) && items[i].ip !in ips
        invariant forall i, j :: 0 <= i < j < |items| ==> items[i] != items[j]
        invariant forall ip :: ip in listed && ip !in ips ==> Item(n, ip, listed[ip]) in items
        decreases ips
      {
        var ip :| ip in ips;
        ghost var item := Item(n, ip, listed[ip]);
        PassAppend(cfg, w, start, items, item);
        ScanRecord(w, n, ip, listed[ip]);
        items := items + [item];
        ips := ips - {ip};
      }
    }

    /** One round of the record loop: the reads, the decision and its two effects. */
    method ScanRecord(w: World, poolName: Name, poolIP: nat, record: Record)
      requires poolName in pools
      modifies this`pools, this`endpoints, this`suspiciousEndpointMap
      ensures Abstract() == ScanItem(cfg, w, old(Abstract()), Item(poolName, poolIP, record))
      ensures pools.Keys == old(pools.Keys)
    {
      hide Decide, ReleaseRecords;
      var key := record.nsName;
      var d := Examine(cfg, w, endpoints, record);
      if key !in w.badKeys && key !in w.failedEndpoints && key in endpoints {
        suspiciousEndpointMap := suspiciousEndpointMap - {key};
      }
      if d.releaseIP {
        pools := pools[poolName := ReleaseRecords(pools[poolName], [IPAndUID(poolIP, record.uid)])];
      }
      if d.gcEndpoint {
        endpoints := endpoints - {key};
      }
    }
  }

  predicate ListsOne(n: Name, records: Records, item: Item) {
    item.pool == n && item.ip in records && records[item.ip] == item.record
  }

  /** The items are the records of one pool, each once. */
  ghost predicate ListsPool(n: Name, records: Records, items: seq<Item>) {
    && (forall i :: 0 <= i < |items| ==> ListsOne(n, records, items[i]))
    && (forall i, j :: 0 <= i < j < |items| ==> items[i] != items[j])
    && forall ip :: ip in records ==> Item(n, ip, records[ip]) in items
  }

  lemma ListsNothing()
    ensures ListsAll(map[], [])
  {
  }

  lemma ListsConcat(done: map<Name, Records>, n: Name, records: Records, items: seq<Item>, more: seq<Item>)
    requires ListsAll(done, items) && ListsPool(n, records, more) && n !in done
    ensures ListsAll(done[n := records], items + more)
  {
  }

  lemma {:induction false} PassConcat(cfg: Config, w: World, s: Store, a: seq<Item>, b: seq<Item>)
    ensures Pass(cfg, w, s, a + b) == Pass(cfg, w, Pass(cfg, w, s, a), b)
    decreases b
  {
    hide ScanItem;
    if b == [] {
      assert a + b == a;
    } else {
      PassConcat(cfg, w, s, a, b[..|b| - 1]);
      assert (a + b)[..|a + b| - 1] == a + b[..|b| - 1];
    }
  }

  lemma PassNothing(cfg: Config, w: World, s: Store)
    ensures Pass(cfg, w, s, []) == s
  {
  }

  lemma PassAppend(cfg: Config, w: World, s: Store, items: seq<Item>, item: Item)
    ensures Pass(cfg, w, s, items + [item]) == ScanItem(cfg, w, Pass(cfg, w, s, items), item)
  {
  }
}
