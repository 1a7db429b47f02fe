/** Why the scan reclaims, traces or leaves alone: the decision and the whole pass in terms of the objects read. */
module GcReasons {
  import opened Wrappers
  import opened PoolRecords
  import opened GcScan

  // ----- The objects -----

  /** The workload of this kind is one with static addresses and still wants the pod. */
  predicate StillValid(cfg: Config, w: World, key: string, kind: string) {
    || (cfg.enableStatefulSet && kind == "StatefulSet" && key in w.validStatefulSet && w.validStatefulSet[key])
    || (cfg.enableKubevirt && kind == "VirtualMachineInstance" && key in w.validVM && w.validVM[key])
  }

  /** It is such a kind, and asking about it fails. */
  predicate CheckFails(cfg: Config, w: World, key: string, kind: string) {
    || (cfg.enableStatefulSet && kind == "StatefulSet" && key !in w.validStatefulSet)
    || (cfg.enableKubevirt && kind == "VirtualMachineInstance" && key !in w.validVM)
  }

  predicate StaticOwner(cfg: Config, o: OwnerRef) {
    || (cfg.enableStatefulSet && o.apiVersion == "apps/v1" && o.kind == "StatefulSet")
    || (cfg.enableKubevirt && o.apiVersion == "kubevirt.io/v1" && o.kind == "VirtualMachineInstance")
  }

  /** The first of the owners that controls the pod is one with static addresses. */
  predicate StaticPod(cfg: Config, pod: Pod) {
    exists i :: 0 <= i < |pod.owners| && FirstController(pod.owners, i) && StaticOwner(cfg, pod.owners[i])
  }

  predicate FirstController(owners: seq<OwnerRef>, i: nat)
    requires i < |owners|
  {
    owners[i].controller && forall j :: 0 <= j < i ==> !owners[j].controller
  }

  /** The workload is asked about by the kind of the first owner. */
  predicate PodValid(cfg: Config, w: World, key: string, pod: Pod) {
    pod.owners != [] && StillValid(cfg, w, key, pod.owners[0].kind)
  }

  predicate PodUnchecked(cfg: Config, w: World, key: string, pod: Pod) {
    pod.owners != [] && CheckFails(cfg, w, key, pod.owners[0].kind)
  }

  predicate NodeAllows(cfg: Config, w: World, pod: Pod) {
    pod.node in w.nodeReady && if w.nodeReady[pod.node] then cfg.gcOnReadyNode else cfg.gcOnNotReadyNode
  }

  /** A static pod without addresses is still starting; while its workload is valid, what it had before is kept. */
  predicate Restarting(cfg: Config, w: World, key: string, pod: Pod) {
    StaticPod(cfg, pod) && pod.podIPs == [] && PodValid(cfg, w, key, pod)
  }

  // ----- Reasons -----

  /** The pod's status gives a reason to reclaim: the workload of a static pod is no longer valid; the grace
      period of a deleted pod is over and its node allows it, or the pod has lost its addresses before that; or a
      pod that is neither static nor starting nor finished has none. */
  predicate StatusReclaims(cfg: Config, w: World, key: string, pod: Pod) {
    var static_ := StaticPod(cfg, pod);
    || (JudgedByWorkload(pod, static_) && !PodValid(cfg, w, key, pod))
    || (JudgedByDeletion(pod, static_) && if Expired(cfg, w, pod) then !static_ && NodeAllows(cfg, w, pod) else pod.podIPs == [])
    || (!static_ && pod.deletion.None? && pod.podIPs == [] && !pod.phase.Pending? && !Finished(pod)
        && (pod.phase.Running? ==> cfg.gcRunningWithoutIPs))
  }

  /** It gives a reason to trace the pod: it is static, finished and wanted again, or it still has addresses
      within its grace period. */
  predicate StatusTraces(cfg: Config, w: World, key: string, pod: Pod) {
    var static_ := StaticPod(cfg, pod);
    || (JudgedByWorkload(pod, static_) && Finished(pod) && PodValid(cfg, w, key, pod))
    || (JudgedByDeletion(pod, static_) && !Expired(cfg, w, pod) && pod.podIPs != [])
  }

  predicate EndpointRead(w: World, endpoints: map<string, Endpoint>, key: string) {
    key !in w.failedEndpoints && key in endpoints
  }

  /** Something the decision needs could not be read. */
  predicate Unread(cfg: Config, w: World, endpoints: map<string, Endpoint>, key: string) {
    || key in w.badKeys || key in w.failedPods
    || (key !in w.pods && key in w.failedEndpoints)
    || (key !in w.pods && key in endpoints && CheckFails(cfg, w, key, endpoints[key].ownerKind))
    || (key in w.pods && !StaticPod(cfg, w.pods[key]) && w.pods[key].node !in w.nodeReady)
    || (key in w.pods && JudgedByWorkload(w.pods[key], StaticPod(cfg, w.pods[key])) && PodUnchecked(cfg, w, key, w.pods[key]))
  }

  /** The record or the endpoint is not the pod's, the pod is a static one still starting, and its workload
      could not be asked about. */
  predicate StaleUnread(cfg: Config, w: World, endpoints: map<string, Endpoint>, record: Record) {
    var key := record.nsName;
    && key in w.pods && StaticPod(cfg, w.pods[key]) && w.pods[key].podIPs == [] && PodUnchecked(cfg, w, key, w.pods[key])
    && (record.uid != w.pods[key].uid || (EndpointRead(w, endpoints, key) && endpoints[key].uid != w.pods[key].uid))
  }

  predicate StaleEndpoint(w: World, endpoints: map<string, Endpoint>, key: string) {
    key in w.pods && EndpointRead(w, endpoints, key) && endpoints[key].uid != w.pods[key].uid
  }

  /** Without failed reads, the record goes: its pod is missing and no valid workload waits for it; or it is the
      pod's own and its status says so, or the endpoint of a pod without static addresses is not its own; or it
      is not the pod's own and no static pod is starting again. */
  predicate RecordGoes(cfg: Config, w: World, endpoints: map<string, Endpoint>, record: Record) {
    var key := record.nsName;
    if key !in w.pods then !(key in endpoints && StillValid(cfg, w, key, endpoints[key].ownerKind))
    else if Owned(w, record) then
      StatusReclaims(cfg, w, key, w.pods[key]) || (!StaticPod(cfg, w.pods[key]) && StaleEndpoint(w, endpoints, key))
    else !Restarting(cfg, w, key, w.pods[key])
  }

  /** And the endpoint goes: its pod is missing and no valid workload waits for it; or it is the pod's own and its
      status says so; or it is not the pod's own and no static pod is starting again. */
  predicate EndpointGoes(cfg: Config, w: World, endpoints: map<string, Endpoint>, key: string) {
    && EndpointRead(w, endpoints, key)
    && if key !in w.pods then !StillValid(cfg, w, key, endpoints[key].ownerKind)
       else if StaleEndpoint(w, endpoints, key) then !Restarting(cfg, w, key, w.pods[key])
       else StatusReclaims(cfg, w, key, w.pods[key])
  }

  // ----- The decision -----

  lemma StaticExactly(cfg: Config, pod: Pod)
    ensures IsStaticIPPod(cfg, pod) <==> StaticPod(cfg, pod)
  {
    ControllerExactly(pod.owners);
    if i :| 0 <= i < |pod.owners| && FirstController(pod.owners, i) && StaticOwner(cfg, pod.owners[i]) {
      assert ControllerOf(pod.owners) == Some(pod.owners[i]);
    }
  }

  lemma {:induction false} ControllerExactly(owners: seq<OwnerRef>)
    ensures forall i :: 0 <= i < |owners| && FirstController(owners, i) ==> ControllerOf(owners) == Some(owners[i])
    ensures ControllerOf(owners).Some? ==> exists i :: 0 <= i < |owners| && FirstController(owners, i)
  {
    if owners != [] && !owners[0].controller {
      ControllerExactly(owners[1..]);
      forall i | 0 <= i < |owners| && FirstController(owners, i) ensures ControllerOf(owners) == Some(owners[i]) {
        assert FirstController(owners[1..], i - 1) by {
          assert forall j :: 0 <= j < i - 1 ==> owners[1..][j] == owners[j + 1];
        }
      }
      if ControllerOf(owners).Some? {
        var i :| 0 <= i < |owners[1..]| && FirstController(owners[1..], i);
        assert FirstController(owners, i + 1) by {
          assert forall j :: 0 < j <= i ==> owners[j] == owners[1..][j - 1];
        }
      }
    } else if owners != [] {
      assert FirstController(owners, 0);
    }
  }

  lemma ValidExactly(cfg: Config, w: World, key: string, kind: string)
    ensures IsValidStatic(cfg, w, key, kind).Err? <==> CheckFails(cfg, w, key, kind)
    ensures IsValidStatic(cfg, w, key, kind) == Ok(true) <==> StillValid(cfg, w, key, kind)
  {
    assert "StatefulSet"[0] != "VirtualMachineInstance"[0];
  }

  /** A static pod has an owner, so its workload can be asked about. */
  lemma PodValidExactly(cfg: Config, w: World, key: string, pod: Pod)
    requires StaticPod(cfg, pod)
    ensures IsValidStatic(cfg, w, key, FirstKind(pod)).Err? <==> PodUnchecked(cfg, w, key, pod)
    ensures IsValidStatic(cfg, w, key, FirstKind(pod)) == Ok(true) <==> PodValid(cfg, w, key, pod)
  {
    ValidExactly(cfg, w, key, FirstKind(pod));
  }

  lemma StatusExactly(cfg: Config, w: World, key: string, pod: Pod)
    requires StaticPod(cfg, pod) || pod.node in w.nodeReady
    ensures var static_ := StaticPod(cfg, pod);
      var verdict := StatusVerdict(cfg, w, key, pod, static_, !static_ && ShouldGCOnNode(cfg, w, pod).value);
      && (verdict.None? <==> JudgedByWorkload(pod, static_) && PodUnchecked(cfg, w, key, pod))
      && (verdict.Some? ==> verdict.value == (StatusReclaims(cfg, w, key, pod), StatusTraces(cfg, w, key, pod)))
  {
    hide IsValidStatic, StaticPod, PodValid, PodUnchecked, FirstKind;
    if StaticPod(cfg, pod) {
      PodValidExactly(cfg, w, key, pod);
    }
  }

  lemma OutdatedExactly(cfg: Config, w: World, key: string, pod: Pod)
    ensures var outdated := OutdatedVerdict(cfg, w, key, pod, StaticPod(cfg, pod));
      && (outdated.None? <==> StaticPod(cfg, pod) && pod.podIPs == [] && PodUnchecked(cfg, w, key, pod))
      && (outdated.Some? ==> (outdated.value <==> !Restarting(cfg, w, key, pod)))
  {
    hide IsValidStatic, StaticPod, PodValid, PodUnchecked, FirstKind;
    if StaticPod(cfg, pod) {
      PodValidExactly(cfg, w, key, pod);
    }
  }

  /** The decision, exactly. A failed read releases and removes nothing. The pod is traced exactly if its status
      asks for it and this controller is the elected one; record and endpoint go exactly for the reasons above. */
  ghost predicate Reasoned(cfg: Config, w: World, endpoints: map<string, Endpoint>, record: Record, d: Decision) {
    var key := record.nsName;
    && (d.trace <==> !Unread(cfg, w, endpoints, key) && key in w.pods && cfg.elected && StatusTraces(cfg, w, key, w.pods[key]))
    && (d.releaseIP <==>
          !Unread(cfg, w, endpoints, key) && !StaleUnread(cfg, w, endpoints, record) && RecordGoes(cfg, w, endpoints, record))
    && (d.gcEndpoint <==>
          !Unread(cfg, w, endpoints, key) && !StaleUnread(cfg, w, endpoints, record) && EndpointGoes(cfg, w, endpoints, key))
  }

  lemma DecisionExactly(cfg: Config, w: World, endpoints: map<string, Endpoint>, record: Record)
    ensures Reasoned(cfg, w, endpoints, record, Decide(cfg, w, endpoints, record))
  {
    hide IsValidStatic, IsStaticIPPod, StatusVerdict, OutdatedVerdict, StaticPod, PodValid, PodUnchecked, StatusReclaims, StatusTraces,
      StillValid, CheckFails, JudgedByWorkload, Restarting;
    var key := record.nsName;
    if key in w.pods {
      var pod := w.pods[key];
      StaticExactly(cfg, pod);
      OutdatedExactly(cfg, w, key, pod);
      RestartingIsStatic(cfg, w, key, pod);
      if StaticPod(cfg, pod) || pod.node in w.nodeReady {
        StatusExactly(cfg, w, key, pod);
      }
    } else if key in endpoints {
      ValidExactly(cfg, w, key, endpoints[key].ownerKind);
    }
  }

  lemma RestartingIsStatic(cfg: Config, w: World, key: string, pod: Pod)
    ensures Restarting(cfg, w, key, pod) ==> StaticPod(cfg, pod) && pod.podIPs == []
  {
  }

  // ----- The pass -----

  /** Error-free reads leave nothing unread. */
  lemma ReadableIsRead(cfg: Config, w: World, endpoints: map<string, Endpoint>, record: Record)
    requires Readable(cfg, w, record.nsName)
    ensures !Unread(cfg, w, endpoints, record.nsName) && !StaleUnread(cfg, w, endpoints, record)
  {
    hide StaticPod, JudgedByWorkload;
  }

  /** While records are examined, endpoints can only disappear, and one that a valid workload waits for stays. */
  lemma {:induction false} PassEndpoints(cfg: Config, w: World, s: Store, items: seq<Item>, k: nat, key: string)
    requires Lists(s.pools, items) && k <= |items| && ErrorFree(cfg, w, s.pools)
    requires key in s.endpoints && key !in w.pods && StillValid(cfg, w, key, s.endpoints[key].ownerKind)
    ensures var met := Pass(cfg, w, s, items[..k]).endpoints; key in met && met[key] == s.endpoints[key]
  {
    hide Decide, StillValid, Lists, ReleaseRecords;
    if k > 0 {
      PassEndpoints(cfg, w, s, items, k - 1, key);
      PassStep(cfg, w, s, items, k);
      DecisionExactly(cfg, w, Pass(cfg, w, s, items[..k - 1]).endpoints, items[k - 1].record);
    }
  }

  /** What a pass does to every record, in whatever order they are met: after a pass without failed reads a record
      is gone exactly if the objects read at the start give a reason. The one exception is a pod without static
      addresses whose endpoint is not its own, which loses the record met first. */
  lemma PassExactly(cfg: Config, w: World, s: Store, items: seq<Item>, n: Name, ip: nat)
    requires ListsAll(s.pools, items) && ErrorFree(cfg, w, s.pools) && n in s.pools && ip in s.pools[n]
    requires var record := s.pools[n][ip];
      Owned(w, record) && StaleEndpoint(w, s.endpoints, record.nsName) ==> StaticPod(cfg, w.pods[record.nsName])
    ensures var s' := Pass(cfg, w, s, items);
      && n in s'.pools && (ip in s'.pools[n] <==> !RecordGoes(cfg, w, s.endpoints, s.pools[n][ip]))
      && (ip in s'.pools[n] ==> s'.pools[n][ip] == s.pools[n][ip])
  {
    hide Decide, ScanItem, Pass, StaticPod, StillValid, StatusReclaims, Restarting, Lists, Readable, Unread, StaleUnread, Recorded;
    assert items[..|items|] == items;
    var record := s.pools[n][ip];
    var key := record.nsName;
    var k :| 0 <= k < |items| && items[k] == Item(n, ip, record);
    PassPrefix(cfg, w, s, items, k);
    PassPrefix(cfg, w, s, items, |items|);
    PassRecord(cfg, w, s, items, k, |items|);
    var met := Pass(cfg, w, s, items[..k]).endpoints;
    DecisionExactly(cfg, w, met, record);
    ReadableIsRead(cfg, w, met, record);
    if key !in w.pods && key in s.endpoints && StillValid(cfg, w, key, s.endpoints[key].ownerKind) {
      PassEndpoints(cfg, w, s, items, k, key);
    }
    RecordedMeans(Pass(cfg, w, s, items), items[k]);
  }

  lemma RecordedMeans(s: Store, item: Item)
    ensures Recorded(s, item) <==> item.pool in s.pools && item.ip in s.pools[item.pool] && s.pools[item.pool][item.ip] == item.record
  {
  }
}
