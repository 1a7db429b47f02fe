/** The release requests the collector builds from what it has read, and why they are safe. */
module GcRelease {
  import opened Wrappers
  import opened PoolRecords
  import opened PoolProtocol
  import opened PoolOwnership

  /** One allocation of an endpoint: an address and the pool it came from, per IP version. */
  datatype Detail = Detail(ipv4: Option<(nat, Name)>, ipv6: Option<(nat, Name)>)

  datatype Endpoint = Endpoint(uid: string, ips: seq<Detail>)

  /** What the cached read of the endpoint answered. */
  datatype EndpointRead = NotFound | Failed | Found(endpoint: Endpoint)

  type Requests = map<Name, seq<IPAndUID>>

  predicate Mentions(d: Detail, pool: Name, ip: nat) {
    d.ipv4 == Some((ip, pool)) || d.ipv6 == Some((ip, pool))
  }

  function Requested(reqs: Requests, pool: Name): seq<IPAndUID> {
    if pool in reqs then reqs[pool] else []
  }

  function AddRequest(reqs: Requests, pool: Name, iu: IPAndUID): Requests {
    reqs[pool := Requested(reqs, pool) + [iu]]
  }

  /** Some allocation of the endpoint is this address of this pool. */
  ghost predicate Named(details: seq<Detail>, pool: Name, ip: nat) {
    exists i :: 0 <= i < |details| && Mentions(details[i], pool, ip)
  }

  lemma NamedAppend(details: seq<Detail>, d: Detail, pool: Name, ip: nat)
    ensures Named(details + [d], pool, ip) <==> Named(details, pool, ip) || Mentions(d, pool, ip)
  {
    var all := details + [d];
    if Mentions(d, pool, ip) { assert Mentions(all[|details|], pool, ip); }
    if i :| 0 <= i < |details| && Mentions(details[i], pool, ip) { assert Mentions(all[i], pool, ip); }
  }

  /** The requests are exactly the named addresses, by pool, all under one UID. */
  ghost predicate Groups(pius: Requests, uid: string, details: seq<Detail>) {
    forall pool, iu :: iu in Requested(pius, pool) <==> iu.uid == uid && Named(details, pool, iu.ip)
  }

  /** `GroupIPAllocationDetails`: the endpoint's addresses by pool, each under the given UID. */
  method GroupIPAllocationDetails(uid: string, details: seq<Detail>) returns (pius: Requests)
    ensures Groups(pius, uid, details)
  {
    pius := map[];
    for k := 0 to |details|
      invariant Groups(pius, uid, details[..k])
    {
      var d := details[k];
      ghost var before := pius;
      if d.ipv4.Some? {
        pius := AddRequest(pius, d.ipv4.value.1, IPAndUID(d.ipv4.value.0, uid));
      }
      if d.ipv6.Some? {
        pius := AddRequest(pius, d.ipv6.value.1, IPAndUID(d.ipv6.value.0, uid));
      }
      assert details[..k + 1] == details[..k] + [d];
      forall pool, iu ensures iu in Requested(pius, pool) <==> iu.uid == uid && Named(details[..k + 1], pool, iu.ip) {
        NamedAppend(details[..k], d, pool, iu.ip);
        assert iu in Requested(pius, pool) <==> iu in Requested(before, pool) || (iu.uid == uid && Mentions(d, pool, iu.ip));
      }
    }
    assert details[..|details|] == details;
  }

  /** `releaseIPPoolIPExecutor` up to its releases: nothing unless the endpoint still belongs to the
      traced pod, otherwise exactly the endpoint's addresses under the traced UID. */
  method TraceRequests(tracedUID: string, read: EndpointRead) returns (podUsedIPs: Requests)
    ensures !read.Found? || read.endpoint.uid != tracedUID ==> podUsedIPs == map[]
    ensures forall pool, iu :: iu in Requested(podUsedIPs, pool) ==> iu.uid == tracedUID
    ensures read.Found? && read.endpoint.uid == tracedUID ==>
      forall pool, ip :: IPAndUID(ip, tracedUID) in Requested(podUsedIPs, pool) <==>
        Named(read.endpoint.ips, pool, ip)
  {
    if !read.Found? {
      return map[];
    }
    if read.endpoint.uid != tracedUID {
      return map[];
    }
    podUsedIPs := GroupIPAllocationDetails(read.endpoint.uid, read.endpoint.ips);
  }

  /** Every request of the attempt carries this UID. */
  predicate CarriesOnly(req: seq<IPAndUID>, uid: string) {
    forall iu | iu in req :: iu.uid == uid
  }

  /** A release for one pod, built by the agent, the tracer or the scan from any earlier view, never takes
      an address that is recorded for another UID when it is committed. */
  lemma ReleaseForOneUidIsSafe(cfg: Config, s: State, agent: Agent, uid: string, n: Name, ip: nat)
    requires Inv(cfg, s) && Current(s, agent) && s.attempts[agent].op.Release? && CarriesOnly(s.attempts[agent].op.req, uid)
    requires n in s.pools && ip in s.pools[n].records && s.pools[n].records[ip].uid != uid
    ensures var s' := Apply(cfg, s, Commit(agent));
      n in s'.pools && ip in s'.pools[n].records && s'.pools[n].records[ip] == s.pools[n].records[ip]
  {
    hide Apply, Inv;
    StaleReleaseHarmless(cfg, s, agent, n, ip);
  }
}
