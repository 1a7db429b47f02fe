/** What the operations do when nothing stops them: the stored state after each commit, exactly when admission
    accepts, and the closures of the pool manager as the steps of the protocol. */
module PoolEffects {
  import opened Wrappers
  import opened Address
  import opened Ranges
  import opened Blocks
  import opened Cidr
  import opened PoolRecords
  import opened PoolProtocol

  // ----- What a commit stores -----

  /** At most the pool of this name has changed, and its version is new exactly if it has. */
  ghost predicate OnlyPool(s: State, s': State, n: Name) {
    && n in s.pools && s'.pools.Keys == s.pools.Keys && s'.attempts == s.attempts
    && (forall m | m in s.pools && m != n :: s'.pools[m] == s.pools[m])
    && (if s'.pools[n] == s.pools[n] then s' == s else s'.pools[n].ver == s'.clock == s.clock + 1)
  }

  /** The attempt is current and carries an operation of this kind; what it has read is what is stored. */
  lemma SnapIsStored(cfg: Config, s: State, agent: Agent)
    requires Inv(cfg, s) && Current(s, agent)
    ensures s.attempts[agent].name in s.pools && s.attempts[agent].snap == s.pools[s.attempts[agent].name]
    ensures PoolOk(cfg, s.attempts[agent].snap)
  {
    hide PoolOk, PoolsApart;
  }

  lemma StoreEffect(s: State, n: Name, p: Pool)
    requires n in s.pools && p.ver == s.pools[n].ver <= s.clock
    ensures var s' := Store(s, n, p);
      OnlyPool(s, s', n) && s'.pools[n].spec == p.spec && s'.pools[n].records == p.records && s'.pools[n].count == p.count
  {
  }

  lemma VersionBelow(cfg: Config, s: State, n: Name)
    requires Inv(cfg, s) && n in s.pools
    ensures s.pools[n].ver <= s.clock
  {
    hide PoolOk, PoolsApart;
  }

  lemma NothingEffect(s: State, n: Name)
    requires n in s.pools
    ensures OnlyPool(s, s, n)
  {
  }

  /** A committed release: an address is recorded afterwards exactly if it was and is not named together with
      the UID it is recorded for. The other records are as they were, and the count is their number. */
  ghost predicate Released(p: Pool, q: Pool, req: seq<IPAndUID>) {
    && q.spec == p.spec
    && (forall ip :: ip in q.records <==> ip in p.records && IPAndUID(ip, p.records[ip].uid) !in req)
    && (forall ip | ip in q.records :: q.records[ip] == p.records[ip])
    && (if p.count.None? then q.count.None? else q.count == Some(|q.records|))
  }

  lemma CommittedRelease(cfg: Config, s: State, agent: Agent)
    requires Inv(cfg, s) && Current(s, agent) && s.attempts[agent].op.Release?
    ensures var n, s' := s.attempts[agent].name, Apply(cfg, s, Commit(agent));
      OnlyPool(s, s', n) && Released(s.pools[n], s'.pools[n], s.attempts[agent].op.req)
  {
    hide ReleaseRecords, Store, Inv, StraightSpec, Offers, Accepts, UniqueUids;
    var att := s.attempts[agent];
    SnapIsStored(cfg, s, agent);
    VersionBelow(cfg, s, att.name);
    ReleaseMeaning(att.snap.records, att.op.req);
    var after := ReleaseRecords(att.snap.records, att.op.req);
    NothingEffect(s, att.name);
    StoreEffect(s, att.name, att.snap.(records := after, count := Some(|after|)));
    assert att.snap.records == map[] ==> after == map[];
  }

  /** A committed allocation that answers a fresh address records it for the workload and UID asked for, and
      counts it; any other allocation changes nothing. */
  ghost predicate Allocated(p: Pool, q: Pool, nsName: string, uid: string, answer: Result<nat, AllocError>) {
    if UidRecorded(p.records, uid) || answer.Err? then q == p
    else
      && q.spec == p.spec && answer.value !in p.records && q.records.Keys == p.records.Keys + {answer.value}
      && q.records[answer.value] == Record(nsName, uid) && (forall ip | ip in p.records :: q.records[ip] == p.records[ip])
      && q.count == Some(|p.records| + 1)
  }

  lemma CommittedAllocation(cfg: Config, s: State, agent: Agent)
    requires Inv(cfg, s) && Current(s, agent) && s.attempts[agent].op.Allocate?
    ensures var n, op, s' := s.attempts[agent].name, s.attempts[agent].op, Apply(cfg, s, Commit(agent)); var p := s.pools[n];
      OnlyPool(s, s', n) && Allocated(p, s'.pools[n], op.nsName, op.uid, FreshAddress(p.spec, p.records, op.reserved, cfg.max))
  {
    hide FreshAddress, Store, Inv, PoolOk, Listed, HasFree;
    var att := s.attempts[agent];
    SnapIsStored(cfg, s, agent);
    VersionBelow(cfg, s, att.name);
    var p := att.snap;
    var answer := FreshAddress(p.spec, p.records, att.op.reserved, cfg.max);
    FreshAddressMeaning(p.spec, p.records, att.op.reserved, cfg.max);
    NothingEffect(s, att.name);
    if answer.Ok? {
      StoreEffect(s, att.name, p.(records := p.records[answer.value := Record(att.op.nsName, att.op.uid)], count := Some(|p.records| + 1)));
    }
  }

  /** A committed refresh: if every named record belongs to the workload, each carries the UID it is named with
      last and nothing else has changed; otherwise nothing has. */
  ghost predicate Refreshed(p: Pool, q: Pool, nsName: string, req: seq<IPAndUID>) {
    if exists ip :: ip in p.records && Names(req, ip) && p.records[ip].nsName != nsName then q == p
    else
      && q.spec == p.spec && q.count == p.count && q.records.Keys == p.records.Keys
      && (forall ip | ip in p.records :: q.records[ip].nsName == p.records[ip].nsName)
      && (forall ip | ip in p.records && !Names(req, ip) :: q.records[ip] == p.records[ip])
      && (forall ip | ip in p.records && Names(req, ip) :: NamesLast(req, ip, q.records[ip].uid))
  }

  lemma CommittedRefresh(cfg: Config, s: State, agent: Agent)
    requires Inv(cfg, s) && Current(s, agent) && s.attempts[agent].op.Refresh?
    ensures var n, op, s' := s.attempts[agent].name, s.attempts[agent].op, Apply(cfg, s, Commit(agent));
      OnlyPool(s, s', n) && Refreshed(s.pools[n], s'.pools[n], op.nsName, op.req)
  {
    hide RefreshRecords, Store, Inv, PoolOk, NamesLast, Names;
    var att := s.attempts[agent];
    SnapIsStored(cfg, s, agent);
    VersionBelow(cfg, s, att.name);
    RefreshMeaning(att.snap.records, att.op.nsName, att.op.req);
    NothingEffect(s, att.name);
    var after := RefreshRecords(att.snap.records, att.op.nsName, att.op.req);
    if after.Ok? {
      StoreEffect(s, att.name, att.snap.(records := after.value));
    }
  }

  /** A committed update stores the new spec if it is admitted; the first write of the count stores zero; a pool
      is removed exactly if it has no record. */
  lemma CommittedRest(cfg: Config, s: State, agent: Agent)
    requires Inv(cfg, s) && Current(s, agent)
    ensures var att, s' := s.attempts[agent], Apply(cfg, s, Commit(agent)); var n := att.name; var p := s.pools[n];
      && (att.op.UpdateSpec? ==>
            && OnlyPool(s, s', n) && s'.pools[n].records == p.records && s'.pools[n].count == p.count
            && s'.pools[n].spec == if AdmitsUpdate(s.pools, n, p, att.op.spec) then att.op.spec else p.spec)
      && (att.op.SyncStatus? ==>
            && OnlyPool(s, s', n) && s'.pools[n].records == p.records && s'.pools[n].spec == p.spec
            && s'.pools[n].count == if p.count.None? then Some(0) else p.count)
      && (att.op.RemovePool? ==>
            s'.pools == (if p.records == map[] then s.pools - {n} else s.pools) && s'.attempts == s.attempts)
  {
    hide Store, Inv, PoolOk, AdmitsUpdate;
    var att := s.attempts[agent];
    SnapIsStored(cfg, s, agent);
    VersionBelow(cfg, s, att.name);
    NothingEffect(s, att.name);
    match att.op
    case UpdateSpec(spec) => StoreEffect(s, att.name, att.snap.(spec := spec));
    case SyncStatus => StoreEffect(s, att.name, att.snap.(count := Some(0)));
    case _ =>
  }

  /** The other steps: a read keeps the stored pool for its agent, a create that is admitted adds an empty pool,
      and a commit whose pool has moved on changes nothing. */
  lemma OtherSteps(cfg: Config, s: State, agent: Agent, n: Name, op: Op, spec: Spec)
    requires Inv(cfg, s)
    ensures var s' := Apply(cfg, s, Read(agent, n, op));
      && s'.pools == s.pools
      && s'.attempts == if n in s.pools then s.attempts[agent := Attempt(n, s.pools[n], op)] else s.attempts
    ensures n in s.pools ==> Current(Apply(cfg, s, Read(agent, n, op)), agent)
    ensures var s' := Apply(cfg, s, Create(n, spec));
      if AdmitsCreate(s.pools, n, spec)
      then s'.pools == s.pools[n := Pool(spec, map[], None, s.clock + 1)] && s'.attempts == s.attempts
      else s' == s
    ensures !Current(s, agent) ==> Apply(cfg, s, Commit(agent)) == s
  {
    hide PoolOk, PoolsApart, EffectOf, AvailableIPsValid, IsCIDROverlap, ValidBlock;
  }

  // ----- When admission accepts -----

  /** Between the bounds, in whichever order they are written. */
  predicate Spans(x: IPRange, a: nat) {
    x.Lo() <= a <= x.Hi() || x.Hi() <= a <= x.Lo()
  }

  /** All bounds lie in the subnet, and no address lies in two includes. */
  ghost predicate WellPlaced(spec: Spec) {
    && (forall x | x in spec.ips || x in spec.excludeIPs :: Contains(spec.subnet, x.Lo()) && Contains(spec.subnet, x.Hi()))
    && forall i, j, a :: 0 <= i < j < |spec.ips| ==> !(Spans(spec.ips[i], a) && Spans(spec.ips[j], a))
  }

  /** Two pools of one subnet offer no common address; two subnets that differ have none. */
  ghost predicate Compatible(p: Spec, q: Spec) {
    if p.subnet == q.subnet then forall a :: !(SpecOffers(p, a) && SpecOffers(q, a))
    else forall a :: !(Contains(p.subnet, a) && Contains(q.subnet, a))
  }

  lemma WellPlacedExactly(spec: Spec)
    ensures Accepts(spec.subnet, spec.ips, spec.excludeIPs) <==> WellPlaced(spec)
  {
    hide Contains;
    var ns := Normals(spec.ips);
    assert forall i, a | 0 <= i < |ns| :: ns[i].Has(a) <==> Spans(spec.ips[i], a);
    if WellPlaced(spec) {
      forall i, j | 0 <= i < j < |ns| ensures Apart(ns[i], ns[j]) {
        ApartExactly(ns[i], ns[j]);
      }
    }
    if Disjoint(ns) {
      forall i, j, a | 0 <= i < j < |ns| ensures !(Spans(spec.ips[i], a) && Spans(spec.ips[j], a)) {
        assert Apart(ns[i], ns[j]);
      }
    }
  }

  lemma ApartExactly(x: Interval, y: Interval)
    requires x.start <= x.end && y.start <= y.end
    ensures Apart(x, y) <==> forall a :: !(x.Has(a) && y.Has(a))
  {
    var a := if x.start >= y.start then x.start else y.start;
    assert !Apart(x, y) ==> x.Has(a) && y.Has(a);
  }

  lemma CompatibleExactly(p: Spec, q: Spec)
    requires ValidBlock(p.subnet) && ValidBlock(q.subnet) && p.subnet.fam == q.subnet.fam
    ensures Compatible(p, q) <==> if p.subnet == q.subnet then !RangesOverlap(p, q) else !IsCIDROverlap(p.subnet, q.subnet)
  {
    hide Offers, In, Contains, ValidBlock, IsCIDROverlap;
    AvailableMeaning(p.ips, p.excludeIPs);
    AvailableMeaning(q.ips, q.excludeIPs);
    if p.subnet == q.subnet {
      forall a ensures SpecOffers(p, a) && SpecOffers(q, a) <==> In(Available(p.ips, p.excludeIPs), a) && In(Available(q.ips, q.excludeIPs), a) {
      }
    } else {
      NestedOrDisjoint(p.subnet, q.subnet);
    }
  }

  /** A create is admitted exactly if the subnet is a proper block, the name is new, the spec is well placed, and
      every pool of the same version is compatible with it. */
  lemma CreateAdmittedExactly(cfg: Config, s: State, name: Name, spec: Spec)
    requires Inv(cfg, s)
    ensures AdmitsCreate(s.pools, name, spec) <==>
      && ValidBlock(spec.subnet) && name !in s.pools && WellPlaced(spec)
      && forall n | n in s.pools && s.pools[n].spec.subnet.fam == spec.subnet.fam :: Compatible(spec, s.pools[n].spec)
  {
    hide Compatible, Accepts, WellPlaced, ValidBlock, IsCIDROverlap, RangesOverlap, Inv;
    WellPlacedExactly(spec);
    forall n | n in s.pools
      ensures Accepts(s.pools[n].spec.subnet, s.pools[n].spec.ips, s.pools[n].spec.excludeIPs)
      ensures ValidBlock(spec.subnet) && s.pools[n].spec.subnet.fam == spec.subnet.fam ==>
        (Compatible(spec, s.pools[n].spec) <==>
           if spec.subnet == s.pools[n].spec.subnet then !RangesOverlap(spec, s.pools[n].spec)
           else !IsCIDROverlap(spec.subnet, s.pools[n].spec.subnet))
    {
      StoredSpec(cfg, s, n);
      if ValidBlock(spec.subnet) && s.pools[n].spec.subnet.fam == spec.subnet.fam {
        CompatibleExactly(spec, s.pools[n].spec);
      }
    }
  }

  lemma StoredSpec(cfg: Config, s: State, n: Name)
    requires Inv(cfg, s) && n in s.pools
    ensures var spec := s.pools[n].spec; ValidBlock(spec.subnet) && Accepts(spec.subnet, spec.ips, spec.excludeIPs)
  {
    hide PoolsApart;
    assert PoolOk(cfg, s.pools[n]);
  }

  /** An update is admitted exactly if it keeps the subnet, is well placed, is compatible with the other pools of
      the subnet, and its listed total holds every recorded address. */
  lemma UpdateAdmittedExactly(cfg: Config, s: State, name: Name, spec: Spec)
    requires Inv(cfg, s) && name in s.pools
    ensures AdmitsUpdate(s.pools, name, s.pools[name], spec) <==>
      && spec.subnet == s.pools[name].spec.subnet && WellPlaced(spec)
      && (forall n | n in s.pools && n != name && s.pools[n].spec.subnet == spec.subnet :: Compatible(spec, s.pools[n].spec))
      && IPInUseValid(s.pools[name].records, spec)
  {
    hide Compatible, Accepts, WellPlaced, ValidBlock, IsCIDROverlap, RangesOverlap, Inv, IPInUseValid;
    WellPlacedExactly(spec);
    forall n | n in s.pools && s.pools[n].spec.subnet == spec.subnet
      ensures Accepts(s.pools[n].spec.subnet, s.pools[n].spec.ips, s.pools[n].spec.excludeIPs)
      ensures Compatible(spec, s.pools[n].spec) <==> !RangesOverlap(spec, s.pools[n].spec)
    {
      StoredSpec(cfg, s, n);
      CompatibleExactly(spec, s.pools[n].spec);
    }
  }

  /** For a well-placed spec that does not stray the in-use check accepts exactly if all its ranges are listed
      and every recorded address is offered. */
  lemma InUseExactly(records: Records, spec: Spec)
    requires Accepts(spec.subnet, spec.ips, spec.excludeIPs)
    requires Straight(spec.subnet.fam, spec.ips) && Straight(spec.subnet.fam, spec.excludeIPs)
    ensures IPInUseValid(records, spec) <==>
      && Regular(spec.subnet.fam, spec.ips) && Regular(spec.subnet.fam, spec.excludeIPs)
      && forall ip | ip in records :: SpecOffers(spec, ip)
  {
    hide Accepts, AssembleTotalIPs, Regular, Straight, Offers;
    AssembleOutcome(spec.subnet.fam, spec.ips, spec.excludeIPs);
    if Regular(spec.subnet.fam, spec.ips) && Regular(spec.subnet.fam, spec.excludeIPs) {
      TotalsAgree(spec.subnet, spec.ips, spec.excludeIPs);
    }
  }

  // ----- The closures of the pool manager -----

  /** The two effects leave the same state behind when the attempt is current: writing the pool unchanged is no write. */
  predicate SameWrite(p: Pool, e: Effect, f: Effect) {
    e == f || ((e.NoWrite? || e == Put(p)) && (f.NoWrite? || f == Put(p)))
  }

  lemma SameWriteSameState(s: State, n: Name, e: Effect, f: Effect)
    requires n in s.pools && SameWrite(s.pools[n], e, f)
    ensures Carried(s, n, e) == Carried(s, n, f)
  {
  }

  /** One attempt of `ReleaseIP` on the pool it has read. */
  method ReleaseAttempt(cfg: Config, name: Name, p: Pool, req: seq<IPAndUID>) returns (e: Effect)
    ensures forall pools :: SameWrite(p, e, EffectOf(cfg, pools, Attempt(name, p, Release(req))))
  {
    hide ReleaseRecords;
    var ipPool := new IPPool(p.spec, p.records, p.count);
    var release := ipPool.ReleaseIP(req);
    if !release {
      return NoWrite;
    }
    return Put(p.(records := ipPool.allocatedIPs, count := ipPool.allocatedIPCount));
  }

  /** One attempt of `UpdateAllocatedIPs`. */
  method RefreshAttempt(cfg: Config, name: Name, p: Pool, nsName: string, req: seq<IPAndUID>) returns (e: Effect)
    ensures forall pools :: SameWrite(p, e, EffectOf(cfg, pools, Attempt(name, p, Refresh(nsName, req))))
  {
    hide RefreshRecords, Names, NamesLast;
    var ipPool := new IPPool(p.spec, p.records, p.count);
    var err, recreate := ipPool.UpdateAllocatedIPs(nsName, req);
    if err {
      return NoWrite;
    }
    if !recreate {
      RefreshMeaning(p.records, nsName, req);
      UnchangedRefresh(p.records, nsName, req);
      return NoWrite;
    }
    return Put(p.(records := ipPool.allocatedIPs));
  }

  lemma UnchangedRefresh(records: Records, nsName: string, req: seq<IPAndUID>)
    requires RefreshRecords(records, nsName, req).Ok? && !exists iu :: NamesOtherUid(records, req, iu)
    ensures RefreshRecords(records, nsName, req).value == records
  {
    hide RefreshRecords, Names, NamesLast;
    RefreshMeaning(records, nsName, req);
    var after := RefreshRecords(records, nsName, req).value;
    forall ip | ip in records ensures after[ip] == records[ip] {
      LastIsNamed(req, ip, after[ip].uid);
      assert Names(req, ip) ==> !NamesOtherUid(records, req, IPAndUID(ip, after[ip].uid));
    }
  }

  /** One attempt of `AllocateIP`, where it comes to an end. */
  method AllocateAttempt(cfg: Config, name: Name, p: Pool, nsName: string, uid: string, reserved: seq<IPRange>) returns (e: Effect)
    requires forall x | x in p.spec.ips :: x.Lo() < Limit(p.spec.subnet.fam) && x.Hi() < Limit(p.spec.subnet.fam)
    requires OfFamily(p.spec.subnet.fam, p.spec.excludeIPs) && OfFamily(p.spec.subnet.fam, reserved)
    requires !AllocationStops(p.spec, p.records, uid, reserved, NeverReturns)
    ensures forall pools :: SameWrite(p, e, EffectOf(cfg, pools, Attempt(name, p, Allocate(nsName, uid, reserved))))
  {
    hide FreshAddress, AllocationStops, OfFamily, UidRecorded;
    var ipPool := new IPPool(p.spec, p.records, p.count);
    var r := ipPool.GenRandomIP(reserved, nsName, uid, cfg.max);
    if r.Err? {
      return NoWrite;
    }
    return Put(p.(records := ipPool.allocatedIPs, count := ipPool.allocatedIPCount));
  }
}
