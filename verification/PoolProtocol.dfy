/** Agents on many nodes, controllers and users working on the pools: reads may be
    arbitrarily stale, every write is a compare-and-swap on the resource version, and
    specs are admitted through the validators. */
module PoolProtocol {
  import opened Wrappers
  import opened Address
  import opened Ranges
  import opened Blocks
  import opened Cidr
  import opened PoolRecords

  type Name = string
  type Agent = nat

  /** A stored pool; `ver` is its resource version. */
  datatype Pool = Pool(spec: Spec, records: Records, count: Option<int>, ver: nat)

  datatype Op =
    | Allocate(nsName: string, uid: string, reserved: seq<IPRange>)
    | Release(req: seq<IPAndUID>)
    | Refresh(nsName: string, req: seq<IPAndUID>)
    | UpdateSpec(spec: Spec)
    | SyncStatus
    | RemovePool

  /** An operation in flight: the pool object it has read. */
  datatype Attempt = Attempt(name: Name, snap: Pool, op: Op)

  /** `clock` is the largest resource version handed out so far. */
  datatype State = State(pools: map<Name, Pool>, attempts: map<Agent, Attempt>, clock: nat)

  datatype Step =
    | Read(agent: Agent, name: Name, op: Op)
    | Commit(agent: Agent)
    | Create(name: Name, spec: Spec)

  /** `max` is MaxAllocatedIPs. */
  datatype Config = Config(max: nat)

  const EMPTY: State := State(map[], map[], 0)

  // ----- Admission -----

  ghost predicate SpecOffers(spec: Spec, a: nat) {
    Offers(spec.ips, spec.excludeIPs, a)
  }

  /** `IsOverlapIPRanges` on the intervals of two pools. */
  ghost predicate RangesOverlap(p: Spec, q: Spec) {
    exists a :: In(Available(p.ips, p.excludeIPs), a) && In(Available(q.ips, q.excludeIPs), a)
  }

  /** `validateIPPoolAvailableIPs`: the spec and every pool of the same subnet parse, and none overlaps. */
  ghost predicate AvailableIPsValid(pools: map<Name, Pool>, name: Name, spec: Spec) {
    && Accepts(spec.subnet, spec.ips, spec.excludeIPs)
    && forall n | n in pools && n != name && pools[n].spec.subnet == spec.subnet ::
         var other := pools[n].spec;
         Accepts(other.subnet, other.ips, other.excludeIPs) && !RangesOverlap(spec, other)
  }

  /** `validateIPPoolCIDR`: a formatted subnet that overlaps no different subnet in use, and a new name. */
  ghost predicate CIDRValid(pools: map<Name, Pool>, name: Name, spec: Spec) {
    && ValidBlock(spec.subnet) && name !in pools
    && forall n | n in pools && pools[n].spec.subnet.fam == spec.subnet.fam && pools[n].spec.subnet != spec.subnet ::
         !IsCIDROverlap(spec.subnet, pools[n].spec.subnet)
  }

  /** `validateIPPoolIPInUse`: the enumerated total holds every recorded address. */
  predicate IPInUseValid(records: Records, spec: Spec) {
    var total := AssembleTotalIPs(spec.subnet.fam, spec.ips, spec.excludeIPs);
    total.Returns? && forall ip | ip in records :: ip in total.value
  }

  ghost predicate AdmitsCreate(pools: map<Name, Pool>, name: Name, spec: Spec) {
    CIDRValid(pools, name, spec) && AvailableIPsValid(pools, name, spec)
  }

  /** The subnet, and with it the version, must stay; the rest is validated anew. */
  ghost predicate AdmitsUpdate(pools: map<Name, Pool>, name: Name, old_: Pool, spec: Spec) {
    spec.subnet == old_.spec.subnet && AvailableIPsValid(pools, name, spec) && IPInUseValid(old_.records, spec)
  }

  // ----- Steps -----

  datatype Effect = NoWrite | Put(pool: Pool) | Delete

  /** What an attempt writes, computed from its snapshot; admission sees the stored pools. */
  ghost function EffectOf(cfg: Config, pools: map<Name, Pool>, att: Attempt): Effect {
    var p := att.snap;
    match att.op
    case Allocate(nsName, uid, reserved) =>
      if UidRecorded(p.records, uid) then NoWrite
      else (match FreshAddress(p.spec, p.records, reserved, cfg.max)
        case Err(_) => NoWrite
        case Ok(ip) => Put(p.(records := p.records[ip := Record(nsName, uid)], count := Some(|p.records| + 1))))
    case Release(req) =>
      var after := ReleaseRecords(p.records, req);
      if after == p.records then NoWrite else Put(p.(records := after, count := Some(|after|)))
    case Refresh(nsName, req) =>
      (match RefreshRecords(p.records, nsName, req)
       case Err(_) => NoWrite
       case Ok(after) => Put(p.(records := after)))
    case UpdateSpec(spec) =>
      if AdmitsUpdate(pools, att.name, p, spec) then Put(p.(spec := spec)) else NoWrite
    case SyncStatus =>
      if p.count.None? then Put(p.(count := Some(0))) else NoWrite
    case RemovePool =>
      if p.records == map[] then Delete else NoWrite
  }

  /** The compare-and-swap succeeds. */
  predicate Current(s: State, agent: Agent) {
    agent in s.attempts && s.attempts[agent].name in s.pools &&
    s.pools[s.attempts[agent].name].ver == s.attempts[agent].snap.ver
  }

  /** Store a pool under the next resource version; an unchanged object keeps its version. */
  function Store(s: State, name: Name, p: Pool): State {
    if name in s.pools && p == s.pools[name] then s
    else s.(pools := s.pools[name := p.(ver := s.clock + 1)], clock := s.clock + 1)
  }

  /** Carry an effect out on the stored pool. */
  function Carried(s: State, name: Name, effect: Effect): State {
    match effect
    case NoWrite => s
    case Put(p) => Store(s, name, p)
    case Delete => s.(pools := s.pools - {name}, clock := s.clock + 1)
  }

  ghost function Apply(cfg: Config, s: State, step: Step): State {
    match step
    case Read(agent, name, op) =>
      if name in s.pools then s.(attempts := s.attempts[agent := Attempt(name, s.pools[name], op)]) else s
    case Commit(agent) =>
      if !Current(s, agent) then s
      else Carried(s, s.attempts[agent].name, EffectOf(cfg, s.pools, s.attempts[agent]))
    case Create(name, spec) =>
      if AdmitsCreate(s.pools, name, spec) then Store(s, name, Pool(spec, map[], None, 0)) else s
  }

  /** No exclude of the spec is listed as other addresses than its own. */
  predicate StraightSpec(spec: Spec) {
    Straight(spec.subnet.fam, spec.excludeIPs)
  }

  ghost predicate SafeRefresh(att: Attempt) {
    att.op.Refresh? ==> exists uid :: AllUid(att.op.req, uid) && RefreshSafe(att.snap.records, att.op.req, uid)
  }

  /** The includes of an update do not stray, or no record is one of the v4 addresses they could be listed as. */
  predicate SafeIncludes(records: Records, spec: Spec) {
    Straight(spec.subnet.fam, spec.ips) || forall ip | ip in records :: !IsMapped(spec.subnet.fam, ip)
  }

  /** Client discipline: a refresh carries one UID and names at most one address of the pool, the UID not
      being recorded elsewhere in it; the excludes users write do not stray, nor do the includes they change
      to while a v6 pool has a record in ::ffff:0:0/96. */
  ghost predicate Disciplined(s: State, step: Step) {
    match step
    case Read(_, _, _) => true
    case Commit(agent) =>
      Current(s, agent) ==>
        var att := s.attempts[agent];
        SafeRefresh(att) && (att.op.UpdateSpec? ==> StraightSpec(att.op.spec) && SafeIncludes(att.snap.records, att.op.spec))
    case Create(_, spec) => StraightSpec(spec)
  }

  ghost predicate IsRun(cfg: Config, states: seq<State>, steps: seq<Step>) {
    && |states| == |steps| + 1 && states[0] == EMPTY
    && forall i :: 0 <= i < |steps| ==> Disciplined(states[i], steps[i]) && states[i + 1] == Apply(cfg, states[i], steps[i])
  }

  // ----- The invariant -----

  ghost predicate PoolOk(cfg: Config, p: Pool) {
    && ValidBlock(p.spec.subnet) && StraightSpec(p.spec)
    && Accepts(p.spec.subnet, p.spec.ips, p.spec.excludeIPs)
    && (forall ip :: ip in p.records ==> SpecOffers(p.spec, ip))
    && (p.count.None? ==> p.records == map[])
    && (p.count.Some? ==> p.count.value == |p.records|)
    && |p.records| <= cfg.max
    && UniqueUids(p.records)
  }

  /** No address is offered by both pools. */
  ghost predicate SpecsApart(p: Spec, q: Spec) {
    p.subnet.fam == q.subnet.fam ==>
      && (p.subnet != q.subnet ==> !IsCIDROverlap(p.subnet, q.subnet))
      && forall a :: SpecOffers(p, a) ==> !SpecOffers(q, a)
  }

  ghost predicate PoolsApart(pools: map<Name, Pool>) {
    forall m, n | m in pools && n in pools && m != n :: SpecsApart(pools[m].spec, pools[n].spec)
  }

  /** A snapshot whose version is still stored is the stored object. */
  ghost predicate VersionsOk(s: State) {
    && (forall n | n in s.pools :: s.pools[n].ver <= s.clock)
    && (forall g | g in s.attempts :: s.attempts[g].snap.ver <= s.clock)
    && (forall g | g in s.attempts && s.attempts[g].name in s.pools && s.pools[s.attempts[g].name].ver == s.attempts[g].snap.ver ::
          s.pools[s.attempts[g].name] == s.attempts[g].snap)
  }

  ghost predicate Inv(cfg: Config, s: State) {
    VersionsOk(s) && PoolsApart(s.pools) && forall n | n in s.pools :: PoolOk(cfg, s.pools[n])
  }

  // ----- Each effect keeps a good pool good -----

  lemma AllocateKeepsPool(cfg: Config, pools: map<Name, Pool>, att: Attempt)
    requires att.op.Allocate? && PoolOk(cfg, att.snap) && EffectOf(cfg, pools, att).Put?
    ensures PoolOk(cfg, EffectOf(cfg, pools, att).pool)
  {
    hide Offers, Accepts, FreshAddress, Excluded, StraightSpec;
    var p := att.snap;
    SpecIsStraight(p.spec);
    FreshAddressOffered(p.spec, p.records, att.op.reserved, cfg.max);
    var ip := FreshAddress(p.spec, p.records, att.op.reserved, cfg.max).value;
    assert p.records[ip := Record(att.op.nsName, att.op.uid)].Keys == p.records.Keys + {ip};
  }

  lemma SpecIsStraight(spec: Spec)
    requires StraightSpec(spec)
    ensures Straight(spec.subnet.fam, spec.excludeIPs)
  {
  }

  lemma ReleaseKeepsPool(cfg: Config, pools: map<Name, Pool>, att: Attempt)
    requires att.op.Release? && PoolOk(cfg, att.snap) && EffectOf(cfg, pools, att).Put?
    ensures PoolOk(cfg, EffectOf(cfg, pools, att).pool)
  {
    hide Offers, Accepts, ReleaseRecords, StraightSpec;
    ReleaseMeaning(att.snap.records, att.op.req);
    FewerKeys(ReleaseRecords(att.snap.records, att.op.req).Keys, att.snap.records.Keys);
  }

  lemma FewerKeys<T>(x: set<T>, y: set<T>)
    requires x <= y
    ensures |x| <= |y|
  {
    assert y == x + (y - x);
  }

  lemma RefreshKeepsPool(cfg: Config, pools: map<Name, Pool>, att: Attempt, uid: string)
    requires att.op.Refresh? && PoolOk(cfg, att.snap) && EffectOf(cfg, pools, att).Put?
    requires AllUid(att.op.req, uid) && RefreshSafe(att.snap.records, att.op.req, uid)
    ensures PoolOk(cfg, EffectOf(cfg, pools, att).pool)
  {
    hide Offers, Accepts, RefreshRecords, AllUid, RefreshSafe, UniqueUids, StraightSpec;
    var p := att.snap;
    RefreshMeaning(p.records, att.op.nsName, att.op.req);
    RefreshKeepsUnique(p.records, att.op.nsName, att.op.req, uid);
    var after := RefreshRecords(p.records, att.op.nsName, att.op.req).value;
    assert |after| == |after.Keys| == |p.records.Keys| == |p.records|;
  }

  lemma UpdateKeepsPool(cfg: Config, pools: map<Name, Pool>, att: Attempt)
    requires att.op.UpdateSpec? && PoolOk(cfg, att.snap) && EffectOf(cfg, pools, att).Put?
    requires StraightSpec(att.op.spec) && SafeIncludes(att.snap.records, att.op.spec)
    ensures PoolOk(cfg, EffectOf(cfg, pools, att).pool)
  {
    hide Offers, Accepts, AssembleTotalIPs, UniqueUids, StraightSpec, SafeIncludes;
    InUseMeansOffered(att.snap.records, att.op.spec);
  }

  /** What is in the enumerated total of a spec is offered, if its excludes do not stray and its includes do
      not either or none of the records is a v4 address. */
  lemma InUseMeansOffered(records: Records, spec: Spec)
    requires IPInUseValid(records, spec) && StraightSpec(spec) && SafeIncludes(records, spec)
    ensures forall ip :: ip in records ==> SpecOffers(spec, ip)
  {
    hide Diff, ParseAll, Flatten, Regular, Denotes, In, IsMapped, Straight;
    var fam := spec.subnet.fam;
    StraightRegular(fam, spec.excludeIPs);
    if Straight(fam, spec.ips) {
      StraightRegular(fam, spec.ips);
    }
    forall ip | ip in records ensures SpecOffers(spec, ip) {
      var all := ParseAll(fam, spec.ips).value;
      DiffMembers(all, Elems(Flatten(spec.excludeIPs)), ip);
      ListedShape(fam, spec.ips, ip);
      FlattenMembers(spec.ips, ip);
      FlattenMembers(spec.excludeIPs, ip);
      ListedOrdered(fam, spec.ips);
      OrderedIncludes(spec.ips, ip);
    }
  }

  /** A v6 pool whose range runs across ::ffff:0:0/96 has a record there. It is changed to a range that strays: the
      in-use check finds the record in the enumerated total, although the new spec does not offer it. */
  lemma StrayIncludeHidesRecord() returns (before: Spec, after: Spec, records: Records)
    ensures Accepts(before.subnet, before.ips, before.excludeIPs) && forall ip | ip in records :: SpecOffers(before, ip)
    ensures after.subnet == before.subnet && Accepts(after.subnet, after.ips, after.excludeIPs) && StraightSpec(after)
    ensures IPInUseValid(records, after) && exists ip :: ip in records && !SpecOffers(after, ip)
  {
    hide Pow2;
    var base, a := Block(V6, 0, 64), MAPPED + P24 + 1;
    before := Spec(base, [Span(MAPPED - 1, MAPPED + P32)], []);
    after := Spec(base, [Span(P24, P24 + 1)], []);
    records := map[a := Record("ns/pod", "uid")];
    SizeOf64(0);
    assert Normals(before.ips)[0].Has(a) && Disjoint(Normals(before.ips)) && Disjoint(Normals(after.ips));
    StrayListing(a);
    assert SpecOffers(before, a) && !SpecOffers(after, a) && a in records;
  }

  lemma StrayListing(a: nat)
    requires a == MAPPED + P24 + 1
    ensures AssembleTotalIPs(V6, [Span(P24, P24 + 1)], []).Returns? && a in AssembleTotalIPs(V6, [Span(P24, P24 + 1)], []).value
  {
    var rs := [Span(P24, P24 + 1)];
    assert rs[..0] == [];
    assert ParseAll(V6, rs) == Append(Returns([]), ListRange(V6, rs[0]));
    var all := ParseAll(V6, rs).value;
    assert all[1] == a;
    DiffMembers(all, Elems([]), a);
  }

  lemma ListedOrdered(fam: Family, rs: seq<IPRange>)
    requires ParseAll(fam, rs).Returns?
    ensures AllOrdered(rs)
  {
    ParseReturns(fam, rs);
  }

  lemma EffectKeepsPool(cfg: Config, s: State, agent: Agent)
    requires Inv(cfg, s) && Current(s, agent) && Disciplined(s, Commit(agent))
    requires EffectOf(cfg, s.pools, s.attempts[agent]).Put?
    ensures PoolOk(cfg, EffectOf(cfg, s.pools, s.attempts[agent]).pool)
  {
    hide PoolOk, PoolsApart;
    var att := s.attempts[agent];
    assert PoolOk(cfg, att.snap);
    match att.op
    case Allocate(_, _, _) => AllocateKeepsPool(cfg, s.pools, att);
    case Release(_) => ReleaseKeepsPool(cfg, s.pools, att);
    case Refresh(_, _) =>
      var uid :| AllUid(att.op.req, uid) && RefreshSafe(att.snap.records, att.op.req, uid);
      RefreshKeepsPool(cfg, s.pools, att, uid);
    case UpdateSpec(_) => UpdateKeepsPool(cfg, s.pools, att);
    case SyncStatus => SyncKeepsPool(cfg, s.pools, att);
    case RemovePool =>
  }

  lemma SyncKeepsPool(cfg: Config, pools: map<Name, Pool>, att: Attempt)
    requires att.op.SyncStatus? && PoolOk(cfg, att.snap) && EffectOf(cfg, pools, att).Put?
    ensures PoolOk(cfg, EffectOf(cfg, pools, att).pool)
  {
    hide Offers, Accepts, UniqueUids, StraightSpec;
  }

  // ----- Admission keeps the pools apart -----

  /** Validated ranges of one subnet are apart by the range check; different subnets by the block check. */
  lemma AdmittedApart(p: Spec, q: Spec)
    requires ValidBlock(p.subnet) && ValidBlock(q.subnet) && p.subnet.fam == q.subnet.fam
    requires Accepts(p.subnet, p.ips, p.excludeIPs) && Accepts(q.subnet, q.ips, q.excludeIPs)
    requires if p.subnet == q.subnet then !RangesOverlap(p, q) else !IsCIDROverlap(p.subnet, q.subnet)
    ensures SpecsApart(p, q) && SpecsApart(q, p)
  {
    hide Offers, Accepts, In, InBlock, Contains, ValidBlock, IsCIDROverlap;
    AvailableMeaning(p.ips, p.excludeIPs);
    AvailableMeaning(q.ips, q.excludeIPs);
    NestedOrDisjoint(p.subnet, q.subnet);
    NestedOrDisjoint(q.subnet, p.subnet);
    forall a | SpecOffers(p, a) ensures !SpecOffers(q, a) {
      if SpecOffers(q, a) {
        OffersInsideBase(p.subnet, p.ips, p.excludeIPs, a);
        OffersInsideBase(q.subnet, q.ips, q.excludeIPs, a);
      }
    }
  }

  lemma AdmissionKeepsApart(cfg: Config, s: State, name: Name, p: Pool)
    requires Inv(cfg, s) && ValidBlock(p.spec.subnet) && AvailableIPsValid(s.pools, name, p.spec)
    requires name in s.pools ==> p.spec.subnet == s.pools[name].spec.subnet
    requires name !in s.pools ==> CIDRValid(s.pools, name, p.spec)
    ensures PoolsApart(s.pools[name := p])
  {
    hide IsCIDROverlap, Accepts, RangesOverlap, ValidBlock, Offers;
    var pools := s.pools[name := p];
    forall n | n in s.pools && n != name ensures SpecsApart(p.spec, s.pools[n].spec) && SpecsApart(s.pools[n].spec, p.spec) {
      if p.spec.subnet.fam == s.pools[n].spec.subnet.fam {
        assert name in s.pools ==> SpecsApart(s.pools[name].spec, s.pools[n].spec);
        assert PoolOk(cfg, s.pools[n]);
        AdmittedApart(p.spec, s.pools[n].spec);
      }
    }
  }

  lemma SameSpecApart(s: State, name: Name, p: Pool)
    requires PoolsApart(s.pools) && name in s.pools && p.spec == s.pools[name].spec
    ensures PoolsApart(s.pools[name := p])
  {
  }

  // ----- Every step keeps the invariant -----

  lemma StoreKeepsInv(cfg: Config, s: State, name: Name, p: Pool)
    requires Inv(cfg, s) && PoolOk(cfg, p) && PoolsApart(s.pools[name := p])
    ensures Inv(cfg, Store(s, name, p))
  {
    hide PoolOk, SpecsApart;
    var stored := p.(ver := s.clock + 1);
    StoredOk(cfg, p, stored);
    var s' := Store(s, name, p);
    if s' != s {
      forall m, n | m in s'.pools && n in s'.pools && m != n ensures SpecsApart(s'.pools[m].spec, s'.pools[n].spec) {
        assert SpecsApart(s.pools[name := p][m].spec, s.pools[name := p][n].spec);
      }
    }
  }

  lemma StoredOk(cfg: Config, p: Pool, q: Pool)
    requires PoolOk(cfg, p) && q == p.(ver := q.ver)
    ensures PoolOk(cfg, q)
  {
  }

  lemma CommitKeepsInv(cfg: Config, s: State, agent: Agent)
    requires Inv(cfg, s) && Current(s, agent) && Disciplined(s, Commit(agent))
    ensures Inv(cfg, Apply(cfg, s, Commit(agent)))
  {
    hide PoolOk, SpecsApart, Disciplined, AvailableIPsValid, EffectOf;
    var att := s.attempts[agent];
    if EffectOf(cfg, s.pools, att).Put? {
      var p := EffectOf(cfg, s.pools, att).pool;
      EffectKeepsPool(cfg, s, agent);
      EffectOnSpec(cfg, s.pools, att);
      if att.op.UpdateSpec? {
        BlockOfPoolOk(cfg, p);
        AdmissionKeepsApart(cfg, s, att.name, p);
      } else {
        SameSpecApart(s, att.name, p);
      }
      StoreKeepsInv(cfg, s, att.name, p);
    }
  }

  lemma EffectOnSpec(cfg: Config, pools: map<Name, Pool>, att: Attempt)
    requires EffectOf(cfg, pools, att).Put?
    ensures var p := EffectOf(cfg, pools, att).pool;
      && p.spec.subnet == att.snap.spec.subnet
      && if att.op.UpdateSpec? then AvailableIPsValid(pools, att.name, p.spec) else p.spec == att.snap.spec
  {
    hide AvailableIPsValid, IPInUseValid, RefreshRecords, ReleaseRecords, FreshAddress;
  }

  lemma BlockOfPoolOk(cfg: Config, p: Pool)
    requires PoolOk(cfg, p)
    ensures ValidBlock(p.spec.subnet)
  {
  }

  lemma CreateKeepsInv(cfg: Config, s: State, name: Name, spec: Spec)
    requires Inv(cfg, s) && AdmitsCreate(s.pools, name, spec) && StraightSpec(spec)
    ensures Inv(cfg, Store(s, name, Pool(spec, map[], None, 0)))
  {
    hide Inv, PoolsApart, Accepts, ValidBlock, IsCIDROverlap, RangesOverlap, StraightSpec;
    var p := Pool(spec, map[], None, 0);
    assert PoolOk(cfg, p);
    AdmissionKeepsApart(cfg, s, name, p);
    StoreKeepsInv(cfg, s, name, p);
  }

  lemma StepKeepsInv(cfg: Config, s: State, step: Step)
    requires Inv(cfg, s) && Disciplined(s, step)
    ensures Inv(cfg, Apply(cfg, s, step))
  {
    hide PoolOk, SpecsApart, EffectOf, SafeRefresh, StraightSpec, AdmitsCreate;
    match step
    case Read(_, _, _) =>
    case Commit(agent) => if Current(s, agent) { CommitKeepsInv(cfg, s, agent); }
    case Create(name, spec) => if AdmitsCreate(s.pools, name, spec) { CreateKeepsInv(cfg, s, name, spec); }
  }

  /** In every reachable state: records lie in the spec, the count is exact and bounded, a UID has at
      most one record per pool, and no address is offered by two pools. */
  lemma {:induction false} RunInvariant(cfg: Config, states: seq<State>, steps: seq<Step>, i: nat)
    requires IsRun(cfg, states, steps) && i < |states|
    ensures Inv(cfg, states[i])
  {
    hide Apply, Disciplined;
    if i > 0 {
      RunInvariant(cfg, states, steps, i - 1);
      StepKeepsInv(cfg, states[i - 1], steps[i - 1]);
    }
  }
}
