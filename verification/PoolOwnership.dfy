/** Who holds an address over a whole run of the pool protocol. */
module PoolOwnership {
  import opened Wrappers
  import opened Address
  import opened Ranges
  import opened Blocks
  import opened Cidr
  import opened FreeSearch
  import opened PoolRecords
  import opened PoolProtocol
  import opened PoolEffects

  /** Some pool of the family records the address like this. */
  ghost predicate Holds(s: State, fam: Family, ip: nat, r: Record) {
    exists n :: HoldsIn(s, fam, ip, r, n)
  }

  ghost predicate HoldsIn(s: State, fam: Family, ip: nat, r: Record, n: Name) {
    n in s.pools && s.pools[n].spec.subnet.fam == fam && ip in s.pools[n].records && s.pools[n].records[ip] == r
  }

  /** No address is recorded in two pools, nor for two pods. */
  lemma HolderUnique(cfg: Config, s: State, fam: Family, ip: nat, r1: Record, n1: Name, r2: Record, n2: Name)
    requires Inv(cfg, s) && HoldsIn(s, fam, ip, r1, n1) && HoldsIn(s, fam, ip, r2, n2)
    ensures n1 == n2 && r1 == r2
  {
    hide Offers, Accepts;
    assert PoolOk(cfg, s.pools[n1]) && PoolOk(cfg, s.pools[n2]);
    assert n1 != n2 ==> SpecsApart(s.pools[n1].spec, s.pools[n2].spec);
  }

  // ----- What can end or change a record -----

  /** The step commits a release that names the address together with the UID it is recorded for. */
  ghost predicate Releases(s: State, step: Step, n: Name, ip: nat) {
    && step.Commit? && Current(s, step.agent) && s.attempts[step.agent].name == n && s.attempts[step.agent].op.Release?
    && ip in s.pools[n].records && IPAndUID(ip, s.pools[n].records[ip].uid) in s.attempts[step.agent].op.req
  }

  /** The step commits a refresh, for the workload the address is recorded for, that names the address. */
  ghost predicate Refreshes(s: State, step: Step, n: Name, ip: nat) {
    && step.Commit? && Current(s, step.agent) && s.attempts[step.agent].name == n && s.attempts[step.agent].op.Refresh?
    && ip in s.pools[n].records && Names(s.attempts[step.agent].op.req, ip)
    && s.attempts[step.agent].op.nsName == s.pools[n].records[ip].nsName
  }

  /** A record ends exactly with a release carrying its own UID: whatever its snapshot was, no other release,
      allocation, spec update or removal touches it, and a refresh keeps its workload. */
  lemma RecordStep(cfg: Config, s: State, step: Step, n: Name, ip: nat)
    requires Inv(cfg, s) && n in s.pools && ip in s.pools[n].records
    ensures var s' := Apply(cfg, s, step);
      && n in s'.pools && s'.pools[n].spec.subnet == s.pools[n].spec.subnet
      && (ip in s'.pools[n].records <==> !Releases(s, step, n, ip))
      && (ip in s'.pools[n].records ==>
            && s'.pools[n].records[ip].nsName == s.pools[n].records[ip].nsName
            && (!Refreshes(s, step, n, ip) ==> s'.pools[n].records[ip] == s.pools[n].records[ip]))
  {
    hide Apply, Inv, AdmitsUpdate, AdmitsCreate, FreshAddress, NamesLast;
    match step
    case Read(agent, m, op) => OtherSteps(cfg, s, agent, m, op, s.pools[n].spec);
    case Create(m, spec) =>
      OtherSteps(cfg, s, 0, m, SyncStatus, spec);
      CreateIsNew(s.pools, m, spec);
    case Commit(agent) =>
      OtherSteps(cfg, s, agent, n, SyncStatus, s.pools[n].spec);
      if Current(s, agent) {
        var att := s.attempts[agent];
        match att.op
        case Allocate(_, _, _) => CommittedAllocation(cfg, s, agent);
        case Release(_) => CommittedRelease(cfg, s, agent);
        case Refresh(_, _) => CommittedRefresh(cfg, s, agent);
        case UpdateSpec(spec) =>
          CommittedRest(cfg, s, agent);
          UpdateKeepsSubnet(s.pools, att.name, s.pools[att.name], spec);
        case _ => CommittedRest(cfg, s, agent);
      }
  }

  lemma UpdateKeepsSubnet(pools: map<Name, Pool>, n: Name, p: Pool, spec: Spec)
    ensures AdmitsUpdate(pools, n, p, spec) ==> spec.subnet == p.spec.subnet
  {
  }

  lemma CreateIsNew(pools: map<Name, Pool>, n: Name, spec: Spec)
    ensures AdmitsCreate(pools, n, spec) ==> n !in pools
  {
  }

  /** And such a release frees the address: afterwards nobody holds it, in no pool of its family. */
  lemma ReleaseFrees(cfg: Config, s: State, step: Step, n: Name, ip: nat)
    requires Inv(cfg, s) && n in s.pools && Releases(s, step, n, ip)
    ensures forall r :: !Holds(Apply(cfg, s, step), s.pools[n].spec.subnet.fam, ip, r)
  {
    hide Apply, Inv, Released;
    var fam, s' := s.pools[n].spec.subnet.fam, Apply(cfg, s, step);
    CommittedRelease(cfg, s, step.agent);
    RecordStep(cfg, s, step, n, ip);
    forall r, m ensures !HoldsIn(s', fam, ip, r, m) {
      if m != n && HoldsIn(s', fam, ip, r, m) {
        assert HoldsIn(s, fam, ip, r, m) && HoldsIn(s, fam, ip, s.pools[n].records[ip], n);
        HolderUnique(cfg, s, fam, ip, r, m, s.pools[n].records[ip], n);
      }
    }
  }

  // ----- Over runs -----

  ghost predicate ReleasedAt(states: seq<State>, steps: seq<Step>, fam: Family, ip: nat, k: nat) {
    k < |steps| && k < |states| && exists n :: n in states[k].pools && states[k].pools[n].spec.subnet.fam == fam && Releases(states[k], steps[k], n, ip)
  }

  ghost predicate RefreshedAt(states: seq<State>, steps: seq<Step>, fam: Family, ip: nat, k: nat) {
    k < |steps| && k < |states| && exists n :: n in states[k].pools && states[k].pools[n].spec.subnet.fam == fam && Refreshes(states[k], steps[k], n, ip)
  }

  /** Without a release by its holder an address stays with its workload and pool, and without a refresh its UID. */
  lemma {:induction false} KeptUntilReleased(cfg: Config, states: seq<State>, steps: seq<Step>, fam: Family, ip: nat,
                                             r: Record, n: Name, i: nat, j: nat)
    returns (r': Record)
    requires IsRun(cfg, states, steps) && i <= j < |states| && HoldsIn(states[i], fam, ip, r, n)
    requires forall k :: i <= k < j ==> !ReleasedAt(states, steps, fam, ip, k)
    ensures HoldsIn(states[j], fam, ip, r', n) && r'.nsName == r.nsName
    ensures (forall k :: i <= k < j ==> !RefreshedAt(states, steps, fam, ip, k)) ==> r' == r
    decreases j
  {
    hide IsRun, ReleasedAt, RefreshedAt, HoldsIn;
    if i == j {
      r' := r;
    } else {
      var mid := KeptUntilReleased(cfg, states, steps, fam, ip, r, n, i, j - 1);
      RunLength(cfg, states, steps);
      r' := HoldStep(cfg, states, steps, fam, ip, mid, n, j - 1);
    }
  }

  lemma RunLength(cfg: Config, states: seq<State>, steps: seq<Step>)
    requires IsRun(cfg, states, steps)
    ensures |states| == |steps| + 1
  {
  }

  lemma HoldStep(cfg: Config, states: seq<State>, steps: seq<Step>, fam: Family, ip: nat, r: Record, n: Name, k: nat)
    returns (r': Record)
    requires IsRun(cfg, states, steps) && k < |steps| && HoldsIn(states[k], fam, ip, r, n)
    requires !ReleasedAt(states, steps, fam, ip, k)
    ensures HoldsIn(states[k + 1], fam, ip, r', n) && r'.nsName == r.nsName
    ensures !RefreshedAt(states, steps, fam, ip, k) ==> r' == r
  {
    hide Apply, Disciplined, Releases, Refreshes, Inv;
    RunInvariant(cfg, states, steps, k);
    RecordStep(cfg, states[k], steps[k], n, ip);
    r' := states[k + 1].pools[n].records[ip];
  }

  /** Ownership is linear: between two recordings of one address for different workloads, in whichever
      pools, a release carrying the UID of the holder at that moment was committed; and between two
      recordings under different UIDs such a release or a refresh of the holder's own workload. */
  lemma LinearOwnership(cfg: Config, states: seq<State>, steps: seq<Step>, fam: Family, ip: nat, r1: Record, r2: Record, i: nat, j: nat)
    requires IsRun(cfg, states, steps) && i <= j < |states|
    requires Holds(states[i], fam, ip, r1) && Holds(states[j], fam, ip, r2)
    ensures r1.nsName != r2.nsName ==> exists k :: i <= k < j && ReleasedAt(states, steps, fam, ip, k)
    ensures r1 != r2 ==> exists k :: i <= k < j && (ReleasedAt(states, steps, fam, ip, k) || RefreshedAt(states, steps, fam, ip, k))
  {
    hide IsRun, ReleasedAt, RefreshedAt, HoldsIn;
    var n1 :| HoldsIn(states[i], fam, ip, r1, n1);
    var n2 :| HoldsIn(states[j], fam, ip, r2, n2);
    if forall k :: i <= k < j ==> !ReleasedAt(states, steps, fam, ip, k) {
      var kept := KeptUntilReleased(cfg, states, steps, fam, ip, r1, n1, i, j);
      RunInvariant(cfg, states, steps, j);
      HolderUnique(cfg, states[j], fam, ip, kept, n1, r2, n2);
    }
  }

  /** A release request built from any earlier view that names another UID leaves the record as it is. */
  lemma StaleReleaseHarmless(cfg: Config, s: State, agent: Agent, n: Name, ip: nat)
    requires Inv(cfg, s) && Current(s, agent) && s.attempts[agent].op.Release?
    requires n in s.pools && ip in s.pools[n].records
    requires forall iu | iu in s.attempts[agent].op.req && iu.ip == ip :: iu.uid != s.pools[n].records[ip].uid
    ensures var s' := Apply(cfg, s, Commit(agent));
      n in s'.pools && ip in s'.pools[n].records && s'.pools[n].records[ip] == s.pools[n].records[ip]
  {
    RecordStep(cfg, s, Commit(agent), n, ip);
  }

  // ----- Allocating again -----

  /** The commit of an allocation succeeds and answers this address. */
  ghost predicate Allocates(cfg: Config, s: State, agent: Agent, n: Name, uid: string, ip: nat) {
    && Current(s, agent) && s.attempts[agent].name == n && s.attempts[agent].op.Allocate? && s.attempts[agent].op.uid == uid
    && var p := s.pools[n];
       if UidRecorded(p.records, uid) then ip in p.records && p.records[ip].uid == uid
       else FreshAddress(p.spec, p.records, s.attempts[agent].op.reserved, cfg.max) == Ok(ip)
  }

  lemma AllocateRecords(cfg: Config, s: State, agent: Agent, n: Name, uid: string, ip: nat)
    requires Inv(cfg, s) && Allocates(cfg, s, agent, n, uid, ip)
    ensures var s' := Apply(cfg, s, Commit(agent));
      && n in s'.pools && s'.pools[n].spec == s.pools[n].spec
      && ip in s'.pools[n].records && s'.pools[n].records[ip].uid == uid
  {
    hide PoolOk, PoolsApart, FreshAddress;
    assert s.attempts[agent].snap == s.pools[n];
  }

  /** Some address the search walks through is offered by the pool and free. */
  ghost predicate AddressLeft(p: Pool, reserved: set<nat>) {
    exists a :: Searched(p.spec.subnet.fam, p.spec.ips, a) && !Denotes(p.spec.excludeIPs, a) && a !in reserved && a !in p.records
  }

  /** An allocation nobody interferes with leaves its UID recorded exactly when it was before, or the reserved
      ranges are listed, the excludes are in order, listed and not too many, the limit is not reached and an
      address is left. It panics, or never returns, exactly when a reserved range does so first or, for a UID
      without a record, an exclude. */
  lemma UndisturbedAllocation(cfg: Config, s: State, agent: Agent, n: Name, nsName: string, uid: string, reserved: seq<IPRange>)
    requires Inv(cfg, s) && n in s.pools
    ensures var p := s.pools[n]; var fam := p.spec.subnet.fam; var listed := ParseAll(fam, reserved);
      var s' := Apply(cfg, Apply(cfg, s, Read(agent, n, Allocate(nsName, uid, reserved))), Commit(agent));
      && n in s'.pools
      && (UidRecorded(s'.pools[n].records, uid) <==>
            UidRecorded(p.records, uid) ||
            (listed.Returns? && Regular(fam, p.spec.excludeIPs) && |p.records| < cfg.max && AddressLeft(p, Elems(listed.value))))
      && (forall o :: o == Panics || o == NeverReturns ==>
            (AllocationStops(p.spec, p.records, uid, reserved, o) <==>
               StopsWith(fam, reserved, o) ||
               (listed.Returns? && !UidRecorded(p.records, uid) && StopsWith(fam, p.spec.excludeIPs, o))))
  {
    hide PoolOk, PoolsApart, FreshAddress, Listed, ParseAll, Regular, StopsWith, AddressLeft, HasFree;
    var p := s.pools[n];
    StraightOfPoolOk(cfg, p);
    ParseOutcome(p.spec.subnet.fam, reserved);
    FreshAddressMeaning(p.spec, p.records, reserved, cfg.max);
    FreshAddressOffered(p.spec, p.records, reserved, cfg.max);
    LeftMeansFree(p, reserved);
    var r := FreshAddress(p.spec, p.records, reserved, cfg.max);
    if r.Ok? && !UidRecorded(p.records, uid) {
      assert p.records[r.value := Record(nsName, uid)][r.value].uid == uid;
    }
  }

  lemma StraightOfPoolOk(cfg: Config, p: Pool)
    requires PoolOk(cfg, p)
    ensures Straight(p.spec.subnet.fam, p.spec.excludeIPs)
  {
  }

  lemma LeftMeansFree(p: Pool, reserved: seq<IPRange>)
    requires Straight(p.spec.subnet.fam, p.spec.excludeIPs)
    ensures Listed(p.spec, reserved).Returns? ==>
      (HasFree(p.spec, Listed(p.spec, reserved).value, p.records) <==> AddressLeft(p, Elems(ReservedIPs(p.spec, reserved).value)))
  {
    hide Straight, Regular, ParseAll, Flatten, Searched;
    StraightRegular(p.spec.subnet.fam, p.spec.excludeIPs);
    forall a: nat ensures a in Flatten(p.spec.excludeIPs) <==> Denotes(p.spec.excludeIPs, a) {
      FlattenMembers(p.spec.excludeIPs, a);
    }
  }

  /** A pool that excludes fd12:3456:789a:baba::1-fd12:3456:789a:baba:ffff:ffff:ffff:ffff is admitted, and every
      allocation from it for a UID without a record panics. */
  lemma HugeExcludePanics(n: Name, records: Records, uid: string, reserved: seq<IPRange>)
    requires !UidRecorded(records, uid) && ParseAll(V6, reserved).Returns?
    ensures AdmitsCreate(map[], n, HugeSpec()) && StraightSpec(HugeSpec())
    ensures AllocationStops(HugeSpec(), records, uid, reserved, Panics)
  {
    hide ParseAll;
    HugeRangePanics();
    HugeSpecAdmitted(n);
  }

  /** The pool fd12:3456:789a:baba::/64 that offers its first address only. */
  function HugeSpec(): Spec {
    var base := 0xFD12_3456_789A_BABA_0000_0000_0000_0000;
    Spec(Block(V6, base, 64), [One(base)], [Span(base + 1, base + 0xFFFF_FFFF_FFFF_FFFF)])
  }

  lemma HugeSpecAdmitted(n: Name)
    ensures AdmitsCreate(map[], n, HugeSpec()) && StraightSpec(HugeSpec())
  {
    hide Pow2;
    SizeOf64(HugeSpec().subnet.base);
    assert Disjoint(Normals(HugeSpec().ips));
  }

  // ----- An exclude that strays -----

  /** The pool 0:...:0100:0000/120 with two addresses, both excluded by one range. */
  function StraySpec(): Spec {
    Spec(Block(V6, P24, 120), [Span(P24, P24 + 1)], [Span(P24, P24 + 1)])
  }

  lemma StraySpecAdmitted(n: Name)
    ensures AdmitsCreate(map[], n, StraySpec())
  {
    assert Pow2(8) == 2 * Pow2(7) == 4 * Pow2(6) == 8 * Pow2(5) == 16 * Pow2(4) == 32 * Pow2(3) == 64 * Pow2(2);
    assert Size(Block(V6, P24, 120)) == 256;
    var rs := [Span(P24, P24 + 1)];
    assert Inside(StraySpec().subnet, rs);
    assert Disjoint(Normals(rs));
  }

  /** Created, read and allocated from, it hands out its second address, which it excludes: the exclude is
      listed as its first address and a v4 one. */
  lemma StrayExcludeLeaks(cfg: Config, agent: Agent, n: Name, nsName: string, uid: string) returns (s: State)
    requires cfg.max > 0
    ensures s == Apply(cfg, Apply(cfg, Apply(cfg, EMPTY, Create(n, StraySpec())), Read(agent, n, Allocate(nsName, uid, []))), Commit(agent))
    ensures n in s.pools && s.pools[n].spec == StraySpec() && P24 + 1 in s.pools[n].records && !SpecOffers(StraySpec(), P24 + 1)
  {
    hide AdmitsCreate, FreshAddress, Excluded;
    StraySpecAdmitted(n);
    var s1 := Apply(cfg, EMPTY, Create(n, StraySpec()));
    var s2 := Apply(cfg, s1, Read(agent, n, Allocate(nsName, uid, [])));
    s := Apply(cfg, s2, Commit(agent));
    StrayFresh(cfg.max);
    NotOfferedWhenExcluded(StraySpec(), P24 + 1) by { assert StraySpec().excludeIPs[0].Has(P24 + 1); }
  }

  lemma StrayFresh(max: nat)
    requires max > 0
    ensures FreshAddress(StraySpec(), map[], [], max) == Ok(P24 + 1)
  {
    hide FreshAddress;
    var spec := StraySpec();
    FreshAddressMeaning(spec, map[], [], max);
    NothingReserved(spec);
    var listed := SpanList(V6, P24, P24 + 1);
    assert spec.excludeIPs[..0] == [];
    assert Excluded(spec) == Append(Returns([]), Returns(listed)) && [] + listed == listed;
    assert listed == [P24, MAPPED + P24 + 1];
    assert spec.ips[0].Has(P24 + 1) && !WholeSpace(V6, spec.ips[0]);
    assert Searched(V6, spec.ips, P24 + 1);
  }

  /** Allocating twice from one pool for one UID answers the same address, as long as in between the
      address was not released by that UID and not refreshed. */
  lemma RepeatedAllocation(cfg: Config, states: seq<State>, steps: seq<Step>, n: Name, uid: string,
                           g1: Agent, ip1: nat, i: nat, g2: Agent, ip2: nat, j: nat)
    requires IsRun(cfg, states, steps) && i < j < |steps| && steps[i] == Commit(g1) && steps[j] == Commit(g2)
    requires Allocates(cfg, states[i], g1, n, uid, ip1) && Allocates(cfg, states[j], g2, n, uid, ip2)
    requires var fam := states[i].pools[n].spec.subnet.fam;
      forall k :: i < k < j ==> !ReleasedAt(states, steps, fam, ip1, k) && !RefreshedAt(states, steps, fam, ip1, k)
    ensures ip1 == ip2
  {
    hide Apply, Disciplined, ReleasedAt, RefreshedAt;
    var fam := states[i].pools[n].spec.subnet.fam;
    RunInvariant(cfg, states, steps, i);
    AllocateRecords(cfg, states[i], g1, n, uid, ip1);
    var r := states[i + 1].pools[n].records[ip1];
    var kept := KeptUntilReleased(cfg, states, steps, fam, ip1, r, n, i + 1, j);
    RunInvariant(cfg, states, steps, j);
    UniqueAnswer(cfg, states[j], g2, n, uid, ip1, ip2);
  }

  lemma UniqueAnswer(cfg: Config, s: State, agent: Agent, n: Name, uid: string, ip1: nat, ip2: nat)
    requires Inv(cfg, s) && Allocates(cfg, s, agent, n, uid, ip2)
    requires ip1 in s.pools[n].records && s.pools[n].records[ip1].uid == uid
    ensures ip1 == ip2
  {
    assert PoolOk(cfg, s.pools[n]);
    assert UidRecorded(s.pools[n].records, uid);
  }
}
