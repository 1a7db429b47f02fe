/** The bodies of the retried closures of the pool manager: what one attempt computes
    from the pool object it has read. */
module PoolRecords {
  import opened Wrappers
  import opened Address
  import opened Ranges
  import opened Blocks
  import opened Cidr
  import opened FreeSearch

  datatype Record = Record(nsName: string, uid: string)

  type Records = map<nat, Record>

  datatype IPAndUID = IPAndUID(ip: nat, uid: string)

  datatype Spec = Spec(subnet: Block, ips: seq<IPRange>, excludeIPs: seq<IPRange>)

  /** `NoAnswer` stands for a call that never returns. */
  datatype AllocError = InvalidRange | IPUsedOut | Panicked | NoAnswer

  /** A pod with this UID already has a record in the pool. */
  predicate UidRecorded(records: Records, uid: string) {
    exists ip :: ip in records && records[ip].uid == uid
  }

  predicate UniqueUids(records: Records) {
    forall a, b :: a in records && b in records && records[a].uid == records[b].uid ==> a == b
  }

  /** What parsing the excludes comes to. */
  function Excluded(spec: Spec): Outcome<seq<nat>> {
    ParseAll(spec.subnet.fam, spec.excludeIPs)
  }

  /** `AssembleReservedIPs`: what parsing the reserved ranges of the pool's version comes to. */
  function ReservedIPs(spec: Spec, reserved: seq<IPRange>): Outcome<seq<nat>> {
    ParseAll(spec.subnet.fam, reserved)
  }

  /** The lists an allocation reads, the reserved one first, put together. */
  function Listed(spec: Spec, reserved: seq<IPRange>): Outcome<seq<nat>> {
    var reservedIPs := ReservedIPs(spec, reserved);
    if !reservedIPs.Returns? then reservedIPs
    else
      var excluded := Excluded(spec);
      if !excluded.Returns? then excluded else Returns(excluded.value + reservedIPs.value)
  }

  function ParseError(o: Outcome<seq<nat>>): AllocError {
    if o.Fails? then InvalidRange else if o.Panics? then Panicked else NoAnswer
  }

  /** Addresses an allocation must not return: listed as reserved or excluded, or recorded. */
  function Unavailable(listed: seq<nat>, records: Records): set<nat> {
    Elems(listed) + records.Keys
  }

  /** The address a pod without a record gets, or the error. */
  function FreshAddress(spec: Spec, records: Records, reserved: seq<IPRange>, max: nat): Result<nat, AllocError> {
    var listed := Listed(spec, reserved);
    if !listed.Returns? then Err(ParseError(listed))
    else match FirstFree(spec.subnet.fam, spec.ips, Unavailable(listed.value, records))
      case None => Err(IPUsedOut)
      case Some(ip) => if |records| + 1 > max then Err(IPUsedOut) else Ok(ip)
  }

  /** The allocation comes to this outcome while it parses the reserved ranges or, for a UID without a record,
      the excludes. */
  predicate AllocationStops(spec: Spec, records: Records, uid: string, reserved: seq<IPRange>, o: Outcome<seq<nat>>) {
    var reservedIPs := ReservedIPs(spec, reserved);
    if !reservedIPs.Returns? then reservedIPs == o else !UidRecorded(records, uid) && Excluded(spec) == o
  }

  /** Remove every record named together with its own UID. */
  function ReleaseRecords(records: Records, req: seq<IPAndUID>): Records {
    if req == [] then records
    else if req[0].ip in records && records[req[0].ip].uid == req[0].uid
    then ReleaseRecords(records - {req[0].ip}, req[1..])
    else ReleaseRecords(records, req[1..])
  }

  /** Give every named record the new UID; a record of another workload is an error. */
  function RefreshRecords(records: Records, nsName: string, req: seq<IPAndUID>): Result<Records, string> {
    if req == [] then Ok(records)
    else if req[0].ip !in records then RefreshRecords(records, nsName, req[1..])
    else if records[req[0].ip].nsName != nsName then Err("data broken")
    else RefreshRecords(records[req[0].ip := Record(nsName, req[0].uid)], nsName, req[1..])
  }

  // ----- What release and refresh mean -----

  /** Release drops exactly the records whose address and current UID are named together. */
  lemma {:induction false} ReleaseMeaning(records: Records, req: seq<IPAndUID>)
    ensures var after := ReleaseRecords(records, req);
      forall ip :: ip in after <==> ip in records && IPAndUID(ip, records[ip].uid) !in req
    ensures var after := ReleaseRecords(records, req);
      forall ip :: ip in after ==> ip in records && after[ip] == records[ip]
    decreases req
  {
    if req != [] {
      var head := req[0];
      assert req == [head] + req[1..];
      ReleaseMeaning(if head.ip in records && records[head.ip].uid == head.uid then records - {head.ip} else records, req[1..]);
    }
  }

  predicate Names(req: seq<IPAndUID>, ip: nat) {
    exists i :: 0 <= i < |req| && req[i].ip == ip
  }

  /** The last item of the request that names the address gives it this UID. */
  ghost predicate NamesLast(req: seq<IPAndUID>, ip: nat, uid: string) {
    exists i :: 0 <= i < |req| && req[i] == IPAndUID(ip, uid) && forall j :: i < j < |req| ==> req[j].ip != ip
  }

  /** The request gives a recorded address a UID it does not have yet. */
  predicate NamesOtherUid(records: Records, req: seq<IPAndUID>, iu: IPAndUID) {
    iu in req && iu.ip in records && records[iu.ip].uid != iu.uid
  }

  predicate AllUid(req: seq<IPAndUID>, uid: string) {
    forall i :: 0 <= i < |req| ==> req[i].uid == uid
  }

  /** Refresh succeeds exactly when every named record belongs to the workload; it keeps the
      addresses and the workload of every record, leaves unnamed records alone, and gives a named one the
      UID it is named with last. */
  lemma {:induction false} RefreshMeaning(records: Records, nsName: string, req: seq<IPAndUID>)
    ensures RefreshRecords(records, nsName, req).Ok? <==>
      forall ip :: ip in records && Names(req, ip) ==> records[ip].nsName == nsName
    ensures RefreshRecords(records, nsName, req).Ok? ==>
      var after := RefreshRecords(records, nsName, req).value;
      && after.Keys == records.Keys
      && (forall ip :: ip in records ==> after[ip].nsName == records[ip].nsName)
      && (forall ip :: ip in records && !Names(req, ip) ==> after[ip] == records[ip])
      && (forall ip :: ip in records && Names(req, ip) ==> NamesLast(req, ip, after[ip].uid))
    decreases req
  {
    hide NamesLast;
    if req != [] {
      var head, tail := req[0], req[1..];
      assert req == [head] + tail;
      forall ip, uid ensures NamesLast(tail, ip, uid) ==> NamesLast(req, ip, uid) {
        LastInTail(req, ip, uid);
      }
      if !Names(tail, head.ip) { LastIsHead(req); }
      assert forall ip :: Names(req, ip) <==> ip == head.ip || Names(tail, ip) by {
        forall ip ensures Names(req, ip) <==> ip == head.ip || Names(tail, ip) {
          if i :| 0 <= i < |tail| && tail[i].ip == ip { assert req[i + 1].ip == ip; }
          if i :| 0 < i < |req| && req[i].ip == ip { assert tail[i - 1].ip == ip; }
        }
      }
      if head.ip in records && records[head.ip].nsName == nsName {
        RefreshMeaning(records[head.ip := Record(nsName, head.uid)], nsName, tail);
      } else {
        RefreshMeaning(records, nsName, tail);
      }
    }
  }

  lemma LastInTail(req: seq<IPAndUID>, ip: nat, uid: string)
    requires req != []
    ensures NamesLast(req[1..], ip, uid) ==> NamesLast(req, ip, uid) && IPAndUID(ip, uid) in req
  {
    if NamesLast(req[1..], ip, uid) {
      var i :| 0 <= i < |req[1..]| && req[1..][i] == IPAndUID(ip, uid) && forall j :: i < j < |req[1..]| ==> req[1..][j].ip != ip;
      assert req[i + 1] == IPAndUID(ip, uid);
      assert forall j :: i + 1 < j < |req| ==> req[j] == req[1..][j - 1];
    }
  }

  lemma LastIsHead(req: seq<IPAndUID>)
    requires req != [] && !Names(req[1..], req[0].ip)
    ensures NamesLast(req, req[0].ip, req[0].uid)
  {
    assert req[0] == IPAndUID(req[0].ip, req[0].uid);
    assert forall j :: 0 < j < |req| ==> req[j] == req[1..][j - 1];
  }

  lemma LastIsNamed(req: seq<IPAndUID>, ip: nat, uid: string)
    ensures NamesLast(req, ip, uid) ==> IPAndUID(ip, uid) in req && Names(req, ip)
  {
  }

  /** At most one record of the pool is named or already carries the UID. */
  predicate RefreshSafe(records: Records, req: seq<IPAndUID>, uid: string) {
    forall a, b | a in records && b in records && Touched(records, req, uid, a) && Touched(records, req, uid, b) :: a == b
  }

  /** The record will carry the UID after the refresh. */
  predicate Touched(records: Records, req: seq<IPAndUID>, uid: string, ip: nat)
    requires ip in records
  {
    Names(req, ip) || records[ip].uid == uid
  }

  lemma RefreshedUid(records: Records, nsName: string, req: seq<IPAndUID>, uid: string, ip: nat)
    requires AllUid(req, uid) && RefreshRecords(records, nsName, req).Ok? && ip in records
    ensures var after := RefreshRecords(records, nsName, req).value;
      && ip in after && (after[ip].uid == uid <==> Touched(records, req, uid, ip))
      && (!Touched(records, req, uid, ip) ==> after[ip] == records[ip])
  {
  }

  /** A refresh to one UID keeps UIDs unique exactly when it is safe in this sense. */
  lemma RefreshKeepsUnique(records: Records, nsName: string, req: seq<IPAndUID>, uid: string)
    requires UniqueUids(records) && AllUid(req, uid) && RefreshRecords(records, nsName, req).Ok?
    ensures UniqueUids(RefreshRecords(records, nsName, req).value) <==> RefreshSafe(records, req, uid)
  {
    hide RefreshRecords, Touched, AllUid;
    RefreshMeaning(records, nsName, req);
    var after := RefreshRecords(records, nsName, req).value;
    if RefreshSafe(records, req, uid) {
      forall a, b | a in after && b in after && after[a].uid == after[b].uid ensures a == b {
        RefreshedUid(records, nsName, req, uid, a);
        RefreshedUid(records, nsName, req, uid, b);
      }
    } else {
      var a, b :| a in records && b in records && Touched(records, req, uid, a) && Touched(records, req, uid, b) && a != b;
      RefreshedUid(records, nsName, req, uid, a);
      RefreshedUid(records, nsName, req, uid, b);
    }
  }

  /** Two addresses of one pool refreshed to the same UID: the pod then has two records. */
  lemma RefreshCanDuplicate()
    ensures var records: Records := map[1 := Record("ns/pod", "old-a"), 2 := Record("ns/pod", "old-b")];
      var req := [IPAndUID(1, "new"), IPAndUID(2, "new")];
      var after := RefreshRecords(records, "ns/pod", req);
      UniqueUids(records) && after.Ok? && !UniqueUids(after.value)
  {
    var records: Records := map[1 := Record("ns/pod", "old-a"), 2 := Record("ns/pod", "old-b")];
    var req := [IPAndUID(1, "new"), IPAndUID(2, "new")];
    RefreshMeaning(records, "ns/pod", req);
    assert "old-a"[4] != "old-b"[4];
    assert Names(req, 1) by { assert req[0].ip == 1; }
    assert Names(req, 2) by { assert req[1].ip == 2; }
    RefreshKeepsUnique(records, "ns/pod", req, "new");
  }

  /** Some address the search walks through is neither listed as excluded nor as reserved nor recorded. */
  ghost predicate HasFree(spec: Spec, listed: seq<nat>, records: Records) {
    exists a :: Searched(spec.subnet.fam, spec.ips, a) && a !in listed && a !in records
  }

  /** A fresh address is in the pool's ranges, neither listed as excluded nor as reserved, free, and within the
      limit. One is found exactly when parsing the reserved ranges and the excludes returns, the limit is not
      reached and some address is free; the call panics or never returns exactly when that parsing does. */
  lemma FreshAddressMeaning(spec: Spec, records: Records, reserved: seq<IPRange>, max: nat)
    ensures var r := FreshAddress(spec, records, reserved, max); var listed := Listed(spec, reserved);
      && (r == Err(InvalidRange) <==> listed.Fails?) && (r == Err(Panicked) <==> listed.Panics?) && (r == Err(NoAnswer) <==> listed.NeverReturns?)
      && (listed.Returns? <==> ReservedIPs(spec, reserved).Returns? && Excluded(spec).Returns?)
      && (r.Ok? <==> listed.Returns? && |records| < max && HasFree(spec, listed.value, records))
    ensures var r := FreshAddress(spec, records, reserved, max);
      r.Ok? ==>
        && Searched(spec.subnet.fam, spec.ips, r.value) && r.value !in Excluded(spec).value
        && r.value !in records && r.value !in ReservedIPs(spec, reserved).value && |records| < max
  {
    hide FirstFree, Excluded, ReservedIPs, Searched;
    if Listed(spec, reserved).Returns? {
      FirstFreeMeaning(spec.subnet.fam, spec.ips, Unavailable(Listed(spec, reserved).value, records));
    }
  }

  /** When no exclude strays, a fresh address is one the pool offers; parsing the excludes returns exactly when
      they are in order, listed and not too many, and panics or runs for ever exactly when one of them does first. */
  lemma FreshAddressOffered(spec: Spec, records: Records, reserved: seq<IPRange>, max: nat)
    requires Straight(spec.subnet.fam, spec.excludeIPs)
    ensures var r := FreshAddress(spec, records, reserved, max);
      r.Ok? ==> Offers(spec.ips, spec.excludeIPs, r.value) && r.value !in records && |records| < max
    ensures Excluded(spec).Returns? <==> Regular(spec.subnet.fam, spec.excludeIPs)
    ensures Excluded(spec).Panics? <==> StopsWith(spec.subnet.fam, spec.excludeIPs, Panics)
    ensures Excluded(spec).NeverReturns? <==> StopsWith(spec.subnet.fam, spec.excludeIPs, NeverReturns)
  {
    hide FreshAddress, ReservedIPs, StopsWith, Regular, ParseAll, Flatten;
    FreshAddressMeaning(spec, records, reserved, max);
    StraightRegular(spec.subnet.fam, spec.excludeIPs);
    ParseOutcome(spec.subnet.fam, spec.excludeIPs);
    var r := FreshAddress(spec, records, reserved, max);
    if r.Ok? {
      FlattenMembers(spec.excludeIPs, r.value);
      SearchedIsIncluded(spec.subnet.fam, spec.ips, r.value);
    }
  }

  lemma SearchedIsIncluded(fam: Family, ips: seq<IPRange>, a: nat)
    requires Searched(fam, ips, a)
    ensures In(Normals(ips), a)
  {
    var i :| 0 <= i < |ips| && ips[i].Has(a) && !WholeSpace(fam, ips[i]);
    assert Normals(ips)[i].Has(a);
  }

  /** Every excluded address the search could come across is among those listed as excluded. */
  ghost predicate ExcludesAll(spec: Spec) {
    Excluded(spec).Returns? ==>
      forall a :: Searched(spec.subnet.fam, spec.ips, a) && Denotes(spec.excludeIPs, a) ==> a in Excluded(spec).value
  }

  ghost predicate OnlyOffered(spec: Spec) {
    forall records, reserved, max :: var r := FreshAddress(spec, records, reserved, max);
      r.Ok? ==> Offers(spec.ips, spec.excludeIPs, r.value)
  }

  /** Allocation never hands out an excluded address, whatever is recorded and reserved, exactly when the
      excludes are listed as far as the search goes; an exclude that strays is listed with its first address only. */
  lemma OnlyOfferedExactly(spec: Spec)
    ensures OnlyOffered(spec) <==> ExcludesAll(spec)
  {
    hide FreshAddress, Excluded, Searched, Offers;
    if ExcludesAll(spec) {
      forall records, reserved, max | FreshAddress(spec, records, reserved, max).Ok?
        ensures Offers(spec.ips, spec.excludeIPs, FreshAddress(spec, records, reserved, max).value)
      {
        FreshAddressMeaning(spec, records, reserved, max);
        OfferedWhenIncluded(spec, FreshAddress(spec, records, reserved, max).value);
      }
    } else {
      var a :| Searched(spec.subnet.fam, spec.ips, a) && Denotes(spec.excludeIPs, a) && a !in Excluded(spec).value;
      var records := OthersRecorded(spec, a);
      NothingReserved(spec);
      FreshAddressMeaning(spec, records, [], |records| + 1);
      assert HasFree(spec, Listed(spec, []).value, records);
      assert FreshAddress(spec, records, [], |records| + 1).value == a;
      NotOfferedWhenExcluded(spec, a);
    }
  }

  lemma OfferedWhenIncluded(spec: Spec, a: nat)
    requires Searched(spec.subnet.fam, spec.ips, a) && !Denotes(spec.excludeIPs, a)
    ensures Offers(spec.ips, spec.excludeIPs, a)
  {
    SearchedIsIncluded(spec.subnet.fam, spec.ips, a);
  }

  lemma NotOfferedWhenExcluded(spec: Spec, a: nat)
    requires Denotes(spec.excludeIPs, a)
    ensures !Offers(spec.ips, spec.excludeIPs, a)
  {
  }

  lemma NothingReserved(spec: Spec)
    ensures ReservedIPs(spec, []) == Returns([]) && (Excluded(spec).Returns? ==> Listed(spec, []) == Excluded(spec))
  {
    hide Excluded;
    assert Excluded(spec).Returns? ==> Excluded(spec).value + [] == Excluded(spec).value;
  }

  /** With everything else the search visits recorded, one address is left. */
  lemma OthersRecorded(spec: Spec, a: nat) returns (records: Records)
    ensures a !in records && forall b :: Searched(spec.subnet.fam, spec.ips, b) && b != a ==> b in records
  {
    hide Searched, AllVisited;
    var visited := AllVisited(spec.subnet.fam, Somes(spec.ips));
    records := map b | b in visited && b != a :: Record("", "");
    forall b: nat | Searched(spec.subnet.fam, spec.ips, b) && b != a ensures b in records {
      VisitedMembers(spec.subnet.fam, spec.ips, b);
    }
  }

  // ----- The pool object an attempt works on -----

  class IPPool {
    const spec: Spec
    var allocatedIPs: Records
    var allocatedIPCount: Option<int>

    constructor (spec: Spec, allocatedIPs: Records, allocatedIPCount: Option<int>)
      ensures this.spec == spec && this.allocatedIPs == allocatedIPs && this.allocatedIPCount == allocatedIPCount
    {
      this.spec, this.allocatedIPs, this.allocatedIPCount := spec, allocatedIPs, allocatedIPCount;
    }

    /** `findAllocatedIPFromRecords`: some record of this workload and UID. */
    method FindAllocatedIPFromRecords(nsName: string, uid: string) returns (previousIP: nat, hasFound: bool)
      ensures hasFound ==> previousIP in allocatedIPs && allocatedIPs[previousIP] == Record(nsName, uid)
      ensures !hasFound ==> Record(nsName, uid) !in allocatedIPs.Values
    {
      var left := allocatedIPs.Keys;
      while left != {}
        invariant left <= allocatedIPs.Keys
        invariant forall ip :: ip in allocatedIPs && ip !in left ==> allocatedIPs[ip] != Record(nsName, uid)
        decreases left
      {
        var ip :| ip in left;
        if allocatedIPs[ip].nsName == nsName && allocatedIPs[ip].uid == uid {
          return ip, true;
        }
        left := left - {ip};
      }
      return 0, false;
    }

    /** The loop over the records: stop at a record of the UID, else collect every address. */
    method CollectUsed(uid: string) returns (known: Option<nat>, used: seq<Option<nat>>)
      ensures known.Some? <==> UidRecorded(allocatedIPs, uid)
      ensures known.Some? ==> known.value in allocatedIPs && allocatedIPs[known.value].uid == uid
      ensures known.None? ==> NonNil(used) == allocatedIPs.Keys && |used| == |allocatedIPs|
    {
      hide NonNil;
      used := [];
      var left := allocatedIPs.Keys;
      EmptyNonNil();
      while left != {}
        invariant left <= allocatedIPs.Keys
        invariant forall ip :: ip in allocatedIPs && ip !in left ==> allocatedIPs[ip].uid != uid
        invariant NonNil(used) == allocatedIPs.Keys - left && |used| + |left| == |allocatedIPs|
        decreases left
      {
        var ip :| ip in left;
        if allocatedIPs[ip].uid == uid {
          return Some(ip), used;
        }
        NonNilAppend(used, ip);
        used := used + [Some(ip)];
        left := left - {ip};
      }
      return None, used;
    }

    /** `genRandomIP`: the address already recorded for the UID, with the status untouched; otherwise
        the first free address, recorded and counted. The search of the records for a previous
        address, done when nothing is free, never finds one. */
    method GenRandomIP(reserved: seq<IPRange>, nsName: string, uid: string, max: nat) returns (r: Result<nat, AllocError>)
      requires forall x | x in spec.ips :: x.Lo() < Limit(spec.subnet.fam) && x.Hi() < Limit(spec.subnet.fam)
      requires OfFamily(spec.subnet.fam, spec.excludeIPs) && OfFamily(spec.subnet.fam, reserved)
      requires !AllocationStops(spec, allocatedIPs, uid, reserved, NeverReturns)
      modifies this`allocatedIPs, this`allocatedIPCount
      ensures r == Err(Panicked) <==> AllocationStops(spec, old(allocatedIPs), uid, reserved, Panics)
      ensures UidRecorded(old(allocatedIPs), uid) ==>
        && (if ReservedIPs(spec, reserved).Returns?
            then r.Ok? && r.value in old(allocatedIPs) && old(allocatedIPs)[r.value].uid == uid
            else r == Err(ParseError(ReservedIPs(spec, reserved))))
        && allocatedIPs == old(allocatedIPs) && allocatedIPCount == old(allocatedIPCount)
      ensures !UidRecorded(old(allocatedIPs), uid) ==> r == FreshAddress(spec, old(allocatedIPs), reserved, max)
      ensures !UidRecorded(old(allocatedIPs), uid) && r.Ok? ==>
        && allocatedIPs == old(allocatedIPs)[r.value := Record(nsName, uid)]
        && allocatedIPCount == Some(|old(allocatedIPs)| + 1)
      ensures r.Err? && |old(allocatedIPs)| < max ==>
        allocatedIPs == old(allocatedIPs) && allocatedIPCount == old(allocatedIPCount)
    {
      hide Find, FirstFree, ParseAll, NonNil, Unavailable, OfFamily;
      var fam := spec.subnet.fam;
      var reservedIPs := ParseIPRanges(fam, reserved);
      if !reservedIPs.Returns? {
        return Err(ParseError(reservedIPs.Stopped()));
      }
      var known, used := CollectUsed(uid);
      if known.Some? {
        return Ok(known.value);
      }
      var unavailableIPs := ParseIPRanges(fam, spec.excludeIPs);
      if !unavailableIPs.Returns? {
        return Err(ParseError(unavailableIPs.Stopped()));
      }
      ListedBelowLimit(fam, reserved);
      ListedBelowLimit(fam, spec.excludeIPs);
      NumbersBack(fam, ReservedIPs(spec, reserved).value);
      NumbersBack(fam, Excluded(spec).value);
      var ipList := Somes(NumbersOf(fam, unavailableIPs.value)) + (Somes(NumbersOf(fam, reservedIPs.value)) + used);
      ListIsUnavailable(Excluded(spec).value, ReservedIPs(spec, reserved).value, allocatedIPs, used);
      TextsInside(spec);
      var availableIPs := FindAvailableIPs(spec.subnet.fam, Somes(spec.ips), ipList, 1);
      FindIsFirstFree(spec.subnet.fam, spec.ips, NonNil(ipList));
      if |availableIPs| == 0 {
        var previousIP, hasFound := FindAllocatedIPFromRecords(nsName, uid);
        if !hasFound {
          return Err(IPUsedOut);
        }
        assert false;
      }
      var resIP := availableIPs[0];
      allocatedIPs := allocatedIPs[resIP := Record(nsName, uid)];
      allocatedIPCount := Some(|used| + 1);
      if |used| + 1 > max {
        return Err(IPUsedOut);
      }
      return Ok(resIP);
    }

    /** The release closure: delete matching records and recount; tells whether a write is due. */
    method ReleaseIP(ipAndUIDs: seq<IPAndUID>) returns (release: bool)
      modifies this`allocatedIPs, this`allocatedIPCount
      ensures allocatedIPs == ReleaseRecords(old(allocatedIPs), ipAndUIDs)
      ensures release <==> allocatedIPs != old(allocatedIPs)
      ensures allocatedIPCount == if release then Some(|allocatedIPs|) else old(allocatedIPCount)
    {
      release := false;
      for i := 0 to |ipAndUIDs|
        invariant ReleaseRecords(allocatedIPs, ipAndUIDs[i..]) == ReleaseRecords(old(allocatedIPs), ipAndUIDs)
        invariant allocatedIPs.Keys <= old(allocatedIPs).Keys
        invariant release <==> allocatedIPs != old(allocatedIPs)
        invariant allocatedIPCount == if release then Some(|allocatedIPs|) else old(allocatedIPCount)
      {
        var iu := ipAndUIDs[i];
        assert ipAndUIDs[i..][1..] == ipAndUIDs[i + 1..];
        if iu.ip in allocatedIPs && allocatedIPs[iu.ip].uid == iu.uid {
          allocatedIPs := allocatedIPs - {iu.ip};
          allocatedIPCount := Some(|allocatedIPs|);
          release := true;
        }
      }
      assert ipAndUIDs[|ipAndUIDs|..] == [];
    }

    /** The refresh closure: rewrite the UID of the workload's own records. */
    method UpdateAllocatedIPs(nsName: string, ipAndUIDs: seq<IPAndUID>) returns (err: bool, recreate: bool)
      modifies this`allocatedIPs
      ensures err <==> RefreshRecords(old(allocatedIPs), nsName, ipAndUIDs).Err?
      ensures !err ==> allocatedIPs == RefreshRecords(old(allocatedIPs), nsName, ipAndUIDs).value
      ensures !err ==> (recreate <==> exists iu :: NamesOtherUid(old(allocatedIPs), ipAndUIDs, iu))
    {
      recreate := false;
      for i := 0 to |ipAndUIDs|
        invariant RefreshRecords(allocatedIPs, nsName, ipAndUIDs[i..]) == RefreshRecords(old(allocatedIPs), nsName, ipAndUIDs)
        invariant recreate ==> exists iu :: NamesOtherUid(old(allocatedIPs), ipAndUIDs, iu)
        invariant !recreate ==> allocatedIPs == old(allocatedIPs)
        invariant !recreate ==> forall k :: 0 <= k < i ==> !NamesOtherUid(old(allocatedIPs), ipAndUIDs, ipAndUIDs[k])
      {
        var iu := ipAndUIDs[i];
        assert ipAndUIDs[i..][1..] == ipAndUIDs[i + 1..];
        if iu.ip in allocatedIPs {
          var record := allocatedIPs[iu.ip];
          if record.nsName != nsName {
            return true, recreate;
          }
          if record.uid != iu.uid {
            assert !recreate ==> NamesOtherUid(old(allocatedIPs), ipAndUIDs, iu);
            allocatedIPs := allocatedIPs[iu.ip := record.(uid := iu.uid)];
            recreate := true;
          } else {
            assert allocatedIPs[iu.ip := Record(nsName, iu.uid)] == allocatedIPs;
          }
        }
      }
      assert ipAndUIDs[|ipAndUIDs|..] == [];
      return false, recreate;
    }
  }

  lemma NonNilAppend(xs: seq<Option<nat>>, ip: nat)
    ensures NonNil(xs + [Some(ip)]) == NonNil(xs) + {ip}
  {
  }

  lemma EmptyNonNil()
    ensures NonNil([]) == {}
  {
  }

  function NumbersOf(fam: Family, ips: seq<seq<Byte>>): (r: seq<nat>)
    ensures |r| == |ips| && forall i :: 0 <= i < |ips| ==> r[i] == NumberOf(fam, ips[i])
  {
    seq(|ips|, i requires 0 <= i < |ips| => NumberOf(fam, ips[i]))
  }

  lemma NumbersBack(fam: Family, xs: seq<nat>)
    requires forall a | a in xs :: a < Limit(fam)
    ensures NumbersOf(fam, Embeds(fam, xs)) == xs
  {
    hide Embed, NumberOf;
    forall i | 0 <= i < |xs| ensures NumberOf(fam, Embed(fam, xs[i])) == xs[i] {
      assert xs[i] in xs;
      NumberRoundTrip(fam, xs[i]);
    }
  }

  lemma ListIsUnavailable(excluded: seq<nat>, reserved: seq<nat>, records: Records, used: seq<Option<nat>>)
    requires NonNil(used) == records.Keys
    ensures NonNil(Somes(excluded) + (Somes(reserved) + used)) == Unavailable(excluded + reserved, records)
  {
  }

  lemma TextsInside(spec: Spec)
    requires forall x | x in spec.ips :: x.Lo() < Limit(spec.subnet.fam) && x.Hi() < Limit(spec.subnet.fam)
    ensures forall t | t in Somes(spec.ips) && t.Some? ::
      t.value.Lo() < Limit(spec.subnet.fam) && t.value.Hi() < Limit(spec.subnet.fam)
  {
  }

  lemma FindIsFirstFree(fam: Family, rs: seq<IPRange>, taken: set<nat>)
    ensures var found := Find(fam, Somes(rs), taken, 1);
      FirstFree(fam, rs, taken) == if found == [] then None else Some(found[0])
  {
  }
}
