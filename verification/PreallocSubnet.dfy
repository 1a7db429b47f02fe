/** The subnet object that pre-allocation reads and writes. */
module PreallocSubnet {
  import opened Wrappers
  import opened Address
  import opened Ranges
  import opened Cidr
  import opened AddressLists
  import opened Prealloc
  import opened PreallocRun

  /** `TotalIPInt` of the subnet's intervals, which for listed ranges is the number of its addresses. */
  function TotalCount(sub: SubnetSpec): nat {
    AvailableMeaning(sub.ips, sub.excludeIPs);
    var total := TotalSize(Available(sub.ips, sub.excludeIPs));
    if total > MAX_INT64 then MAX_INT64 else total
  }

  lemma TotalCountListed(sub: SubnetSpec)
    requires Accepts(sub.block, sub.ips, sub.excludeIPs) && Regular(sub.block.fam, sub.ips) && Regular(sub.block.fam, sub.excludeIPs)
    ensures TotalCount(sub) == |TotalIPs(sub)|
  {
    hide AssembleTotalIPs, Available, Accepts, Diff, Regular, TotalSize;
    TotalsAgree(sub.block, sub.ips, sub.excludeIPs);
    AssembledFits(sub);
  }

  lemma AssembledFits(sub: SubnetSpec)
    ensures |TotalIPs(sub)| <= MAX_SLICE
  {
    hide Diff, ParseAll;
    ParseReturns(sub.block.fam, sub.ips);
    if Assembled(sub).Returns? {
      DiffSize(ParseAll(sub.block.fam, sub.ips).value, Elems(ParseAll(sub.block.fam, sub.excludeIPs).value));
    }
  }

  class Subnet {
    const sub: SubnetSpec
    var controlledIPPools: Controlled
    var totalIPCount: nat
    var allocatedIPCount: nat

    constructor (sub: SubnetSpec)
      ensures this.sub == sub && controlledIPPools == map[] && CountsMatch()
    {
      this.sub := sub;
      controlledIPPools, totalIPCount, allocatedIPCount := map[], TotalCount(sub), 0;
      new;
      SumOfNothing(sub.block.fam);
      NothingUsed();
    }

    /** Both counts of the status describe it: the second is the sum of the entries' sizes, which for listed
        entries is the number of pre-allocated addresses exactly when no address is pre-allocated twice. */
    ghost predicate CountsMatch() reads this {
      && totalIPCount == TotalCount(sub) && allocatedIPCount == SumSizes(sub.block.fam, controlledIPPools)
      && (EntriesListable(sub.block.fam, controlledIPPools) ==> CountsUsed(allocatedIPCount, controlledIPPools))
    }

    ghost predicate Accepted() { Accepts(sub.block, sub.ips, sub.excludeIPs) }

    /** `subnetStatusCount`: add up the sizes of the pre-allocations; one that does not parse counts for nothing. */
    method StatusCount() returns (total: nat, count: nat)
      requires Accepted() && !Stops(ParseEntries(sub.block.fam, controlledIPPools))
      ensures total == TotalCount(sub) && count == SumSizes(sub.block.fam, controlledIPPools)
      ensures EntriesListable(sub.block.fam, controlledIPPools) ==> CountsUsed(count, controlledIPPools)
    {
      hide ParseAll, CountsUsed, SumSizes, Accepts, Available, TotalSize;
      var fam := sub.block.fam;
      var s := NewCIDR(sub.block, sub.ips, sub.excludeIPs);
      total := s.value.TotalIPInt();
      count := 0;
      var left := controlledIPPools.Keys;
      ghost var done: Controlled := map[];
      SumOfNothing(fam);
      while left != {}
        invariant left <= controlledIPPools.Keys && done.Keys == controlledIPPools.Keys - left
        invariant forall p :: p in done ==> done[p] == controlledIPPools[p]
        invariant count == SumSizes(fam, done)
        decreases left
      {
        var p :| p in left;
        var tmpIPs := ParseAll(fam, controlledIPPools[p]);
        count := count + if tmpIPs.Returns? then |tmpIPs.value| else 0;
        ghost var before := done;
        done := done[p := controlledIPPools[p]];
        SumStep(fam, done, p);
        assert done - {p} == before;
        left := left - {p};
      }
      assert done == controlledIPPools;
      if EntriesListable(fam, controlledIPPools) {
        SumCountsUsed(fam, controlledIPPools);
      }
    }

    /** `preAllocateIPsFromSubnet` up to and including the write of the subnet status, where it comes to an end. */
    method PreAllocateIPsFromSubnet(name: Name, pool: PoolObject, desired: nat, reserved: seq<IPRange>) returns (r: Result<seq<IPRange>, Error>)
      requires Accepted() && !Stuck(NewRanges(sub, controlledIPPools, name, pool, desired, reserved))
      modifies this`controlledIPPools, this`allocatedIPCount, this`totalIPCount
      ensures r == NewRanges(sub, old(controlledIPPools), name, pool, desired, reserved)
      ensures controlledIPPools == if r.Ok? then old(controlledIPPools)[name := r.value] else old(controlledIPPools)
      ensures CountsMatch() || (controlledIPPools == old(controlledIPPools) && unchanged(`allocatedIPCount, `totalIPCount))
    {
      hide Flatten, Diff, SortAll, Convert, Used, Shrunk, Extended, ParseAll, ParseEntries, SumSizes, CountsUsed, EntriesListable, Accepts, TotalCount;
      var beforeAllocatedIPs: seq<nat> := [];
      var ipNum := desired;
      if name in controlledIPPools {
        var subnetPoolIPs := ParseAll(sub.block.fam, controlledIPPools[name]);
        if !subnetPoolIPs.Returns? {
          return Err(ErrorOf(subnetPoolIPs));
        }
        var held := subnetPoolIPs.value;
        if desired <= |held| {
          var from := held;
          if desired == |held| {
            if !NeedsRepair(held, pool.inUse) {
              assert controlledIPPools[name := controlledIPPools[name]] == controlledIPPools;
              return Ok(controlledIPPools[name]);
            }
            var poolTotalIPs := ParseAll(sub.block.fam, pool.spec);
            if !poolTotalIPs.Returns? {
              return Err(ErrorOf(poolTotalIPs));
            }
            from := poolTotalIPs.value;
          }
          var allocatedIPs := KeysOf(pool.inUse);
          r := Discard(from, allocatedIPs, desired);
          if r.Ok? {
            Write(name, r.value);
          }
          return r;
        }
        beforeAllocatedIPs := held;
        ipNum := desired - |held|;
      }
      r := TakeFree(beforeAllocatedIPs, ipNum, reserved);
      if r.Ok? {
        Write(name, r.value);
      }
    }

    /** The shrink arithmetic shared by two branches: slice the sorted free addresses, keep the rest. */
    method Discard(from: seq<nat>, allocatedIPs: seq<nat>, desired: nat) returns (r: Result<seq<IPRange>, Error>)
      requires Distinct(allocatedIPs)
      ensures r == Shrunk(sub.block.fam, from, Elems(allocatedIPs), desired)
      ensures Distinct(from) ==> ShrinksTo(from, Elems(allocatedIPs), desired, r)
    {
      hide Diff, SortAll, Runs, SortDistinct, ShrinksTo;
      SizeOfElems(allocatedIPs);
      if Distinct(from) {
        ShrunkMeaning(sub.block.fam, from, Elems(allocatedIPs), desired);
      }
      if |from| - |allocatedIPs| >= |from| - desired {
        var freeIPs := GetIPDiffSet(from, allocatedIPs, true, -1);
        if |from| - desired < 0 || |from| - desired > |freeIPs| {
          return Err(SliceOutOfRange);
        }
        var discardedIPs := freeIPs[..|from| - desired];
        var newIPs := GetIPDiffSet(from, discardedIPs, false, -1);
        var ranges := MergeSorted(sub.block.fam, SortDistinct(newIPs));
        return Ok(ranges);
      }
      return Err(FreeIPsNotEnough);
    }

    /** Create and grow: list the subnet's and the reserved addresses, filter the free ones and take the first. */
    method TakeFree(before: seq<nat>, ipNum: nat, reserved: seq<IPRange>) returns (r: Result<seq<IPRange>, Error>)
      requires !Stuck(Extended(sub, controlledIPPools, before, ipNum, reserved))
      ensures r == Extended(sub, controlledIPPools, before, ipNum, reserved)
      ensures var lists := Lists(sub, controlledIPPools, reserved);
        lists.Returns? && SubnetOk(sub) && Distinct(before) && Elems(before) <= Used(controlledIPPools) ==>
          ExtendsTo(TotalIPs(sub), controlledIPPools, before, ipNum, Elems(lists.value), r)
    {
      hide Diff, SortAll, Runs, SortDistinct, ExtendsTo, FreeIPs, ParseEntries, EntriesListable, Used, ParseAll, AssembleTotalIPs, SumSizes, SubnetOk;
      if SubnetOk(sub) && Distinct(before) && Elems(before) <= Used(controlledIPPools) {
        ExtendedMeaning(sub, controlledIPPools, before, ipNum, reserved);
      }
      var usedIPs := ParseEntries(sub.block.fam, controlledIPPools);
      if !usedIPs.Returns? {
        return Err(ErrorOf(usedIPs));
      }
      var totalIPs := Assembled(sub);
      if !totalIPs.Returns? {
        return Err(ErrorOf(totalIPs));
      }
      var freeIPs := FreeIPs(totalIPs.value, controlledIPPools);
      var reservedIPs := ParseAll(sub.block.fam, reserved);
      if !reservedIPs.Returns? {
        return Err(ErrorOf(reservedIPs));
      }
      if |reservedIPs.value| != 0 {
        assert reservedIPs.value[0] in Elems(reservedIPs.value);
        freeIPs := GetIPDiffSet(freeIPs, reservedIPs.value, true, -1);
      }
      if |freeIPs| < ipNum {
        return Err(SubnetExhausted);
      }
      var ranges := MergeSorted(sub.block.fam, SortDistinct(freeIPs[..ipNum] + before));
      return Ok(ranges);
    }

    /** Record the ranges and refresh the counts. */
    method Write(name: Name, ranges: seq<IPRange>)
      requires Accepted() && !Stops(ParseEntries(sub.block.fam, controlledIPPools[name := ranges]))
      modifies this`controlledIPPools, this`allocatedIPCount, this`totalIPCount
      ensures controlledIPPools == old(controlledIPPools)[name := ranges]
      ensures CountsMatch()
    {
      hide TotalCount, Accepts;
      controlledIPPools := controlledIPPools[name := ranges];
      totalIPCount, allocatedIPCount := StatusCount();
    }
  }

  /** The call does not come back to its caller. */
  predicate Stops(o: Outcome<()>) {
    o.Panics? || o.NeverReturns?
  }

  predicate Stuck(r: Result<seq<IPRange>, Error>) {
    r == Err(NoAnswer) || r == Err(CapacityRefused)
  }

  /** The keys of the pool's allocation map, in the order Go happens to give them. */
  method KeysOf(inUse: set<nat>) returns (ips: seq<nat>)
    ensures Distinct(ips) && Elems(ips) == inUse
  {
    ips := [];
    var left := inUse;
    while left != {}
      invariant left <= inUse && Elems(ips) == inUse - left && Distinct(ips)
      decreases left
    {
      var ip :| ip in left;
      assert ip !in Elems(ips);
      assert forall a :: a in ips + [ip] <==> a in Elems(ips) || a == ip;
      ips := ips + [ip];
      left := left - {ip};
    }
  }
}
