/** Pre-allocation of subnet addresses to auto-created pools. */
module Prealloc {
  import opened Wrappers
  import opened Address
  import opened Ranges
  import opened Blocks
  import opened Cidr
  import opened AddressLists

  type Name = string

  /** What the subnet is made of. */
  datatype SubnetSpec = SubnetSpec(block: Block, ips: seq<IPRange>, excludeIPs: seq<IPRange>)

  /** `Status.ControlledIPPools`: the ranges pre-allocated to each pool. */
  type Controlled = map<Name, seq<IPRange>>

  /** What reconcile reads of a pool: its ranges and the keys of `Status.AllocatedIPs`. */
  datatype PoolObject = PoolObject(spec: seq<IPRange>, inUse: set<nat>)

  /** `SliceOutOfRange` and `CapacityRefused` stand for panics, `NoAnswer` for a call that never returns. */
  datatype Error = WrongInput | FreeIPsNotEnough | SubnetExhausted | SliceOutOfRange | CapacityRefused | NoAnswer

  function ErrorOf<T>(o: Outcome<T>): Error {
    if o.Fails? then WrongInput else if o.Panics? then CapacityRefused else NoAnswer
  }

  /** The addresses a range list stands for. */
  function AddressesOf(rs: seq<IPRange>): set<nat> {
    Elems(Flatten(rs))
  }

  /** Addresses pre-allocated to any pool. */
  function Used(controlled: Controlled): set<nat> {
    set p, a | p in controlled && a in Flatten(controlled[p]) :: a
  }

  /** `GenSubnetFreeIPs`: the subnet's addresses not pre-allocated to any pool, sorted. */
  function FreeIPs(total: seq<nat>, controlled: Controlled): seq<nat> {
    SortAll(Diff(total, Used(controlled)))
  }

  /** Shrink and repair: discard the lowest unallocated addresses until `desired` are left. */
  function Shrunk(fam: Family, from: seq<nat>, inUse: set<nat>, desired: nat): Result<seq<IPRange>, Error> {
    if |from| - |inUse| < |from| - desired then Err(FreeIPsNotEnough)
    else
      var freeIPs, n := SortAll(Diff(from, inUse)), |from| - desired;
      if n < 0 || n > |freeIPs| then Err(SliceOutOfRange)
      else Ok(Convert(fam, Diff(from, Elems(freeIPs[..n]))))
  }

  /** Filter the reserved addresses out, if there are any. */
  function Unreserved(freeIPs: seq<nat>, reserved: set<nat>): seq<nat> {
    if reserved == {} then freeIPs else SortAll(Diff(freeIPs, reserved))
  }

  /** Parsing every entry: it runs for ever if one does, panics if one does, fails if one does. Where different
      entries do different things, the order of Go's map decides; the model takes them in this order. */
  function ParseEntries(fam: Family, controlled: Controlled): Outcome<()> {
    if exists p | p in controlled :: ParseAll(fam, controlled[p]).NeverReturns? then NeverReturns
    else if exists p | p in controlled :: ParseAll(fam, controlled[p]).Panics? then Panics
    else if exists p | p in controlled :: ParseAll(fam, controlled[p]).Fails? then Fails
    else Returns(())
  }

  /** Parsing all entries as one list, which must fit in a slice. */
  ghost function ParseUsed(fam: Family, controlled: Controlled): Outcome<()> {
    var parsed := ParseEntries(fam, controlled);
    if parsed.Returns? && SumSizes(fam, controlled) > MAX_SLICE then NeverReturns else parsed
  }

  function Assembled(sub: SubnetSpec): Outcome<seq<nat>> {
    AssembleTotalIPs(sub.block.fam, sub.ips, sub.excludeIPs)
  }

  /** The subnet's addresses, none if they are not listed. */
  function TotalIPs(sub: SubnetSpec): seq<nat> {
    if Assembled(sub).Returns? then Assembled(sub).value else []
  }

  /** What a create or a grow reads before it takes addresses: all entries, the subnet's addresses and the
      reserved ones, in this order; the outcome holds the reserved addresses. */
  ghost function Lists(sub: SubnetSpec, controlled: Controlled, reserved: seq<IPRange>): Outcome<seq<nat>> {
    var used := ParseUsed(sub.block.fam, controlled);
    if !used.Returns? then used.Stopped()
    else if !Assembled(sub).Returns? then Assembled(sub)
    else ParseAll(sub.block.fam, reserved)
  }

  /** Create and grow, once everything is listed: the lowest free, unreserved addresses on top of those held
      before, if a slice can hold them. */
  function Taken(fam: Family, total: seq<nat>, controlled: Controlled, before: seq<nat>, n: nat, reserved: set<nat>)
    : Result<seq<IPRange>, Error>
  {
    var freeIPs := Unreserved(FreeIPs(total, controlled), reserved);
    if |freeIPs| < n then Err(SubnetExhausted)
    else if n + |before| > MAX_SLICE then Err(NoAnswer)
    else Ok(Convert(fam, freeIPs[..n] + before))
  }

  ghost function Extended(sub: SubnetSpec, controlled: Controlled, before: seq<nat>, n: nat, reserved: seq<IPRange>)
    : Result<seq<IPRange>, Error>
  {
    var lists := Lists(sub, controlled, reserved);
    if !lists.Returns? then Err(ErrorOf(lists))
    else Taken(sub.block.fam, TotalIPs(sub), controlled, before, n, Elems(lists.value))
  }

  /** The pool has allocated an address that its pre-allocation does not hold. */
  predicate NeedsRepair(entry: seq<nat>, inUse: set<nat>) {
    exists a :: a in inUse && a !in entry
  }

  /** Before the status is written its entries are counted, which parses all of them once more. */
  function Counted(fam: Family, controlled: Controlled, name: Name, r: Result<seq<IPRange>, Error>): Result<seq<IPRange>, Error> {
    if r.Err? then r
    else
      var parsed := ParseEntries(fam, controlled[name := r.value]);
      if parsed.Panics? || parsed.NeverReturns? then Err(ErrorOf(parsed)) else r
  }

  /** The new pre-allocation of the pool, decided from the sizes of the old one and the desired one. */
  ghost function NewRanges(sub: SubnetSpec, controlled: Controlled, name: Name, pool: PoolObject, desired: nat, reserved: seq<IPRange>)
    : Result<seq<IPRange>, Error>
  {
    var fam := sub.block.fam;
    if name !in controlled then Counted(fam, controlled, name, Extended(sub, controlled, [], desired, reserved))
    else
      var entry := ParseAll(fam, controlled[name]);
      if !entry.Returns? then Err(ErrorOf(entry))
      else if desired > |entry.value| then
        Counted(fam, controlled, name, Extended(sub, controlled, entry.value, desired - |entry.value|, reserved))
      else if desired < |entry.value| then Counted(fam, controlled, name, Shrunk(fam, entry.value, pool.inUse, desired))
      else if !NeedsRepair(entry.value, pool.inUse) then Ok(controlled[name])
      else
        var spec := ParseAll(fam, pool.spec);
        if !spec.Returns? then Err(ErrorOf(spec)) else Counted(fam, controlled, name, Shrunk(fam, spec.value, pool.inUse, desired))
  }

  // ----- Entries -----

  predicate EntriesDistinct(controlled: Controlled) {
    forall p :: p in controlled ==> AllOrdered(controlled[p]) && Distinct(Flatten(controlled[p]))
  }

  /** No address is pre-allocated to two pools. */
  predicate EntriesApart(controlled: Controlled) {
    forall p, q | p in controlled && q in controlled && p != q :: AddressesOf(controlled[p]) !! AddressesOf(controlled[q])
  }

  /** The ranges are listed as their addresses, and so is every merged list of some of those addresses. */
  predicate Listable(fam: Family, rs: seq<IPRange>) {
    Regular(fam, rs) && (forall a | a in Flatten(rs) :: a < Limit(fam)) && !TopsIn(fam, Flatten(rs))
  }

  predicate EntriesListable(fam: Family, controlled: Controlled) {
    forall p | p in controlled :: Listable(fam, controlled[p])
  }

  // ----- Counting -----

  function EntrySize(fam: Family, rs: seq<IPRange>): nat {
    var ips := ParseAll(fam, rs);
    if ips.Returns? then |ips.value| else 0
  }

  ghost function Pick(controlled: Controlled): (p: Name)
    requires controlled != map[]
    ensures p in controlled
  {
    var p :| p in controlled;
    p
  }

  /** The sum of the sizes of all entries. */
  ghost function SumSizes(fam: Family, controlled: Controlled): nat
    decreases |controlled|
  {
    if controlled == map[] then 0
    else
      var p := Pick(controlled);
      assert |controlled - {p}| < |controlled| by { FewerEntries(controlled, p); }
      EntrySize(fam, controlled[p]) + SumSizes(fam, controlled - {p})
  }

  lemma FewerEntries(controlled: Controlled, p: Name)
    requires p in controlled
    ensures |controlled - {p}| == |controlled| - 1
  {
    assert (controlled - {p}).Keys == controlled.Keys - {p};
  }

  /** The sum may be taken in any order. */
  lemma {:induction false} SumStep(fam: Family, controlled: Controlled, p: Name)
    requires p in controlled
    ensures SumSizes(fam, controlled) == EntrySize(fam, controlled[p]) + SumSizes(fam, controlled - {p})
    decreases |controlled|
  {
    hide EntrySize;
    var q := Pick(controlled);
    if p != q {
      FewerEntries(controlled, q);
      FewerEntries(controlled, p);
      SumStep(fam, controlled - {q}, p);
      SumStep(fam, controlled - {p}, q);
      assert controlled - {q} - {p} == controlled - {p} - {q};
    }
  }

  /** The count is at least the number of pre-allocated addresses, and is it exactly when none is
      pre-allocated twice, to one pool or to two. */
  predicate CountsUsed(count: nat, controlled: Controlled) {
    && count >= |Used(controlled)|
    && (count == |Used(controlled)| <==> EntriesDistinct(controlled) && EntriesApart(controlled))
  }

  lemma NothingUsed()
    ensures Used(map[]) == {} && CountsUsed(0, map[])
  {
  }

  /** Removing one pool's entry from the rest: every address is the pool's or another's. */
  lemma UsedUnion(done: Controlled, p: Name, rs: seq<IPRange>)
    requires p !in done
    ensures Used(done[p := rs]) == Used(done) + AddressesOf(rs)
  {
    hide Flatten;
    var all := done[p := rs];
    forall a | a in Used(all) ensures a in Used(done) + AddressesOf(rs) {
      var q :| q in all && a in Flatten(all[q]);
    }
    forall a | a in Used(done) ensures a in Used(all) {
      var q :| q in done && a in Flatten(done[q]);
      assert q in all && all[q] == done[q];
    }
    forall a | a in AddressesOf(rs) ensures a in Used(all) {
      assert p in all && a in Flatten(all[p]);
    }
  }

  lemma CountOne(count: nat, done: Controlled, p: Name, rs: seq<IPRange>)
    requires p !in done && CountsUsed(count, done) && AllOrdered(rs)
    ensures CountsUsed(count + |Flatten(rs)|, done[p := rs])
  {
    hide Used, Flatten, Distinct, EntriesApart, EntriesDistinct, AddressesOf;
    UsedUnion(done, p, rs);
    UnionSize(Used(done), AddressesOf(rs));
    ApartOne(done, p, rs);
    DistinctOne(done, p, rs);
    ElementCount(Flatten(rs));
    SameElems(rs);
    NoneShared(Used(done), AddressesOf(rs));
  }

  /** For entries that are listed, the sum counts in this sense. */
  lemma {:induction false} SumCountsUsed(fam: Family, controlled: Controlled)
    requires EntriesListable(fam, controlled)
    ensures CountsUsed(SumSizes(fam, controlled), controlled)
    decreases |controlled|
  {
    hide CountsUsed, Listable, SumSizes, EntrySize, Flatten;
    if controlled == map[] {
      NothingUsed();
      SumOfNothing(fam);
    } else {
      var p :| p in controlled;
      var rest := controlled - {p};
      FewerEntries(controlled, p);
      SumStep(fam, controlled, p);
      SumCountsUsed(fam, rest);
      SizeOfListable(fam, controlled[p]);
      CountOne(SumSizes(fam, rest), rest, p, controlled[p]);
      assert rest[p := controlled[p]] == controlled;
    }
  }

  lemma SumOfNothing(fam: Family)
    ensures SumSizes(fam, map[]) == 0
  {
  }

  lemma SizeOfListable(fam: Family, rs: seq<IPRange>)
    requires Listable(fam, rs)
    ensures EntrySize(fam, rs) == |Flatten(rs)| && AllOrdered(rs)
  {
    RegularParses(fam, rs);
  }

  lemma NoneShared(x: set<nat>, y: set<nat>)
    ensures |x * y| == 0 <==> x !! y
  {
    assert |x * y| == 0 ==> x * y == {};
    assert forall a :: a in x && a in y ==> a in x * y;
  }

  lemma SameElems(rs: seq<IPRange>)
    ensures AddressesOf(rs) == Elems(Flatten(rs))
  {
  }

  lemma DistinctOne(done: Controlled, p: Name, rs: seq<IPRange>)
    requires p !in done && AllOrdered(rs)
    ensures EntriesDistinct(done[p := rs]) <==> EntriesDistinct(done) && Distinct(Flatten(rs))
  {
    hide Flatten, Distinct;
    var all := done[p := rs];
    assert all[p] == rs && forall q | q in done :: q in all && all[q] == done[q];
  }

  lemma ApartOne(done: Controlled, p: Name, rs: seq<IPRange>)
    requires p !in done
    ensures EntriesApart(done[p := rs]) <==> EntriesApart(done) && Used(done) !! AddressesOf(rs)
  {
    hide Flatten;
    var all := done[p := rs];
    assert all[p] == rs && forall q | q in done :: q in all && all[q] == done[q];
    if EntriesApart(all) {
      UsedApart(done, p, rs);
    }
    if Used(done) !! AddressesOf(rs) {
      forall q | q in done ensures AddressesOf(done[q]) !! AddressesOf(rs) {
        assert forall a | a in AddressesOf(done[q]) :: a in Used(done);
      }
    }
  }

  /** A list has as many elements as entries exactly when none is repeated. */
  lemma {:induction false} ElementCount(xs: seq<nat>)
    ensures |Elems(xs)| <= |xs| && (|Elems(xs)| == |xs| <==> Distinct(xs))
  {
    if xs != [] {
      ElementCount(xs[1..]);
      assert Elems(xs) == {xs[0]} + Elems(xs[1..]) by { assert xs == [xs[0]] + xs[1..]; }
      assert xs[0] in xs[1..] <==> xs[0] in Elems(xs[1..]);
      DistinctFront(xs);
    }
  }

  lemma DistinctFront(xs: seq<nat>)
    requires xs != []
    ensures Distinct(xs) <==> Distinct(xs[1..]) && xs[0] !in xs[1..]
  {
  }

  lemma UsedApart(done: Controlled, p: Name, rs: seq<IPRange>)
    requires p !in done && EntriesApart(done[p := rs])
    ensures Used(done) !! AddressesOf(rs)
  {
    hide Flatten;
    var all := done[p := rs];
    forall a | a in Used(done) ensures a !in AddressesOf(rs) {
      var q :| q in done && a in Flatten(done[q]);
      assert all[q] == done[q] && all[p] == rs;
      assert a in AddressesOf(all[q]);
    }
  }
}
