/** What each branch of pre-allocation does to the addresses, and whole runs of reconciles
    that may stop between the write of the subnet status and the write of the pool. */
module PreallocRun {
  import opened Wrappers
  import opened Address
  import opened Ranges
  import opened Cidr
  import opened AddressLists
  import opened Prealloc

  // ----- Sizes -----

  lemma SizeOfElems(xs: seq<nat>)
    requires Distinct(xs)
    ensures |Elems(xs)| == |xs|
  {
    DistinctSize(xs, Elems(xs));
  }

  lemma ElemsOfDiff(xs: seq<nat>, ex: set<nat>)
    ensures Elems(Diff(xs, ex)) == Elems(xs) - ex
  {
    hide Diff;
    forall a ensures a in Diff(xs, ex) <==> a in xs && a !in ex {
      DiffMembers(xs, ex, a);
    }
  }

  lemma ElemsOfConcat(xs: seq<nat>, ys: seq<nat>)
    ensures Elems(xs + ys) == Elems(xs) + Elems(ys)
  {
  }

  /** Every address of the first set is lower than every address of the second. */
  predicate Below(x: set<nat>, y: set<nat>) {
    forall a, b | a in x && b in y :: a < b
  }

  lemma PrefixMeaning(xs: seq<nat>, n: nat)
    requires Distinct(xs) && Ascending(xs) && n <= |xs|
    ensures Elems(xs[..n]) <= Elems(xs) && |Elems(xs[..n])| == n
    ensures Below(Elems(xs[..n]), Elems(xs) - Elems(xs[..n]))
  {
    SizeOfElems(xs[..n]);
    forall a, b | a in Elems(xs[..n]) && b in Elems(xs) - Elems(xs[..n]) ensures a < b {
      var i :| 0 <= i < n && xs[i] == a;
      var j :| 0 <= j < |xs| && xs[j] == b;
      assert forall k | 0 <= k < n :: xs[k] in xs[..n];
    }
  }

  /** A converted list stands for its addresses, each once. */
  lemma ConvertMeaning(fam: Family, xs: seq<nat>)
    ensures var rs := Convert(fam, xs);
      AddressesOf(rs) == Elems(xs) && |Flatten(rs)| == |Elems(xs)| && AllOrdered(rs) && Distinct(Flatten(rs))
  {
    hide Convert, SortDistinct, Distinct, Flatten;
    ConvertIsCanonical(fam, xs);
    var sorted := SortDistinct(xs);
    IncreasingDistinct(sorted);
    SizeOfElems(sorted);
    assert Elems(sorted) == Elems(xs);
  }

  /** A converted list that a slice can hold can be listed again exactly unless it holds both top addresses;
      then parsing it never returns. */
  lemma ConvertListable(fam: Family, xs: seq<nat>)
    requires (forall a | a in xs :: a < Limit(fam)) && |xs| <= MAX_SLICE
    ensures Listable(fam, Convert(fam, xs)) <==> !TopsIn(fam, xs)
    ensures !ParseAll(fam, Convert(fam, xs)).Returns? ==> ParseAll(fam, Convert(fam, xs)).NeverReturns?
    ensures ParseAll(fam, Convert(fam, xs)).NeverReturns? <==> TopsIn(fam, xs)
  {
    hide Convert, SortDistinct, Flatten, Regular, ParseAll;
    ConvertedParsesAgain(fam, xs);
    ConvertIsCanonical(fam, xs);
  }

  lemma IncreasingDistinct(xs: seq<nat>)
    ensures Increasing(xs) ==> Distinct(xs)
  {
  }

  lemma Cut(all: set<nat>, gone: set<nat>)
    requires gone <= all
    ensures |all - gone| == |all| - |gone|
  {
  }

  lemma {:induction false} CutAtMost(all: set<nat>, gone: set<nat>)
    ensures |all - gone| >= |all| - |gone|
  {
  }

  // ----- The branches -----

  /** The lowest unallocated addresses, as many as there are too many. */
  function Discarded(from: seq<nat>, inUse: set<nat>, desired: nat): set<nat> {
    var freeIPs, n := SortAll(Diff(from, inUse)), |from| - desired;
    if 0 <= n <= |freeIPs| then Elems(freeIPs[..n]) else {}
  }

  /** Shrinking drops exactly the lowest unallocated addresses and leaves the desired number. It fails for
      lack of free addresses exactly when more than desired are allocated, and would slice out of range
      exactly when fewer than desired were there to begin with. */
  predicate ShrinksTo(from: seq<nat>, inUse: set<nat>, desired: nat, r: Result<seq<IPRange>, Error>) {
    var gone := Discarded(from, inUse, desired);
    && (r == Err(FreeIPsNotEnough) <==> |inUse| > desired)
    && (r == Err(SliceOutOfRange) <==> |inUse| <= desired && |from| < desired)
    && (r.Ok? <==> |inUse| <= desired <= |from|)
    && (r.Ok? ==>
          && AllOrdered(r.value) && Distinct(Flatten(r.value)) && |Flatten(r.value)| == desired
          && AddressesOf(r.value) == Elems(from) - gone && gone !! inUse
          && Below(gone, AddressesOf(r.value) - inUse))
  }

  lemma ShrunkMeaning(fam: Family, from: seq<nat>, inUse: set<nat>, desired: nat)
    requires Distinct(from)
    ensures ShrinksTo(from, inUse, desired, Shrunk(fam, from, inUse, desired))
  {
    hide Diff, SortAll, Convert, Distinct, Flatten, Elems, Below, Ascending;
    var free := Diff(from, inUse);
    var freeIPs, n := SortAll(free), |from| - desired;
    DiffDistinct(from, inUse);
    SortAllMeaning(free);
    ElemsOfDiff(from, inUse);
    SizeOfElems(from);
    SizeOfElems(free);
    CutAtMost(Elems(from), inUse);
    if 0 <= n <= |freeIPs| {
      var gone := Elems(freeIPs[..n]);
      PrefixMeaning(freeIPs, n);
      ElemsOfDiff(from, gone);
      ConvertMeaning(fam, Diff(from, gone));
      Cut(Elems(from), gone);
      assert (Elems(from) - gone) - inUse == Elems(freeIPs) - gone;
    }
  }

  /** Creating or growing keeps what was held, adds the lowest free, unreserved addresses of the subnet,
      as many as wanted, and fails exactly when too few are left or a slice cannot hold them. */
  predicate ExtendsTo(total: seq<nat>, controlled: Controlled, before: seq<nat>, n: nat, reserved: set<nat>, r: Result<seq<IPRange>, Error>) {
    var free := Elems(total) - Used(controlled) - reserved;
    && (r == Err(SubnetExhausted) <==> |free| < n)
    && (r == Err(NoAnswer) <==> n <= |free| && n + |before| > MAX_SLICE)
    && (r.Ok? <==> n <= |free| && n + |before| <= MAX_SLICE)
    && (r.Ok? ==>
          && AllOrdered(r.value) && Distinct(Flatten(r.value)) && |Flatten(r.value)| == |before| + n
          && Elems(before) <= AddressesOf(r.value) <= Elems(before) + free
          && Below(AddressesOf(r.value) - Elems(before), free - AddressesOf(r.value)))
  }

  lemma TakenMeaning(fam: Family, total: seq<nat>, controlled: Controlled, before: seq<nat>, n: nat, reserved: set<nat>)
    requires Distinct(total) && Distinct(before) && Elems(before) <= Used(controlled)
    ensures ExtendsTo(total, controlled, before, n, reserved, Taken(fam, total, controlled, before, n, reserved))
  {
    hide Diff, SortAll, Convert, Distinct, Flatten, Elems, Used, Below, Ascending, FreeIPs, Unreserved;
    var freeIPs := Unreserved(FreeIPs(total, controlled), reserved);
    FreeMeaning(total, controlled, reserved);
    SizeOfElems(freeIPs);
    if n <= |freeIPs| {
      var taken := Elems(freeIPs[..n]);
      PrefixMeaning(freeIPs, n);
      ElemsOfConcat(freeIPs[..n], before);
      ConvertMeaning(fam, freeIPs[..n] + before);
      SizeOfElems(before);
      assert taken !! Elems(before);
      assert (taken + Elems(before)) - Elems(before) == taken;
      assert Elems(freeIPs) - (taken + Elems(before)) == Elems(freeIPs) - taken;
    }
  }

  /** The subnet's ranges are of its family, do not stray and do not overlap, as admission sees to. */
  predicate SubnetOk(sub: SubnetSpec) {
    OfFamily(sub.block.fam, sub.ips) && Straight(sub.block.fam, sub.ips) && Distinct(Flatten(sub.ips))
  }

  lemma TotalSound(sub: SubnetSpec)
    requires SubnetOk(sub)
    ensures var total := TotalIPs(sub);
      && Distinct(total) && |total| <= MAX_SLICE && (forall a | a in total :: a < Limit(sub.block.fam) && a in Flatten(sub.ips))
    ensures Assembled(sub).Returns? ==> Regular(sub.block.fam, sub.ips)
  {
    hide Diff, ParseAll, Flatten, Regular;
    StraightRegular(sub.block.fam, sub.ips);
    if Assembled(sub).Returns? {
      var ex := Elems(ParseAll(sub.block.fam, sub.excludeIPs).value);
      DiffDistinct(Flatten(sub.ips), ex);
      DiffSize(Flatten(sub.ips), ex);
      ListedBelowLimit(sub.block.fam, sub.ips);
      RegularFits(sub.block.fam, sub.ips);
      forall a | a in TotalIPs(sub) ensures a in Flatten(sub.ips) {
        DiffMembers(Flatten(sub.ips), ex, a);
      }
    } else {
      NoneDistinct();
    }
  }

  lemma RegularFits(fam: Family, rs: seq<IPRange>)
    requires Regular(fam, rs)
    ensures |Flatten(rs)| <= MAX_SLICE
  {
  }

  lemma {:induction false} DiffSize(xs: seq<nat>, ex: set<nat>)
    ensures |Diff(xs, ex)| <= |xs|
  {
    if xs != [] {
      DiffSize(xs[1..], ex);
    }
  }

  /** Creating or growing, from the ranges: once entries, subnet and reservation are listed it does what is said
      above; otherwise it fails, panics or never returns as the first list that is not there does. */
  lemma ExtendedMeaning(sub: SubnetSpec, controlled: Controlled, before: seq<nat>, n: nat, reserved: seq<IPRange>)
    requires SubnetOk(sub) && Distinct(before) && Elems(before) <= Used(controlled)
    ensures var lists := Lists(sub, controlled, reserved);
      var r := Extended(sub, controlled, before, n, reserved);
      if lists.Returns? then ExtendsTo(TotalIPs(sub), controlled, before, n, Elems(lists.value), r) else r == Err(ErrorOf(lists))
  {
    hide Lists, TotalIPs, Taken, ExtendsTo, Used, Elems, Distinct, Flatten;
    TotalSound(sub);
    var lists := Lists(sub, controlled, reserved);
    if lists.Returns? {
      TakenMeaning(sub.block.fam, TotalIPs(sub), controlled, before, n, Elems(lists.value));
    }
  }

  /** The includes, the excludes or the reserved ranges, in this order, have the outcome first. */
  ghost predicate ListStops(sub: SubnetSpec, reserved: seq<IPRange>, o: Outcome<seq<nat>>) {
    var fam := sub.block.fam;
    || StopsWith(fam, sub.ips, o)
    || (Regular(fam, sub.ips) && StopsWith(fam, sub.excludeIPs, o))
    || (Regular(fam, sub.ips) && Regular(fam, sub.excludeIPs) && StopsWith(fam, reserved, o))
  }

  /** When the lists are there, for listed entries, in terms of the ranges. */
  lemma ListsOutcome(sub: SubnetSpec, controlled: Controlled, reserved: seq<IPRange>)
    requires SubnetOk(sub) && Straight(sub.block.fam, sub.excludeIPs) && EntriesListable(sub.block.fam, controlled)
    ensures var fam := sub.block.fam;
      var lists, fit := Lists(sub, controlled, reserved), SumSizes(fam, controlled) <= MAX_SLICE;
      && (lists.Returns? <==> fit && Regular(fam, sub.ips) && Regular(fam, sub.excludeIPs) && ParseAll(fam, reserved).Returns?)
      && (lists.Panics? <==> fit && ListStops(sub, reserved, Panics))
      && (lists.NeverReturns? <==> !fit || ListStops(sub, reserved, NeverReturns))
  {
    hide ParseAll, AssembleTotalIPs, Regular, Straight, StopsWith, EntriesListable, SumSizes, ParseEntries;
    EntriesParse(sub.block.fam, controlled);
    AssembleOutcome(sub.block.fam, sub.ips, sub.excludeIPs);
    ParseOutcome(sub.block.fam, reserved);
  }

  lemma EntriesParse(fam: Family, controlled: Controlled)
    requires EntriesListable(fam, controlled)
    ensures ParseEntries(fam, controlled).Returns?
  {
    forall p | p in controlled ensures ParseAll(fam, controlled[p]).Returns? {
      RegularParses(fam, controlled[p]);
    }
  }

  lemma FreeMeaning(total: seq<nat>, controlled: Controlled, reserved: set<nat>)
    requires Distinct(total)
    ensures var freeIPs := Unreserved(FreeIPs(total, controlled), reserved);
      Distinct(freeIPs) && Ascending(freeIPs) && Elems(freeIPs) == Elems(total) - Used(controlled) - reserved
    ensures Distinct(FreeIPs(total, controlled)) && Elems(FreeIPs(total, controlled)) == Elems(total) - Used(controlled)
  {
    hide Diff, SortAll, Distinct, Ascending, Elems, Used;
    DiffDistinct(total, Used(controlled));
    ElemsOfDiff(total, Used(controlled));
    SortAllMeaning(Diff(total, Used(controlled)));
    var free := FreeIPs(total, controlled);
    DiffDistinct(free, reserved);
    ElemsOfDiff(free, reserved);
    SortAllMeaning(Diff(free, reserved));
  }

  lemma EntryIsUsed(controlled: Controlled, name: Name)
    requires name in controlled
    ensures AddressesOf(controlled[name]) <= Used(controlled)
  {
  }

  /** A pool whose spec parses to distinct addresses, as every merged list does, all allocated ones among them. */
  predicate PoolSound(pool: PoolObject) {
    AllOrdered(pool.spec) && Distinct(Flatten(pool.spec)) && pool.inUse <= AddressesOf(pool.spec)
  }

  /** The branch that repairs a pre-allocation left behind by an interrupted shrink. */
  predicate Repairs(controlled: Controlled, name: Name, pool: PoolObject, desired: nat) {
    name in controlled && desired == |Flatten(controlled[name])| && NeedsRepair(Flatten(controlled[name]), pool.inUse)
  }

  /** What pre-allocation is computed from: the subnet and its status, and the pool. */
  predicate InputsSound(sub: SubnetSpec, controlled: Controlled, pool: PoolObject) {
    && SubnetOk(sub) && EntriesListable(sub.block.fam, controlled) && EntriesDistinct(controlled)
    && Listable(sub.block.fam, pool.spec) && PoolSound(pool)
  }

  /** The branches, on inputs that are listed. */
  lemma NewRangesCases(sub: SubnetSpec, controlled: Controlled, name: Name, pool: PoolObject, desired: nat, reserved: seq<IPRange>)
    requires InputsSound(sub, controlled, pool)
    ensures var fam := sub.block.fam;
      NewRanges(sub, controlled, name, pool, desired, reserved) ==
      if name !in controlled then Counted(fam, controlled, name, Extended(sub, controlled, [], desired, reserved))
      else
        var entry := Flatten(controlled[name]);
        if desired > |entry| then Counted(fam, controlled, name, Extended(sub, controlled, entry, desired - |entry|, reserved))
        else if desired < |entry| then Shrunk(fam, entry, pool.inUse, desired)
        else if NeedsRepair(entry, pool.inUse) then Shrunk(fam, Flatten(pool.spec), pool.inUse, desired)
        else Ok(controlled[name])
  {
    hide Counted, Shrunk, Extended, Distinct, Flatten, Regular, ParseAll, Listable;
    var fam := sub.block.fam;
    ListedIsFlat(fam, pool.spec);
    if name in controlled {
      ListedIsFlat(fam, controlled[name]);
      CountedShrunk(fam, controlled, name, controlled[name], pool.inUse, desired);
      CountedShrunk(fam, controlled, name, pool.spec, pool.inUse, desired);
    }
  }

  lemma ListedIsFlat(fam: Family, rs: seq<IPRange>)
    requires Listable(fam, rs)
    ensures ParseAll(fam, rs) == Returns(Flatten(rs))
  {
    RegularParses(fam, rs);
  }

  /** Counting never stops a shrink from being written: what is left of a list can be listed. */
  lemma CountedShrunk(fam: Family, controlled: Controlled, name: Name, from: seq<IPRange>, inUse: set<nat>, desired: nat)
    requires EntriesListable(fam, controlled) && Listable(fam, from)
    ensures Counted(fam, controlled, name, Shrunk(fam, Flatten(from), inUse, desired)) == Shrunk(fam, Flatten(from), inUse, desired)
    ensures Shrunk(fam, Flatten(from), inUse, desired).Ok? ==> Listable(fam, Shrunk(fam, Flatten(from), inUse, desired).value)
  {
    hide Diff, SortAll, Convert, Flatten, ParseAll;
    var r := Shrunk(fam, Flatten(from), inUse, desired);
    if r.Ok? {
      var gone := Elems(SortAll(Diff(Flatten(from), inUse))[..|Flatten(from)| - desired]);
      forall a | a in Diff(Flatten(from), gone) ensures a in Flatten(from) {
        DiffMembers(Flatten(from), gone, a);
      }
      DiffSize(Flatten(from), gone);
      ConvertListable(fam, Diff(Flatten(from), gone));
      EntriesParse(fam, controlled[name := r.value]);
    }
  }

  /** Counting stops an extension exactly when it would hold both top addresses of the family. */
  lemma CountedExtended(sub: SubnetSpec, controlled: Controlled, name: Name, before: seq<nat>, n: nat, reserved: seq<IPRange>)
    requires SubnetOk(sub) && EntriesListable(sub.block.fam, controlled) && forall a | a in before :: a < Limit(sub.block.fam)
    ensures var fam := sub.block.fam; var r := Extended(sub, controlled, before, n, reserved);
      && (r.Ok? ==> (Listable(fam, r.value) <==> !TopsIn(fam, Flatten(r.value))))
      && Counted(fam, controlled, name, r) == if r.Ok? && TopsIn(fam, Flatten(r.value)) then Err(NoAnswer) else r
  {
    hide Convert, Flatten, Regular, ParseAll, FreeIPs, Unreserved, Elems, Used, Distinct, Ascending, ParseEntries, Lists, TotalIPs, SubnetOk;
    var fam, total, r := sub.block.fam, TotalIPs(sub), Extended(sub, controlled, before, n, reserved);
    if r.Ok? {
      TotalSound(sub);
      var reservedIPs := Elems(Lists(sub, controlled, reserved).value);
      FreeMeaning(total, controlled, reservedIPs);
      var freeIPs := Unreserved(FreeIPs(total, controlled), reservedIPs);
      var ips := freeIPs[..n] + before;
      forall a | a in ips ensures a < Limit(fam) {
        if a !in before { TakenFromTotal(freeIPs, n, a, total); }
      }
      ConvertListable(fam, ips);
      ConvertIsCanonical(fam, ips);
      if TopsIn(fam, ips) {
        EntryHangs(fam, controlled[name := r.value], name);
      } else {
        EntriesParse(fam, controlled[name := r.value]);
      }
    }
  }

  lemma TakenFromTotal(freeIPs: seq<nat>, n: nat, a: nat, total: seq<nat>)
    requires n <= |freeIPs| && a in freeIPs[..n] && Elems(freeIPs) <= Elems(total)
    ensures a in total
  {
    assert a in Elems(freeIPs);
  }

  lemma EntryHangs(fam: Family, controlled: Controlled, name: Name)
    requires name in controlled && ParseAll(fam, controlled[name]).NeverReturns?
    ensures ParseEntries(fam, controlled).NeverReturns?
  {
  }

  /** Every successful pre-allocation is exactly the desired number of distinct addresses. A repair cuts
      the pool's own addresses down; every other branch stays within the old pre-allocation and the
      free addresses of the subnet. */
  lemma NewRangesMeaning(sub: SubnetSpec, controlled: Controlled, name: Name, pool: PoolObject, desired: nat, reserved: seq<IPRange>)
    requires InputsSound(sub, controlled, pool)
    ensures var r := NewRanges(sub, controlled, name, pool, desired, reserved);
      r.Ok? ==>
        && AllOrdered(r.value) && Distinct(Flatten(r.value)) && |Flatten(r.value)| == desired && Listable(sub.block.fam, r.value)
        && (if Repairs(controlled, name, pool, desired)
            then AddressesOf(r.value) == AddressesOf(pool.spec) - Discarded(Flatten(pool.spec), pool.inUse, desired)
            else AddressesOf(r.value) <=
                   (if name in controlled then AddressesOf(controlled[name]) else {}) + (Elems(TotalIPs(sub)) - Used(controlled)))
  {
    hide NewRanges, Counted, Shrunk, Extended, Lists, TotalIPs, Distinct, Flatten, Used, Discarded, Listable;
    var fam := sub.block.fam;
    NewRangesCases(sub, controlled, name, pool, desired, reserved);
    if name !in controlled {
      NoneDistinct();
      ExtendedMeaning(sub, controlled, [], desired, reserved);
      CountedExtended(sub, controlled, name, [], desired, reserved);
    } else {
      EntryIsUsed(controlled, name);
      var entry := Flatten(controlled[name]);
      if desired == |entry| {
        ShrunkMeaning(fam, Flatten(pool.spec), pool.inUse, desired);
        CountedShrunk(fam, controlled, name, pool.spec, pool.inUse, desired);
      } else if desired < |entry| {
        ShrunkMeaning(fam, entry, pool.inUse, desired);
        CountedShrunk(fam, controlled, name, controlled[name], pool.inUse, desired);
      } else {
        ListableBelow(fam, controlled[name]);
        ExtendedMeaning(sub, controlled, entry, desired - |entry|, reserved);
        CountedExtended(sub, controlled, name, entry, desired - |entry|, reserved);
      }
    }
  }

  lemma ListableBelow(fam: Family, rs: seq<IPRange>)
    requires Listable(fam, rs)
    ensures forall a | a in Flatten(rs) :: a < Limit(fam)
  {
  }

  /** The pool is created or grows. */
  predicate Takes(controlled: Controlled, name: Name, desired: nat) {
    desired > |Before(controlled, name)| || name !in controlled
  }

  function Before(controlled: Controlled, name: Name): seq<nat> {
    if name in controlled then Flatten(controlled[name]) else []
  }

  /** The addresses that can be taken. */
  function FreeFor(sub: SubnetSpec, controlled: Controlled, reserved: seq<nat>): set<nat> {
    Elems(TotalIPs(sub)) - Used(controlled) - Elems(reserved)
  }

  /** What is taken, before it is counted. */
  ghost function Extension(sub: SubnetSpec, controlled: Controlled, name: Name, desired: nat, reserved: seq<IPRange>): Result<seq<IPRange>, Error>
    requires Takes(controlled, name, desired)
  {
    Extended(sub, controlled, Before(controlled, name), desired - |Before(controlled, name)|, reserved)
  }

  /** A create or a grow never returns: something it reads is never listed, or what it takes is too long for a
      slice or holds both top addresses of the family and is never counted. */
  ghost predicate NeverTakes(sub: SubnetSpec, controlled: Controlled, name: Name, desired: nat, reserved: seq<IPRange>)
    requires Takes(controlled, name, desired)
  {
    var lists, taken := Lists(sub, controlled, reserved), Extension(sub, controlled, name, desired, reserved);
    || lists.NeverReturns?
    || (lists.Returns? && |FreeFor(sub, controlled, lists.value)| >= desired - |Before(controlled, name)| && desired > MAX_SLICE)
    || (taken.Ok? && TopsIn(sub.block.fam, Flatten(taken.value)))
  }

  /** Pre-allocation panics on a capacity, or never returns, exactly when it creates or grows an entry and one of
      the lists it reads does so, or what it takes cannot be held or counted. */
  lemma NewRangesAnswers(sub: SubnetSpec, controlled: Controlled, name: Name, pool: PoolObject, desired: nat, reserved: seq<IPRange>)
    requires InputsSound(sub, controlled, pool)
    ensures var r := NewRanges(sub, controlled, name, pool, desired, reserved);
      && (r == Err(CapacityRefused) <==> Takes(controlled, name, desired) && Lists(sub, controlled, reserved).Panics?)
      && (r == Err(NoAnswer) <==> Takes(controlled, name, desired) && NeverTakes(sub, controlled, name, desired, reserved))
  {
    hide NewRanges, Counted, Shrunk, Extended, Lists, TotalIPs, Distinct, Flatten, Used, Elems, Discarded, Listable, Below, SubnetOk, AllOrdered;
    var fam, before := sub.block.fam, Before(controlled, name);
    NewRangesCases(sub, controlled, name, pool, desired, reserved);
    if name in controlled {
      ListableBelow(fam, controlled[name]);
      EntryIsUsed(controlled, name);
      ShrunkErrors(fam, before, pool.inUse, desired);
      ShrunkErrors(fam, Flatten(pool.spec), pool.inUse, desired);
    }
    if Takes(controlled, name, desired) {
      NoneDistinct();
      ExtendedMeaning(sub, controlled, before, desired - |before|, reserved);
      CountedExtended(sub, controlled, name, before, desired - |before|, reserved);
    }
  }

  lemma ShrunkErrors(fam: Family, from: seq<nat>, inUse: set<nat>, desired: nat)
    ensures Shrunk(fam, from, inUse, desired).Err? ==>
      Shrunk(fam, from, inUse, desired).error == FreeIPsNotEnough || Shrunk(fam, from, inUse, desired).error == SliceOutOfRange
  {
  }

  /** The reservation of both top v4 addresses, as it is stored, stops every create and grow on every v4 subnet. */
  lemma ReservedTopsHang(sub: SubnetSpec, controlled: Controlled, name: Name, pool: PoolObject, desired: nat)
    requires InputsSound(sub, controlled, pool) && sub.block.fam == V4 && Takes(controlled, name, desired)
    requires ParseUsed(V4, controlled).Returns? && Assembled(sub).Returns?
    ensures var stored := Merged(V4, [One(P32 - 2), One(P32 - 1)]);
      stored.Returns? && NewRanges(sub, controlled, name, pool, desired, stored.value) == Err(NoAnswer)
  {
    hide NewRanges, ParseUsed, Assembled, InputsSound, ParseAll, Extension;
    MergeHangs();
    NewRangesAnswers(sub, controlled, name, pool, desired, Merged(V4, [One(P32 - 2), One(P32 - 1)]).value);
  }

  lemma NoneDistinct()
    ensures Distinct([]) && Elems([]) == {}
  {
  }

  // ----- Pre-allocations stay apart -----

  ghost predicate InSubnet(total: seq<nat>, controlled: Controlled) {
    Used(controlled) <= Elems(total)
  }

  /** Every address of the pool that has been given to another pool meanwhile is unallocated and low
      enough to be among the discarded ones. */
  predicate RepairSafe(controlled: Controlled, name: Name, pool: PoolObject, desired: nat) {
    AddressesOf(pool.spec) * Used(controlled - {name}) <= Discarded(Flatten(pool.spec), pool.inUse, desired)
  }

  /** Every branch keeps the pre-allocations disjoint and inside the subnet, a repair exactly when it is safe. */
  lemma NewRangesKeepApart(sub: SubnetSpec, controlled: Controlled, name: Name, pool: PoolObject, desired: nat, reserved: seq<IPRange>)
    requires InputsSound(sub, controlled, pool) && EntriesApart(controlled) && InSubnet(TotalIPs(sub), controlled)
    requires AddressesOf(pool.spec) <= Elems(TotalIPs(sub))
    ensures var r := NewRanges(sub, controlled, name, pool, desired, reserved);
      r.Ok? ==>
        && EntriesDistinct(controlled[name := r.value]) && InSubnet(TotalIPs(sub), controlled[name := r.value])
        && (EntriesApart(controlled[name := r.value]) <==>
              (Repairs(controlled, name, pool, desired) ==> RepairSafe(controlled, name, pool, desired)))
  {
    hide NewRanges, Flatten, Distinct, Elems, Used, Discarded, Repairs, Listable, TotalIPs;
    NewRangesMeaning(sub, controlled, name, pool, desired, reserved);
    var r := NewRanges(sub, controlled, name, pool, desired, reserved);
    if r.Ok? {
      var others := controlled - {name};
      var after := controlled[name := r.value];
      assert after == others[name := r.value];
      UsedUnion(others, name, r.value);
      UsedOthers(controlled, name);
      InsertApart(others, name, r.value);
      if name in controlled { EntryIsUsed(controlled, name); }
    }
  }

  lemma UsedOthers(controlled: Controlled, name: Name)
    requires EntriesApart(controlled)
    ensures var others := controlled - {name};
      && EntriesApart(others) && Used(others) <= Used(controlled)
      && (name in controlled ==> Used(others) !! AddressesOf(controlled[name]))
  {
  }

  lemma InsertApart(others: Controlled, name: Name, rs: seq<IPRange>)
    requires name !in others && EntriesApart(others)
    ensures EntriesApart(others[name := rs]) <==> AddressesOf(rs) !! Used(others)
  {
    hide Flatten;
    var after := others[name := rs];
    if AddressesOf(rs) !! Used(others) {
      forall p, q | p in after && q in after && p != q ensures AddressesOf(after[p]) !! AddressesOf(after[q]) {
        if p == name { EntryIsUsed(others, q); } else if q == name { EntryIsUsed(others, p); }
      }
    }
    if EntriesApart(after) {
      UsedApart(others, name, rs);
    }
  }

  /** Conservation: every address of the subnet is free or pre-allocated. */
  lemma Conservation(total: seq<nat>, controlled: Controlled)
    requires Distinct(total) && InSubnet(total, controlled)
    ensures |total| == |FreeIPs(total, controlled)| + |Used(controlled)|
  {
    hide Distinct, Elems, FreeIPs, Used;
    FreeMeaning(total, controlled, {});
    SizeOfElems(total);
    SizeOfElems(FreeIPs(total, controlled));
    Cut(Elems(total), Used(controlled));
  }
}
