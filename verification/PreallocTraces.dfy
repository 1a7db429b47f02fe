/** Runs that show what interrupted reconciles can lead to. */
module PreallocTraces {
  import opened Wrappers
  import opened Address
  import opened Ranges
  import C = Cidr
  import AddressLists
  import opened Prealloc
  import opened PreallocRun
  import opened PreallocRecovery

  /** A subnet of `n` addresses that does not hold both top ones of its family. */
  predicate SmallSubnet(env: SubnetSpec, n: nat) {
    SubnetOk(env) && |TotalIPs(env)| == n && !TopsIn(env.block.fam, TotalIPs(env))
  }

  function Total(env: SubnetSpec): set<nat> {
    C.Elems(TotalIPs(env))
  }

  function Held(s: Sys, name: Name): set<nat> {
    if name in s.controlled then AddressesOf(s.controlled[name]) else {}
  }

  // ----- What single pre-allocations do -----

  /** With nothing reserved, everything a create or a grow reads is listed. */
  lemma NothingReservedLists(env: SubnetSpec, s: Sys)
    requires Sound(env, s) && TotalIPs(env) != [] && s.count <= MAX_SLICE
    ensures Lists(env, s.controlled, []) == Returns([])
  {
    hide Assembled, SumSizes, ParseEntries, Listable, C.Distinct, SubnetOk;
    EntriesParse(env.block.fam, s.controlled);
  }

  /** A create or a grow takes the lowest free addresses. */
  lemma GrowResult(env: SubnetSpec, s: Sys, name: Name, desired: nat) returns (rs: seq<IPRange>)
    requires Sound(env, s) && !TopsIn(env.block.fam, TotalIPs(env)) && Used(s.controlled) <= Total(env)
    requires s.count <= MAX_SLICE && desired <= MAX_SLICE
    requires desired > |Held(s, name)| && |Total(env) - Used(s.controlled)| >= desired - |Held(s, name)|
    ensures NewRangesFor(env, s, name, ObjectOf(s, name).(inUse := {}), desired, []) == Ok(rs)
    ensures var taken := AddressesOf(rs) - Held(s, name); var free := Total(env) - Used(s.controlled);
      && Held(s, name) <= AddressesOf(rs) && taken <= free && Below(taken, free - taken)
    ensures |AddressesOf(rs)| == desired && |Flatten(rs)| == desired
  {
    hide NewRanges, Counted, Extended, Flatten, C.Distinct, C.Elems, Used, Listable, SumSizes, ParseAll, Below, Lists, TotalIPs, SubnetOk;
    NotEmpty(Total(env) - Used(s.controlled), TotalIPs(env));
    NothingReservedLists(env, s);
    ObjectSound(env, s, name, {});
    NewRangesCases(env, s.controlled, name, ObjectOf(s, name).(inUse := {}), desired, []);
    var before := if name in s.controlled then Flatten(s.controlled[name]) else [];
    NoneDistinct();
    if name in s.controlled {
      EntryIsUsed(s.controlled, name);
      ListableBelow(env.block.fam, s.controlled[name]);
    }
    SizeOfElems(before);
    var n := desired - |before|;
    ExtendedMeaning(env, s.controlled, before, n, []);
    CountedExtended(env, s.controlled, name, before, n, []);
    assert Total(env) - Used(s.controlled) - C.Elems([]) == Total(env) - Used(s.controlled);
    rs := Extended(env, s.controlled, before, n, []).value;
    TopsInside(env.block.fam, Flatten(rs), TotalIPs(env));
    SizeOfElems(Flatten(rs));
    var free := Total(env) - Used(s.controlled);
    assert free - AddressesOf(rs) == free - (AddressesOf(rs) - Held(s, name));
  }

  lemma NotEmpty(x: set<nat>, total: seq<nat>)
    requires x <= C.Elems(total) && |x| > 0
    ensures total != []
  {
    var a :| a in x;
  }

  /** A shrink of an unallocated entry drops its lowest addresses. */
  lemma ShrinkResult(env: SubnetSpec, s: Sys, name: Name, desired: nat) returns (rs: seq<IPRange>)
    requires Sound(env, s) && name in s.controlled && desired < |Held(s, name)|
    ensures NewRangesFor(env, s, name, ObjectOf(s, name).(inUse := {}), desired, []) == Ok(rs)
    ensures AddressesOf(rs) <= Held(s, name) && Below(Held(s, name) - AddressesOf(rs), AddressesOf(rs))
    ensures |AddressesOf(rs)| == desired && |Flatten(rs)| == desired
  {
    hide NewRanges, Shrunk, Flatten, C.Distinct, C.Elems, Used, Listable, SumSizes, ParseAll, Below, Discarded;
    ObjectSound(env, s, name, {});
    NewRangesCases(env, s.controlled, name, ObjectOf(s, name).(inUse := {}), desired, []);
    var entry := Flatten(s.controlled[name]);
    SizeOfElems(entry);
    ShrunkMeaning(env.block.fam, entry, {}, desired);
    rs := Shrunk(env.block.fam, entry, {}, desired).value;
    SizeOfElems(Flatten(rs));
    DropsOnlyHeld(entry, desired);
    assert AddressesOf(rs) - {} == AddressesOf(rs);
    assert Held(s, name) - AddressesOf(rs) == Discarded(entry, {}, desired);
  }

  lemma DropsOnlyHeld(entry: seq<nat>, desired: nat)
    ensures Discarded(entry, {}, desired) <= C.Elems(entry)
  {
    hide C.Diff, AddressLists.SortAll;
    var free := C.Diff(entry, {});
    AddressLists.SortAllMeaning(free);
    ElemsOfDiff(entry, {});
    var freeIPs, n := AddressLists.SortAll(free), |entry| - desired;
    if 0 <= n <= |freeIPs| {
      forall a | a in freeIPs[..n] ensures a in C.Elems(entry) {
        assert a in C.Elems(freeIPs);
      }
    }
  }


  lemma OneOf(x: set<nat>) returns (a: nat)
    requires |x| == 1
    ensures x == {a}
  {
    a :| a in x;
    FullSubset({a}, x);
  }

  lemma FullSubset(x: set<nat>, y: set<nat>)
    requires x <= y && |x| == |y|
    ensures x == y
  {
    Cut(y, x);
  }

  // ----- The common beginning -----

  /** Pool `a` holds `x` and `y`, the two lowest addresses, and its pre-allocation only `x`. */
  ghost predicate HalfShrunk(env: SubnetSpec, s: Sys, a: Name, x: nat, y: nat) {
    && Sound(env, s) && s.pools.Keys == {a} && s.controlled.Keys == {a} && s.pools[a].inUse == {}
    && AddressesOf(s.pools[a].spec) == {x, y} && |Flatten(s.pools[a].spec)| == 2
    && AddressesOf(s.controlled[a]) == {x} && |Flatten(s.controlled[a])| == 1
    && y < x && {x, y} <= Total(env) && Below({y}, Total(env) - {x, y})
  }

  /** Pool `a` is created with two addresses; its shrink to one stops after the subnet write. */
  lemma ShrinkStops(env: SubnetSpec, a: Name) returns (s1: Sys, s2: Sys, x: nat, y: nat)
    requires SubnetOk(env) && |TotalIPs(env)| >= 2 && !TopsIn(env.block.fam, TotalIPs(env))
    ensures s1 == Apply(env, EMPTY, Reconcile(a, 2, [], true)) && s2 == Apply(env, s1, FirstWrite(a, 1, [], {}))
    ensures HalfShrunk(env, s2, a, x, y)
  {
    hide NewRanges, Flatten, C.Distinct, C.Elems, Used, Listable, SumSizes, ParseAll, Sound, Below, SubnetOk;
    var spec := CreateTwo(env, a);
    s1 := Apply(env, EMPTY, Reconcile(a, 2, [], true));
    var entry := ShrinkResult(env, s1, a, 1);
    s2 := Apply(env, s1, FirstWrite(a, 1, [], {}));
    ParsedSpec(env, s1, a);
    StepSound(env, s1, FirstWrite(a, 1, [], {}));
    assert s1.controlled[a] != entry;
    x := OneOf(AddressesOf(entry));
    Cut(AddressesOf(spec), {x});
    y := OneOf(AddressesOf(spec) - {x});
    assert AddressesOf(spec) == {x} + (AddressesOf(spec) - {x}) == {x, y};
    BelowParts(env, AddressesOf(spec), x, y);
  }

  lemma BelowParts(env: SubnetSpec, spec: set<nat>, x: nat, y: nat)
    requires spec == {x, y} && Below(spec, Total(env) - spec) && Below(spec - {x}, {x}) && x != y
    ensures y < x && Below({y}, Total(env) - {x, y})
  {
    assert y in spec - {x};
  }

  lemma ParsedSpec(env: SubnetSpec, s: Sys, name: Name)
    requires Sound(env, s)
    ensures ParseAll(env.block.fam, ObjectOf(s, name).spec) == Returns(Flatten(ObjectOf(s, name).spec))
  {
    ObjectSound(env, s, name, {});
  }

  lemma CreateTwo(env: SubnetSpec, a: Name) returns (rs: seq<IPRange>)
    requires SubnetOk(env) && |TotalIPs(env)| >= 2 && !TopsIn(env.block.fam, TotalIPs(env))
    ensures var s := Apply(env, EMPTY, Reconcile(a, 2, [], true));
      && Sound(env, s) && s.pools == map[a := PoolObject(rs, {})] && s.controlled == map[a := rs]
    ensures |AddressesOf(rs)| == 2 && |Flatten(rs)| == 2 && AddressesOf(rs) <= Total(env)
    ensures Below(AddressesOf(rs), Total(env) - AddressesOf(rs))
  {
    hide NewRanges, Flatten, C.Distinct, C.Elems, Used, Listable, SumSizes, ParseAll, Below;
    EmptySound(env);
    NothingUsed();
    TotalSound(env);
    SizeOfElems(TotalIPs(env));
    rs := GrowResult(env, EMPTY, a, 2);
    ParsedSpec(env, EMPTY, a);
    StepSound(env, EMPTY, Reconcile(a, 2, [], true));
    assert ObjectOf(EMPTY, a).(inUse := {}) == ObjectOf(EMPTY, a);
    assert Clear(EMPTY, a, AddressesOf(rs));
    assert AddressesOf(rs) - {} == AddressesOf(rs) && Total(env) - {} == Total(env);
  }

  lemma EmptySound(env: SubnetSpec)
    requires SubnetOk(env)
    ensures Sound(env, EMPTY)
  {
    SumOfNothing(env.block.fam);
  }

  lemma UsedOfOne(controlled: Controlled, a: Name)
    requires controlled.Keys == {a}
    ensures Used(controlled) == AddressesOf(controlled[a])
  {
  }

  lemma CountOfApart(env: SubnetSpec, s: Sys)
    requires Sound(env, s) && EntriesApart(s.controlled)
    ensures s.count == |Used(s.controlled)|
  {
    hide Listable, SumSizes, C.Distinct, Used, EntriesApart, SubnetOk;
    SumCountsUsed(env.block.fam, s.controlled);
  }

  lemma OneEntryApart(controlled: Controlled, a: Name)
    requires controlled.Keys == {a}
    ensures EntriesApart(controlled)
  {
    hide AddressesOf;
  }

  /** The next address given out, to pool `b`, is the one pool `a` has not given up yet. */
  lemma GiveAway(env: SubnetSpec, s: Sys, a: Name, b: Name, x: nat, y: nat) returns (rs: seq<IPRange>)
    requires HalfShrunk(env, s, a, x, y) && !TopsIn(env.block.fam, TotalIPs(env)) && a != b
    ensures NewRangesFor(env, s, b, ObjectOf(s, b), 1, []) == Ok(rs)
    ensures AddressesOf(rs) == {y} && |Flatten(rs)| == 1
  {
    hide NewRanges, Flatten, C.Distinct, C.Elems, Used, Listable, SumSizes, ParseAll, Below, Sound;
    UsedOfOne(s.controlled, a);
    OneEntryApart(s.controlled, a);
    CountOfApart(env, s);
    var free := Total(env) - {x};
    assert y in free;
    AtLeastOne(free, y);
    rs := GrowResult(env, s, b, 1);
    assert ObjectOf(s, b).(inUse := {}) == ObjectOf(s, b);
    var z := OneOf(AddressesOf(rs));
    LowestIs(free, z, y, x, Total(env)) by { assert AddressesOf(rs) - {} == {z}; }
  }

  lemma AtLeastOne(x: set<nat>, a: nat)
    requires a in x
    ensures |x| >= 1
  {
  }

  lemma LowestIs(free: set<nat>, z: nat, y: nat, x: nat, total: set<nat>)
    requires free == total - {x} && {x, y} <= total && y < x && Below({y}, total - {x, y})
    requires z in free && Below({z}, free - {z})
    ensures z == y
  {
    assert y in free;
    assert z != y ==> z in total - {x, y} && y in free - {z};
  }

  // ----- An interruption that breaks conservation -----

  /** A subnet of two addresses. Pool `a` takes both; its shrink to one stops after the subnet write; pool
      `b` is given the other address; a pod gets exactly that address from `a`, whose spec still holds it.
      The repair of `a` then pre-allocates the address a second time. */
  lemma InterruptedShrinkOverlaps(env: SubnetSpec, a: Name, b: Name) returns (states: seq<Sys>, steps: seq<Step>)
    requires SmallSubnet(env, 2) && a != b
    ensures IsRun(env, states, steps) && states[0] == EMPTY
    ensures !EntriesApart(states[|steps|].controlled)
  {
    hide NewRanges, Flatten, C.Distinct, C.Elems, Used, EntriesApart, Sound, Below, ParseAll, SumSizes;
    var s1, s2, x, y := ShrinkStops(env, a);
    var rs := GiveAway(env, s2, a, b, x, y);
    var s3 := Apply(env, s2, Reconcile(b, 1, [], true));
    ParsedSpec(env, s2, b);
    StepSound(env, s2, Reconcile(b, 1, [], true));
    assert !Clear(s2, b, {y});
    var s4 := Apply(env, s3, Occupy(a, y));
    StepSound(env, s3, Occupy(a, y));
    var s5 := Apply(env, s4, Reconcile(a, 1, [], false));
    RepairOverlaps(env, s4, a, b, x, y);
    states := [EMPTY, s1, s2, s3, s4, s5];
    steps := [Reconcile(a, 2, [], true), FirstWrite(a, 1, [], {}), Reconcile(b, 1, [], true), Occupy(a, y), Reconcile(a, 1, [], false)];
    hide Apply;
  }

  lemma RepairOverlaps(env: SubnetSpec, s: Sys, a: Name, b: Name, x: nat, y: nat)
    requires Sound(env, s) && a != b && a in s.controlled && b in s.controlled && a in s.pools && x != y
    requires AddressesOf(s.controlled[a]) == {x} && AddressesOf(s.controlled[b]) == {y}
    requires AddressesOf(s.pools[a].spec) == {x, y} && s.pools[a].inUse == {y}
    ensures !EntriesApart(Apply(env, s, Reconcile(a, 1, [], false)).controlled)
  {
    hide NewRanges, Shrunk, Flatten, C.Distinct, C.Elems, Used, Discarded, Listable, SumSizes, ParseAll, Clear;
    var s' := Apply(env, s, Reconcile(a, 1, [], false));
    var entry, spec := Flatten(s.controlled[a]), Flatten(s.pools[a].spec);
    ObjectSound(env, s, a, {y});
    assert s.pools[a].(inUse := {y}) == s.pools[a];
    NewRangesCases(env, s.controlled, a, s.pools[a], 1, []);
    SizeOfElems(entry);
    SizeOfElems(spec);
    MissingMeansRepair(entry, {y}, y);
    ShrunkMeaning(env.block.fam, spec, {y}, 1);
    assert y in AddressesOf(s'.controlled[a]) && y in AddressesOf(s'.controlled[b]);
  }

  lemma MissingMeansRepair(entry: seq<nat>, inUse: set<nat>, y: nat)
    requires y in inUse && y !in C.Elems(entry)
    ensures NeedsRepair(entry, inUse)
  {
  }

  // ----- A rerun that is refused -----

  /** The same beginning. Pool `b`, settled before, is given the other address and stops after the subnet
      write; its rerun is refused, because the spec of `a` still holds the address. */
  lemma RerunRefused(env: SubnetSpec, a: Name, b: Name) returns (states: seq<Sys>, steps: seq<Step>)
    requires SmallSubnet(env, 2) && a != b
    ensures IsRun(env, states, steps) && states[0] == EMPTY && |steps| == 4
    ensures Settled(states[2], b) && steps[2] == FirstWrite(b, 1, [], {}) && Pending(states[3], b, 1)
    ensures steps[3] == Reconcile(b, 1, [], true) && ObjectOf(states[3], b).inUse == {} && !Reconciled(states[4], b, 1)
  {
    hide NewRanges, Flatten, C.Distinct, C.Elems, Used, Sound, Below, ParseAll, SumSizes;
    var s1, s2, x, y := ShrinkStops(env, a);
    var rs := GiveAway(env, s2, a, b, x, y);
    var s3 := Apply(env, s2, FirstWrite(b, 1, [], {}));
    assert ObjectOf(s2, b).(inUse := {}) == ObjectOf(s2, b);
    ParsedSpec(env, s2, b);
    StepSound(env, s2, FirstWrite(b, 1, [], {}));
    var s4 := Apply(env, s3, Reconcile(b, 1, [], true));
    ReconcilePending(env, s3, b, 1, [], true);
    TargetWithoutRepair(s3, b, 1);
    assert !Clear(s3, b, {y});
    states := [EMPTY, s1, s2, s3, s4];
    steps := [Reconcile(a, 2, [], true), FirstWrite(a, 1, [], {}), FirstWrite(b, 1, [], {}), Reconcile(b, 1, [], true)];
    hide Apply;
  }

  // ----- A panic -----

  /** A subnet of four addresses. Pool `a` takes two; its shrink to one and then its growth to three stop after
      the subnet write, and in between the address given up goes to pool `b`; a pod gets exactly that address
      from `a`. Reconciling `a` to three again slices out of range, since its spec holds only two. */
  lemma InterruptedGrowthPanics(env: SubnetSpec, a: Name, b: Name) returns (states: seq<Sys>, steps: seq<Step>)
    requires SmallSubnet(env, 4) && a != b
    ensures IsRun(env, states, steps) && states[0] == EMPTY
    ensures var s := states[|steps|]; NewRangesFor(env, s, a, ObjectOf(s, a), 3, []) == Err(SliceOutOfRange)
  {
    hide NewRanges, Flatten, C.Distinct, C.Elems, Used, Sound, Below, ParseAll, SumSizes;
    var s1, s2, x, y := ShrinkStops(env, a);
    var rs := GiveAway(env, s2, a, b, x, y);
    var s3 := Apply(env, s2, FirstWrite(b, 1, [], {}));
    assert ObjectOf(s2, b).(inUse := {}) == ObjectOf(s2, b);
    ParsedSpec(env, s2, b);
    StepSound(env, s2, FirstWrite(b, 1, [], {}));
    var grown := GrowToThree(env, s3, a, b, x, y);
    var s4 := Apply(env, s3, FirstWrite(a, 3, [], {}));
    ParsedSpec(env, s3, a);
    StepSound(env, s3, FirstWrite(a, 3, [], {}));
    var s5 := Apply(env, s4, Occupy(a, y));
    StepSound(env, s4, Occupy(a, y));
    RepairPanics(env, s5, a, x, y);
    states := [EMPTY, s1, s2, s3, s4, s5];
    steps := [Reconcile(a, 2, [], true), FirstWrite(a, 1, [], {}), FirstWrite(b, 1, [], {}), FirstWrite(a, 3, [], {}), Occupy(a, y)];
    hide Apply;
  }

  lemma GrowToThree(env: SubnetSpec, s: Sys, a: Name, b: Name, x: nat, y: nat) returns (rs: seq<IPRange>)
    requires Sound(env, s) && SmallSubnet(env, 4) && a != b && s.controlled.Keys == {a, b} && x != y && {x, y} <= Total(env)
    requires AddressesOf(s.controlled[a]) == {x} && AddressesOf(s.controlled[b]) == {y}
    ensures NewRangesFor(env, s, a, ObjectOf(s, a).(inUse := {}), 3, []) == Ok(rs)
    ensures |Flatten(rs)| == 3 && y !in AddressesOf(rs)
  {
    hide NewRanges, Flatten, C.Distinct, C.Elems, Used, Listable, SumSizes, ParseAll, Below, Sound;
    UsedOfTwo(s.controlled, a, b);
    CountOfApart(env, s) by { TwoEntriesApart(s.controlled, a, b); }
    TotalSound(env);
    SizeOfElems(TotalIPs(env));
    Cut(Total(env), {x, y});
    rs := GrowResult(env, s, a, 3);
  }

  lemma TwoEntriesApart(controlled: Controlled, a: Name, b: Name)
    requires controlled.Keys == {a, b} && AddressesOf(controlled[a]) !! AddressesOf(controlled[b])
    ensures EntriesApart(controlled)
  {
    hide AddressesOf;
  }

  lemma UsedOfTwo(controlled: Controlled, a: Name, b: Name)
    requires controlled.Keys == {a, b}
    ensures Used(controlled) == AddressesOf(controlled[a]) + AddressesOf(controlled[b])
  {
  }

  lemma RepairPanics(env: SubnetSpec, s: Sys, a: Name, x: nat, y: nat)
    requires Sound(env, s) && a in s.controlled && a in s.pools && s.pools[a].inUse == {y}
    requires |Flatten(s.controlled[a])| == 3 && y !in AddressesOf(s.controlled[a]) && |Flatten(s.pools[a].spec)| == 2
    ensures NewRangesFor(env, s, a, ObjectOf(s, a), 3, []) == Err(SliceOutOfRange)
  {
    hide NewRanges, Shrunk, Flatten, C.Distinct, C.Elems, Used, Discarded, Listable, SumSizes, ParseAll;
    InUseInside(env, s, a);
    ObjectSound(env, s, a, {y});
    assert s.pools[a].(inUse := {y}) == s.pools[a];
    NewRangesCases(env, s.controlled, a, s.pools[a], 3, []);
    MissingMeansRepair(Flatten(s.controlled[a]), {y}, y);
    ShrunkMeaning(env.block.fam, Flatten(s.pools[a].spec), {y}, 3);
  }
}
