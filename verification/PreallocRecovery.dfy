/** Runs of reconciles over one subnet. A reconcile writes the subnet status first and the pool
    second, and may stop in between. */
module PreallocRecovery {
  import opened Wrappers
  import opened Address
  import opened Ranges
  import opened Cidr
  import opened AddressLists
  import opened Prealloc
  import opened PreallocRun

  /** The stored objects: the subnet's status with its AllocatedIPCount, and the pools. */
  datatype Sys = Sys(controlled: Controlled, pools: map<Name, PoolObject>, count: nat)

  /** `seen` is the set of allocated addresses a reconcile has read, possibly out of date. */
  datatype Step =
    | FirstWrite(name: Name, desired: nat, reserved: seq<IPRange>, seen: set<nat>)
    | Reconcile(name: Name, desired: nat, reserved: seq<IPRange>, labelsMatch: bool)
    | Occupy(name: Name, ip: nat)
    | Vacate(name: Name, ip: nat)

  const EMPTY: Sys := Sys(map[], map[], 0)

  /** The pool object reconcile works on; a pool to be created has no addresses yet. */
  function ObjectOf(s: Sys, name: Name): PoolObject {
    if name in s.pools then s.pools[name] else PoolObject([], {})
  }

  ghost function NewRangesFor(env: SubnetSpec, s: Sys, name: Name, pool: PoolObject, desired: nat, reserved: seq<IPRange>): Result<seq<IPRange>, Error> {
    NewRanges(env, s.controlled, name, pool, desired, reserved)
  }

  /** No other pool's spec holds one of the addresses. */
  predicate Clear(s: Sys, name: Name, addresses: set<nat>) {
    forall n | n in s.pools && n != name :: AddressesOf(s.pools[n].spec) !! addresses
  }

  /** Admission of the second write: no allocated address is lost and no other pool overlaps. */
  predicate Admitted(s: Sys, name: Name, rs: seq<IPRange>) {
    ObjectOf(s, name).inUse <= AddressesOf(rs) && Clear(s, name, AddressesOf(rs))
  }

  /** The first write; reusing the entry writes nothing. */
  ghost function WithEntry(env: SubnetSpec, s: Sys, name: Name, rs: seq<IPRange>): Sys {
    if name in s.controlled && s.controlled[name] == rs then s
    else
      var controlled := s.controlled[name := rs];
      s.(controlled := controlled, count := SumSizes(env.block.fam, controlled))
  }

  /** `FirstWrite` is a reconcile that stops after the subnet status, because it crashed or because its
      view of the pool was out of date; `Reconcile` goes on to the pool. Both parse the pool's spec first,
      and one that never returns writes nothing. */
  ghost function Apply(env: SubnetSpec, s: Sys, step: Step): Sys {
    match step
    case FirstWrite(name, desired, reserved, seen) =>
      var pool := ObjectOf(s, name).(inUse := seen);
      if !(seen <= AddressesOf(pool.spec)) || !ParseAll(env.block.fam, pool.spec).Returns? then s
      else (match NewRangesFor(env, s, name, pool, desired, reserved)
        case Err(_) => s
        case Ok(rs) => WithEntry(env, s, name, rs))
    case Reconcile(name, desired, reserved, labelsMatch) =>
      var pool := ObjectOf(s, name);
      var poolIPs := ParseAll(env.block.fam, pool.spec);
      if !poolIPs.Returns? || (name in s.pools && |poolIPs.value| == desired && labelsMatch) then s
      else (match NewRangesFor(env, s, name, pool, desired, reserved)
        case Err(_) => s
        case Ok(rs) =>
          if Admitted(s, name, rs)
          then WithEntry(env, s, name, rs).(pools := s.pools[name := PoolObject(rs, pool.inUse)])
          else WithEntry(env, s, name, rs))
    case Occupy(name, ip) =>
      if name in s.pools && ip in AddressesOf(s.pools[name].spec)
      then s.(pools := s.pools[name := s.pools[name].(inUse := s.pools[name].inUse + {ip})]) else s
    case Vacate(name, ip) =>
      if name in s.pools then s.(pools := s.pools[name := s.pools[name].(inUse := s.pools[name].inUse - {ip})]) else s
  }

  ghost predicate IsRun(env: SubnetSpec, states: seq<Sys>, steps: seq<Step>) {
    |states| == |steps| + 1 && forall i :: 0 <= i < |steps| ==> states[i + 1] == Apply(env, states[i], steps[i])
  }

  /** Entries and specs are listed as distinct addresses, and the count is the sum of the entries' sizes. */
  ghost predicate Sound(env: SubnetSpec, s: Sys) {
    && SubnetOk(env) && EntriesListable(env.block.fam, s.controlled) && EntriesDistinct(s.controlled)
    && (forall n | n in s.pools :: Listable(env.block.fam, s.pools[n].spec) && PoolSound(s.pools[n]))
    && s.count == SumSizes(env.block.fam, s.controlled)
  }

  lemma ObjectSound(env: SubnetSpec, s: Sys, name: Name, seen: set<nat>)
    requires Sound(env, s) && seen <= AddressesOf(ObjectOf(s, name).spec)
    ensures InputsSound(env, s.controlled, ObjectOf(s, name).(inUse := seen))
    ensures ParseAll(env.block.fam, ObjectOf(s, name).spec) == Returns(Flatten(ObjectOf(s, name).spec))
  {
    hide Distinct, EntriesListable, EntriesDistinct, SumSizes;
    NothingListed(env.block.fam);
    RegularParses(env.block.fam, ObjectOf(s, name).spec);
  }

  lemma NothingListed(fam: Family)
    ensures Listable(fam, []) && Distinct(Flatten([]))
  {
  }

  lemma StepSound(env: SubnetSpec, s: Sys, step: Step)
    requires Sound(env, s)
    ensures Sound(env, Apply(env, s, step))
  {
    hide NewRanges, Flatten, Distinct, Elems, Used, ParseAll, Listable, SumSizes;
    if step.FirstWrite? && step.seen <= AddressesOf(ObjectOf(s, step.name).spec) {
      var pool := ObjectOf(s, step.name).(inUse := step.seen);
      ObjectSound(env, s, step.name, step.seen);
      NewRangesMeaning(env, s.controlled, step.name, pool, step.desired, step.reserved);
    } else if step.Reconcile? {
      InUseInside(env, s, step.name);
      ObjectSound(env, s, step.name, ObjectOf(s, step.name).inUse);
      NewRangesMeaning(env, s.controlled, step.name, ObjectOf(s, step.name), step.desired, step.reserved);
    }
  }

  lemma InUseInside(env: SubnetSpec, s: Sys, name: Name)
    requires Sound(env, s)
    ensures ObjectOf(s, name).inUse <= AddressesOf(ObjectOf(s, name).spec)
  {
  }

  // ----- Recovery from an interrupted reconcile -----

  /** Spec and pre-allocation of the pool are the same addresses, or neither exists. */
  predicate Settled(s: Sys, name: Name) {
    && (name in s.pools <==> name in s.controlled)
    && (name in s.pools ==> AddressesOf(s.pools[name].spec) == AddressesOf(s.controlled[name]))
  }

  predicate Nested(x: set<nat>, y: set<nat>) {
    x <= y || y <= x
  }

  /** The pre-allocation already has the desired size; the pool may lag behind it. */
  predicate Pending(s: Sys, name: Name, desired: nat) {
    && name in s.controlled && |Flatten(s.controlled[name])| == desired
    && (name in s.pools ==> Nested(AddressesOf(s.pools[name].spec), AddressesOf(s.controlled[name])))
  }

  /** The step leaves the pool's desired number alone. */
  predicate SameTarget(step: Step, name: Name, desired: nat) {
    (step.FirstWrite? || step.Reconcile?) && step.name == name ==> step.desired == desired
  }

  /** What a pre-allocation makes of a settled or pending state. */
  ghost predicate LeadsToPending(env: SubnetSpec, s: Sys, name: Name, seen: set<nat>, desired: nat, reserved: seq<IPRange>) {
    var r := NewRangesFor(env, s, name, ObjectOf(s, name).(inUse := seen), desired, reserved);
    && (r.Ok? ==> Pending(WithEntry(env, s, name, r.value), name, desired) && seen <= AddressesOf(r.value))
    && (Pending(s, name, desired) ==> (r.Ok? <==> |seen| <= desired) && (r.Err? ==> r == Err(FreeIPsNotEnough)))
    && r != Err(SliceOutOfRange)
    && (r == Err(WrongInput) <==> Takes(s.controlled, name, desired) && Lists(env, s.controlled, reserved).Fails?)
  }

  /** From a settled or pending state a pre-allocation, whatever allocations it has seen, leads to a pending
      one that holds those allocations; from a pending state it fails exactly when more addresses than
      desired are allocated. It never slices out of range, and finds its input wrong exactly when it takes
      addresses and the subnet's or the reserved ranges cannot be parsed. */
  lemma PreAllocationPending(env: SubnetSpec, s: Sys, name: Name, seen: set<nat>, desired: nat, reserved: seq<IPRange>)
    requires Sound(env, s) && (Settled(s, name) || Pending(s, name, desired))
    requires seen <= AddressesOf(ObjectOf(s, name).spec)
    ensures LeadsToPending(env, s, name, seen, desired, reserved)
  {
    hide Sound, Settled, Pending, Flatten, ObjectOf, LeadsToPending;
    if name !in s.controlled {
      CreatePending(env, s, name, seen, desired, reserved);
    } else if desired == |Flatten(s.controlled[name])| {
      RepairPending(env, s, name, seen, desired, reserved);
    } else {
      ResizePending(env, s, name, seen, desired, reserved);
    }
  }

  lemma CreatePending(env: SubnetSpec, s: Sys, name: Name, seen: set<nat>, desired: nat, reserved: seq<IPRange>)
    requires Sound(env, s) && (Settled(s, name) || Pending(s, name, desired))
    requires seen <= AddressesOf(ObjectOf(s, name).spec) && name !in s.controlled
    ensures LeadsToPending(env, s, name, seen, desired, reserved)
  {
    hide NewRanges, Counted, Extended, Distinct, Flatten, Used, Elems, Listable, SumSizes, ParseAll, Lists, TotalIPs, SubnetOk, Below;
    ObjectSound(env, s, name, seen);
    NewRangesCases(env, s.controlled, name, ObjectOf(s, name).(inUse := seen), desired, reserved);
    NoneDistinct();
    NoAddresses();
    ExtendedMeaning(env, s.controlled, [], desired, reserved);
    CountedExtended(env, s.controlled, name, [], desired, reserved);
  }

  lemma RepairPending(env: SubnetSpec, s: Sys, name: Name, seen: set<nat>, desired: nat, reserved: seq<IPRange>)
    requires Sound(env, s) && (Settled(s, name) || Pending(s, name, desired))
    requires seen <= AddressesOf(ObjectOf(s, name).spec) && name in s.controlled
    requires desired == |Flatten(s.controlled[name])|
    ensures LeadsToPending(env, s, name, seen, desired, reserved)
  {
    hide NewRanges, Shrunk, Distinct, Flatten, Used, Elems, Discarded, Listable, SumSizes, ParseAll;
    var pool := ObjectOf(s, name).(inUse := seen);
    ObjectSound(env, s, name, seen);
    NewRangesCases(env, s.controlled, name, pool, desired, reserved);
    EntryIsUsed(s.controlled, name);
    RepairCase(env, s, name, pool, desired);
    ShrunkMeaning(env.block.fam, Flatten(pool.spec), seen, desired);
    if seen <= AddressesOf(s.controlled[name]) {
      SmallerInside(seen, s.controlled[name]);
    }
  }

  lemma SmallerInside(inUse: set<nat>, rs: seq<IPRange>)
    requires Distinct(Flatten(rs)) && inUse <= AddressesOf(rs)
    ensures |inUse| <= |Flatten(rs)|
  {
    hide Distinct, Flatten;
    SizeOfElems(Flatten(rs));
    Cut(AddressesOf(rs), inUse);
  }

  lemma ResizePending(env: SubnetSpec, s: Sys, name: Name, seen: set<nat>, desired: nat, reserved: seq<IPRange>)
    requires Sound(env, s) && (Settled(s, name) || Pending(s, name, desired))
    requires seen <= AddressesOf(ObjectOf(s, name).spec) && name in s.controlled
    requires desired != |Flatten(s.controlled[name])|
    ensures LeadsToPending(env, s, name, seen, desired, reserved)
  {
    hide NewRanges, Counted, Shrunk, Extended, Distinct, Flatten, Used, Elems, Discarded, Listable, SumSizes, ParseAll, Lists, TotalIPs, SubnetOk, Below;
    var pool := ObjectOf(s, name).(inUse := seen);
    ObjectSound(env, s, name, seen);
    NewRangesCases(env, s.controlled, name, pool, desired, reserved);
    EntryIsUsed(s.controlled, name);
    var entry := Flatten(s.controlled[name]);
    if desired < |entry| {
      ShrunkMeaning(env.block.fam, entry, seen, desired);
      ShrunkErrors(env.block.fam, entry, seen, desired);
    } else {
      ListableBelow(env.block.fam, s.controlled[name]);
      ExtendedMeaning(env, s.controlled, entry, desired - |entry|, reserved);
      CountedExtended(env, s.controlled, name, entry, desired - |entry|, reserved);
    }
  }

  lemma NoAddresses()
    ensures AddressesOf([]) == {}
  {
  }

  /** A repair is due only when the pool still holds the larger, old set. */
  lemma RepairCase(env: SubnetSpec, s: Sys, name: Name, pool: PoolObject, desired: nat)
    requires Sound(env, s) && (Settled(s, name) || Pending(s, name, desired)) && name in s.controlled
    requires desired == |Flatten(s.controlled[name])|
    requires PoolSound(pool) && pool.spec == ObjectOf(s, name).spec
    ensures var entry := Flatten(s.controlled[name]);
      && (NeedsRepair(entry, pool.inUse) <==> !(pool.inUse <= AddressesOf(s.controlled[name])))
      && (NeedsRepair(entry, pool.inUse) ==> |Flatten(pool.spec)| >= desired && name in s.pools)
  {
    hide Distinct, Flatten;
    var entry := Flatten(s.controlled[name]);
    if NeedsRepair(entry, pool.inUse) {
      NoAddresses();
      assert Elems(entry) <= AddressesOf(pool.spec);
      SizeOfElems(entry);
      SizeOfElems(Flatten(pool.spec));
      Cut(AddressesOf(pool.spec), Elems(entry));
    }
  }

  lemma StepKeepsTarget(env: SubnetSpec, s: Sys, step: Step, name: Name, desired: nat)
    requires Sound(env, s) && SameTarget(step, name, desired) && (Settled(s, name) || Pending(s, name, desired))
    ensures var s' := Apply(env, s, step); Settled(s', name) || Pending(s', name, desired)
    ensures Pending(s, name, desired) ==> Pending(Apply(env, s, step), name, desired)
  {
    hide NewRanges, Flatten, Distinct, Elems, Used, Sound, ParseAll, SumSizes;
    if step.FirstWrite? && step.name == name && step.seen <= AddressesOf(ObjectOf(s, name).spec) {
      PreAllocationPending(env, s, name, step.seen, desired, step.reserved);
    } else if step.Reconcile? && step.name == name {
      InUseInside(env, s, name);
      PreAllocationPending(env, s, name, ObjectOf(s, name).inUse, desired, step.reserved);
    }
  }

  lemma {:induction false} TargetOverRun(env: SubnetSpec, states: seq<Sys>, steps: seq<Step>, name: Name, desired: nat, i: nat, j: nat)
    requires IsRun(env, states, steps) && i <= j < |states| && Sound(env, states[i])
    requires Settled(states[i], name) || Pending(states[i], name, desired)
    requires forall k :: i <= k < j ==> SameTarget(steps[k], name, desired)
    ensures Sound(env, states[j]) && (Settled(states[j], name) || Pending(states[j], name, desired))
    ensures Pending(states[i], name, desired) ==> Pending(states[j], name, desired)
    decreases j
  {
    hide Apply, Sound, Settled, Pending, SameTarget;
    if i < j {
      TargetOverRun(env, states, steps, name, desired, i, j - 1);
      StepSound(env, states[j - 1], steps[j - 1]);
      StepKeepsTarget(env, states[j - 1], steps[j - 1], name, desired);
    }
  }

  /** Spec and pre-allocation are equal, of the desired size, and hold every allocated address. */
  predicate Reconciled(s: Sys, name: Name, desired: nat) {
    && name in s.pools && name in s.controlled
    && AddressesOf(s.pools[name].spec) == AddressesOf(s.controlled[name])
    && |Flatten(s.pools[name].spec)| == desired && |Flatten(s.controlled[name])| == desired
    && s.pools[name].inUse <= AddressesOf(s.pools[name].spec)
  }

  /** The addresses a pending pool is to have: its entry, or in a repair what is left of its spec. */
  function TargetOf(s: Sys, name: Name, desired: nat): set<nat>
    requires name in s.controlled
  {
    var pool := ObjectOf(s, name);
    if NeedsRepair(Flatten(s.controlled[name]), pool.inUse)
    then AddressesOf(pool.spec) - Discarded(Flatten(pool.spec), pool.inUse, desired)
    else AddressesOf(s.controlled[name])
  }

  predicate HasSize(s: Sys, name: Name, desired: nat) {
    name in s.pools && |Flatten(s.pools[name].spec)| == desired
  }

  /** What one more reconcile does to a pending pool: it fails exactly when more addresses than desired are
      allocated, and leaves the pool reconciled exactly when it does not fail and the pool either has the
      desired size already or is to have addresses that no other pool's spec holds. Whatever happens the
      pool stays pending and keeps its allocations, so it can be tried again. */
  ghost predicate RerunOutcome(env: SubnetSpec, s: Sys, name: Name, desired: nat, reserved: seq<IPRange>, labelsMatch: bool) {
    var r := NewRangesFor(env, s, name, ObjectOf(s, name), desired, reserved);
    var s' := Apply(env, s, Reconcile(name, desired, reserved, labelsMatch));
    && name in s.controlled
    && (r.Ok? <==> |ObjectOf(s, name).inUse| <= desired) && (r.Err? ==> r == Err(FreeIPsNotEnough))
    && (Reconciled(s', name, desired) <==>
          |ObjectOf(s, name).inUse| <= desired && (HasSize(s, name, desired) || Clear(s, name, TargetOf(s, name, desired))))
    && Pending(s', name, desired) && ObjectOf(s', name).inUse == ObjectOf(s, name).inUse
  }

  lemma ReconcilePending(env: SubnetSpec, s: Sys, name: Name, desired: nat, reserved: seq<IPRange>, labelsMatch: bool)
    requires Sound(env, s) && Pending(s, name, desired)
    ensures RerunOutcome(env, s, name, desired, reserved, labelsMatch)
  {
    hide NewRanges, Flatten, Distinct, Elems, Used, Nested, ParseAll, SumSizes, Listable, Discarded, Clear, TargetOf;
    InUseInside(env, s, name);
    var pool := ObjectOf(s, name);
    ObjectSound(env, s, name, pool.inUse);
    assert pool.(inUse := pool.inUse) == pool;
    PreAllocationPending(env, s, name, pool.inUse, desired, reserved);
    RerunTarget(env, s, name, desired, reserved);
    StepKeepsTarget(env, s, Reconcile(name, desired, reserved, labelsMatch), name, desired);
    if name in s.pools && |Flatten(s.pools[name].spec)| == desired {
      SameSizeEqual(s.pools[name].spec, s.controlled[name]);
      SmallerInside(pool.inUse, s.pools[name].spec);
      TargetWithoutRepair(s, name, desired);
    }
    if |pool.inUse| > desired {
      TooManyInUse(s, name, desired);
    }
  }

  lemma TargetWithoutRepair(s: Sys, name: Name, desired: nat)
    requires name in s.controlled && ObjectOf(s, name).inUse <= AddressesOf(s.controlled[name])
    ensures TargetOf(s, name, desired) == AddressesOf(s.controlled[name])
  {
    hide Flatten;
  }

  lemma TooManyInUse(s: Sys, name: Name, desired: nat)
    requires |ObjectOf(s, name).inUse| > desired
    requires name in s.pools ==> Distinct(Flatten(s.pools[name].spec))
    ensures !Reconciled(s, name, desired)
  {
    hide Flatten, Distinct;
    if Reconciled(s, name, desired) {
      SmallerInside(s.pools[name].inUse, s.pools[name].spec);
    }
  }

  /** What a rerun computes is the target. */
  lemma RerunTarget(env: SubnetSpec, s: Sys, name: Name, desired: nat, reserved: seq<IPRange>)
    requires Sound(env, s) && Pending(s, name, desired)
    ensures var r := NewRangesFor(env, s, name, ObjectOf(s, name), desired, reserved);
      r.Ok? ==> AddressesOf(r.value) == TargetOf(s, name, desired)
  {
    hide NewRanges, Shrunk, Flatten, Distinct, Elems, Used, ParseAll, SumSizes, Listable, Discarded;
    InUseInside(env, s, name);
    var pool := ObjectOf(s, name);
    ObjectSound(env, s, name, pool.inUse);
    assert pool.(inUse := pool.inUse) == pool;
    NewRangesCases(env, s.controlled, name, pool, desired, reserved);
    ShrunkMeaning(env.block.fam, Flatten(pool.spec), pool.inUse, desired);
  }

  lemma SameSizeEqual(rs: seq<IPRange>, ts: seq<IPRange>)
    requires Distinct(Flatten(rs)) && Distinct(Flatten(ts)) && |Flatten(rs)| == |Flatten(ts)|
    requires Nested(AddressesOf(rs), AddressesOf(ts))
    ensures AddressesOf(rs) == AddressesOf(ts)
  {
    hide Flatten, Distinct;
    SizeOfElems(Flatten(rs));
    SizeOfElems(Flatten(ts));
    if AddressesOf(rs) <= AddressesOf(ts) {
      Cut(AddressesOf(ts), AddressesOf(rs));
    } else {
      Cut(AddressesOf(rs), AddressesOf(ts));
    }
  }

  /** Crash recovery. A reconcile of a settled pool stops after the subnet write at step `i`. Up to state `j`
      any number of reconciles for the same number stop or complete, addresses are allocated and released
      in the pool, and other pools are reconciled. Running once more then has the outcome above: it fails
      exactly when more addresses than desired are allocated, and otherwise leaves the pool reconciled,
      with its allocations intact, exactly unless another pool's spec still holds one of its addresses. */
  lemma CrashRecovery(env: SubnetSpec, states: seq<Sys>, steps: seq<Step>, name: Name, desired: nat, i: nat, j: nat,
                      reserved: seq<IPRange>, labelsMatch: bool)
    requires IsRun(env, states, steps) && i < j < |states| && Sound(env, states[i]) && Settled(states[i], name)
    requires steps[i].FirstWrite? && steps[i].name == name && steps[i].desired == desired
    requires name in states[i + 1].controlled && |Flatten(states[i + 1].controlled[name])| == desired
    requires forall k :: i < k < j ==> SameTarget(steps[k], name, desired)
    ensures RerunOutcome(env, states[j], name, desired, reserved, labelsMatch)
  {
    hide Apply, NewRanges, Sound, Settled, Reconciled, Pending, RerunOutcome;
    TargetOverRun(env, states, steps, name, desired, i, i + 1);
    SettledIsPending(states[i + 1], name, desired);
    TargetOverRun(env, states, steps, name, desired, i + 1, j);
    ReconcilePending(env, states[j], name, desired, reserved, labelsMatch);
  }

  lemma SettledIsPending(s: Sys, name: Name, desired: nat)
    requires name in s.controlled && |Flatten(s.controlled[name])| == desired
    ensures Settled(s, name) ==> Pending(s, name, desired)
  {
  }

  /** The rerun is not refused when the specs are pairwise apart and every other pool is settled. */
  lemma RecoveryNotRefused(env: SubnetSpec, s: Sys, name: Name, desired: nat)
    requires Sound(env, s) && Pending(s, name, desired) && EntriesApart(s.controlled)
    requires Clear(s, name, AddressesOf(ObjectOf(s, name).spec)) && forall n | n in s.pools && n != name :: Settled(s, n)
    ensures Clear(s, name, TargetOf(s, name, desired))
  {
    hide Distinct, Flatten, Used, Elems, Discarded, Listable, SumSizes, NeedsRepair;
  }

  /** While the desired number stays the same, pre-allocation never slices out of range, whatever
      allocations it has seen. */
  lemma NoPanicOverRun(env: SubnetSpec, states: seq<Sys>, steps: seq<Step>, name: Name, desired: nat, i: nat, j: nat,
                       seen: set<nat>, reserved: seq<IPRange>)
    requires IsRun(env, states, steps) && i <= j < |states| && Sound(env, states[i])
    requires Settled(states[i], name) || Pending(states[i], name, desired)
    requires forall k :: i <= k < j ==> SameTarget(steps[k], name, desired)
    requires seen <= AddressesOf(ObjectOf(states[j], name).spec)
    ensures NewRangesFor(env, states[j], name, ObjectOf(states[j], name).(inUse := seen), desired, reserved) != Err(SliceOutOfRange)
  {
    hide Apply, NewRanges, Sound, Settled, Pending, SameTarget;
    TargetOverRun(env, states, steps, name, desired, i, j);
    PreAllocationPending(env, states[j], name, seen, desired, reserved);
  }

  // ----- Conservation over runs -----

  /** Pre-allocations are disjoint and inside the subnet, and so is every spec. */
  ghost predicate Good(env: SubnetSpec, s: Sys) {
    && Sound(env, s) && EntriesApart(s.controlled) && InSubnet(TotalIPs(env), s.controlled)
    && forall n | n in s.pools :: AddressesOf(s.pools[n].spec) <= Elems(TotalIPs(env))
  }

  /** If the step repairs a pre-allocation, no other pool has been given an address that the repair keeps. */
  ghost predicate SafeStep(s: Sys, step: Step) {
    && (step.FirstWrite? ==>
          var pool := ObjectOf(s, step.name).(inUse := step.seen);
          Repairs(s.controlled, step.name, pool, step.desired) ==> RepairSafe(s.controlled, step.name, pool, step.desired))
    && (step.Reconcile? ==>
          var pool := ObjectOf(s, step.name);
          Repairs(s.controlled, step.name, pool, step.desired) ==> RepairSafe(s.controlled, step.name, pool, step.desired))
  }

  lemma ObjectInSubnet(env: SubnetSpec, s: Sys, name: Name)
    requires Good(env, s)
    ensures AddressesOf(ObjectOf(s, name).spec) <= Elems(TotalIPs(env))
  {
    hide Sound, EntriesApart, InSubnet;
    NoAddresses();
  }

  lemma StepGood(env: SubnetSpec, s: Sys, step: Step)
    requires Good(env, s) && SafeStep(s, step)
    ensures Good(env, Apply(env, s, step))
  {
    hide NewRanges, Flatten, Distinct, Elems, Used, Sound, Repairs, RepairSafe, EntriesApart, EntriesDistinct, ParseAll, SumSizes;
    StepSound(env, s, step);
    if step.FirstWrite? && step.seen <= AddressesOf(ObjectOf(s, step.name).spec) {
      WriteGood(env, s, step.name, ObjectOf(s, step.name).(inUse := step.seen), step.desired, step.reserved);
    } else if step.Reconcile? {
      InUseInside(env, s, step.name);
      WriteGood(env, s, step.name, ObjectOf(s, step.name), step.desired, step.reserved);
    }
  }

  lemma WriteGood(env: SubnetSpec, s: Sys, name: Name, pool: PoolObject, desired: nat, reserved: seq<IPRange>)
    requires Good(env, s) && pool.spec == ObjectOf(s, name).spec && pool.inUse <= AddressesOf(pool.spec)
    requires Repairs(s.controlled, name, pool, desired) ==> RepairSafe(s.controlled, name, pool, desired)
    ensures var r := NewRangesFor(env, s, name, pool, desired, reserved);
      r.Ok? ==>
        && EntriesApart(s.controlled[name := r.value]) && InSubnet(TotalIPs(env), s.controlled[name := r.value])
        && AddressesOf(r.value) <= Elems(TotalIPs(env))
  {
    hide NewRanges, Flatten, Distinct, Elems, Used, Repairs, RepairSafe, EntriesApart, Listable, SumSizes, ParseAll;
    ObjectSound(env, s, name, pool.inUse);
    assert ObjectOf(s, name).(inUse := pool.inUse) == pool;
    ObjectInSubnet(env, s, name);
    NewRangesKeepApart(env, s.controlled, name, pool, desired, reserved);
    var r := NewRangesFor(env, s, name, pool, desired, reserved);
    if r.Ok? {
      EntryIsUsed(s.controlled[name := r.value], name);
    }
  }

  /** In a run from the empty subnet whose repairs are safe, in every state no address is pre-allocated twice,
      the recorded count is the number of pre-allocated addresses, and every address of the subnet is free
      or pre-allocated. */
  lemma {:induction false} RunConservation(env: SubnetSpec, states: seq<Sys>, steps: seq<Step>, i: nat)
    requires IsRun(env, states, steps) && states[0] == EMPTY && SubnetOk(env) && i < |states|
    requires forall k :: 0 <= k < i ==> SafeStep(states[k], steps[k])
    ensures Good(env, states[i])
    ensures states[i].count == |Used(states[i].controlled)|
    ensures |TotalIPs(env)| == |FreeIPs(TotalIPs(env), states[i].controlled)| + states[i].count
  {
    hide Apply, Sound, SafeStep, Distinct, FreeIPs, Used, EntriesApart;
    if i == 0 {
      EmptyGood(env);
    } else {
      RunConservation(env, states, steps, i - 1);
      StepGood(env, states[i - 1], steps[i - 1]);
    }
    CountOfGood(env, states[i]);
    Conservation(TotalIPs(env), states[i].controlled);
  }

  lemma EmptyGood(env: SubnetSpec)
    requires SubnetOk(env)
    ensures Good(env, EMPTY)
  {
    SumOfNothing(env.block.fam);
  }

  lemma CountOfGood(env: SubnetSpec, s: Sys)
    requires Good(env, s)
    ensures Distinct(TotalIPs(env)) && s.count == |Used(s.controlled)|
  {
    hide Listable, SumSizes, Distinct, Used, EntriesApart, TotalIPs, SubnetOk;
    TotalSound(env);
    SumCountsUsed(env.block.fam, s.controlled);
  }

  /** The webhook merges a list of more than one range. */
  predicate Stored(fam: Family, rs: seq<IPRange>) {
    |rs| <= 1 || Canonical(fam, rs)
  }

  /** A stored list that can be listed does not hold both top addresses. */
  lemma StoredWithoutTops(fam: Family, rs: seq<IPRange>)
    requires OfFamily(fam, rs) && Stored(fam, rs) && Regular(fam, rs)
    ensures !TopsIn(fam, Flatten(rs))
  {
    hide Flatten, Canonical, Regular, Denotes;
    FlattenMembers(rs, Limit(fam) - 2);
    FlattenMembers(rs, Limit(fam) - 1);
    if |rs| <= 1 {
      OneRangeWithoutTops(fam, rs);
    } else if TopsIn(fam, Flatten(rs)) {
      BelowLimit(fam, rs);
      var r := TopSpan(fam, rs);
      TopNotListed(fam, rs, r);
    }
  }

  lemma OneRangeWithoutTops(fam: Family, rs: seq<IPRange>)
    requires OfFamily(fam, rs) && |rs| <= 1 && Regular(fam, rs)
    ensures !(Denotes(rs, Limit(fam) - 2) && Denotes(rs, Limit(fam) - 1))
  {
    assert rs != [] ==> rs[0] in rs;
  }

  lemma BelowLimit(fam: Family, rs: seq<IPRange>)
    requires OfFamily(fam, rs)
    ensures forall r | r in rs :: r.Hi() < Limit(fam)
  {
  }

  lemma TopNotListed(fam: Family, rs: seq<IPRange>, r: IPRange)
    requires r in rs && r.Span? && r.hi == Limit(fam) - 1
    ensures !Regular(fam, rs)
  {
  }

  /** In the states of such a run, on a subnet as the webhook stores it, pre-allocation panics on a capacity or
      never returns exactly when it takes addresses and listing the subnet's or the reserved ranges does so. */
  lemma AlwaysAnswers(env: SubnetSpec, s: Sys, name: Name, seen: set<nat>, desired: nat, reserved: seq<IPRange>)
    requires Good(env, s) && Stored(env.block.fam, env.ips) && seen <= AddressesOf(ObjectOf(s, name).spec)
    ensures var r := NewRangesFor(env, s, name, ObjectOf(s, name).(inUse := seen), desired, reserved);
      var lists := if Assembled(env).Returns? then ParseAll(env.block.fam, reserved) else Assembled(env);
      && (r == Err(CapacityRefused) <==> Takes(s.controlled, name, desired) && lists.Panics?)
      && (r == Err(NoAnswer) <==> Takes(s.controlled, name, desired) && lists.NeverReturns?)
  {
    hide NewRanges, Extended, Flatten, Distinct, Elems, Used, Listable, SumSizes, ParseAll, EntriesApart, TotalIPs, Assembled, ParseEntries,
      Stored, SubnetOk, NeverTakes;
    ObjectSound(env, s, name, seen);
    NewRangesAnswers(env, s.controlled, name, ObjectOf(s, name).(inUse := seen), desired, reserved);
    EntriesParse(env.block.fam, s.controlled);
    EntriesFit(env, s);
    if Takes(s.controlled, name, desired) {
      TakesInside(env, s, name, desired, reserved);
    }
  }

  /** The entries lie inside the subnet, so a slice can hold them all. */
  lemma EntriesFit(env: SubnetSpec, s: Sys)
    requires Good(env, s)
    ensures SumSizes(env.block.fam, s.controlled) <= |TotalIPs(env)| <= MAX_SLICE
  {
    hide Distinct, Flatten, Used, Elems, Listable, SumSizes, EntriesApart, TotalIPs, SubnetOk;
    TotalSound(env);
    CountOfGood(env, s);
    SizeOfElems(TotalIPs(env));
    Cut(Elems(TotalIPs(env)), Used(s.controlled));
  }

  /** What is taken lies inside the subnet: it fits in a slice and does not hold both top addresses. */
  lemma TakesInside(env: SubnetSpec, s: Sys, name: Name, desired: nat, reserved: seq<IPRange>)
    requires Good(env, s) && Stored(env.block.fam, env.ips) && Takes(s.controlled, name, desired)
    ensures NeverTakes(env, s.controlled, name, desired, reserved) <==> Lists(env, s.controlled, reserved).NeverReturns?
  {
    hide Extended, Lists, Flatten, Distinct, Elems, Used, Listable, SumSizes, EntriesApart, TotalIPs, SubnetOk;
    var before, lists := Before(s.controlled, name), Lists(env, s.controlled, reserved);
    NoneDistinct();
    TotalSound(env);
    if name in s.controlled { EntryIsUsed(s.controlled, name); }
    ExtendedMeaning(env, s.controlled, before, desired - |before|, reserved);
    if lists.Returns? {
      SizeOfElems(before);
      SizeOfElems(TotalIPs(env));
      InsideTogether(Elems(TotalIPs(env)), Elems(before), FreeFor(env, s.controlled, lists.value));
      ListsAssembled(env, s.controlled, reserved);
      StoredWithoutTops(env.block.fam, env.ips);
      var taken := Extension(env, s.controlled, name, desired, reserved);
      if taken.Ok? {
        TopsInside(env.block.fam, Flatten(taken.value), TotalIPs(env));
        TopsListed(env.block.fam, TotalIPs(env), Flatten(env.ips));
      }
    }
  }

  lemma InsideTogether(all: set<nat>, x: set<nat>, y: set<nat>)
    requires x <= all && y <= all && x !! y
    ensures |x| + |y| <= |all|
  {
    Cut(all, x);
    Cut(all - x, y);
  }

  lemma ListsAssembled(sub: SubnetSpec, controlled: Controlled, reserved: seq<IPRange>)
    requires Lists(sub, controlled, reserved).Returns? && SubnetOk(sub)
    ensures Regular(sub.block.fam, sub.ips) && OfFamily(sub.block.fam, sub.ips)
  {
    hide ParseUsed, Assembled, ParseAll;
    TotalSound(sub);
  }

  lemma TopsListed(fam: Family, xs: seq<nat>, ys: seq<nat>)
    requires forall a | a in xs :: a in ys
    ensures TopsIn(fam, xs) ==> TopsIn(fam, ys)
  {
  }

  lemma TopsInside(fam: Family, xs: seq<nat>, total: seq<nat>)
    requires Elems(xs) <= Elems(total)
    ensures TopsIn(fam, xs) ==> TopsIn(fam, total)
  {
    assert forall a :: a in xs ==> a in Elems(total);
  }

  // ----- Without interruptions -----

  predicate AllSettled(s: Sys) {
    s.pools.Keys == s.controlled.Keys && forall n | n in s.pools :: AddressesOf(s.pools[n].spec) == AddressesOf(s.controlled[n])
  }

  /** In a settled system no repair is due, and a completed reconcile is never refused. */
  lemma CompleteStep(env: SubnetSpec, s: Sys, step: Step)
    requires Good(env, s) && AllSettled(s) && !step.FirstWrite?
    ensures SafeStep(s, step) && AllSettled(Apply(env, s, step))
  {
    hide NewRanges, Flatten, Distinct, Elems, Used, RepairSafe, ParseAll, SumSizes, Listable;
    if step.Reconcile? {
      var name := step.name;
      InUseInside(env, s, name);
      ObjectSound(env, s, name, ObjectOf(s, name).inUse);
      if name in s.controlled { NothingToRepair(s, name); }
      assert !Repairs(s.controlled, name, ObjectOf(s, name), step.desired);
      PreAllocationPending(env, s, name, ObjectOf(s, name).inUse, step.desired, step.reserved);
      WriteGood(env, s, name, ObjectOf(s, name), step.desired, step.reserved);
      var r := NewRangesFor(env, s, name, ObjectOf(s, name), step.desired, step.reserved);
      if r.Ok? {
        SettledOthersClear(s, name, r.value);
      }
    }
  }

  lemma NothingToRepair(s: Sys, name: Name)
    requires AllSettled(s) && name in s.controlled && ObjectOf(s, name).inUse <= AddressesOf(ObjectOf(s, name).spec)
    ensures !NeedsRepair(Flatten(s.controlled[name]), ObjectOf(s, name).inUse)
  {
  }

  lemma SettledOthersClear(s: Sys, name: Name, rs: seq<IPRange>)
    requires AllSettled(s) && EntriesApart(s.controlled[name := rs])
    ensures Clear(s, name, AddressesOf(rs))
  {
    hide Flatten;
    var after := s.controlled[name := rs];
    forall n | n in s.pools && n != name ensures AddressesOf(s.pools[n].spec) !! AddressesOf(rs) {
      assert n in after && name in after && after[n] == s.controlled[n];
      assert AddressesOf(after[n]) !! AddressesOf(after[name]);
    }
  }

  /** When every reconcile completes, every state of a run from the empty subnet is settled and conserves
      the addresses, with nothing to assume about repairs. */
  lemma {:induction false} CompleteRunConservation(env: SubnetSpec, states: seq<Sys>, steps: seq<Step>, i: nat)
    requires IsRun(env, states, steps) && states[0] == EMPTY && SubnetOk(env) && i < |states|
    requires forall k :: 0 <= k < |steps| ==> !steps[k].FirstWrite?
    ensures AllSettled(states[i])
    ensures forall k :: 0 <= k < i ==> SafeStep(states[k], steps[k])
    ensures states[i].count == |Used(states[i].controlled)|
    ensures |TotalIPs(env)| == |FreeIPs(TotalIPs(env), states[i].controlled)| + states[i].count
  {
    hide Apply, SafeStep, Good, Distinct, FreeIPs, Used;
    if i > 0 {
      CompleteRunConservation(env, states, steps, i - 1);
      RunConservation(env, states, steps, i - 1);
      CompleteStep(env, states[i - 1], steps[i - 1]);
    }
    RunConservation(env, states, steps, i);
  }
}
