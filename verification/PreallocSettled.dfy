/** What a reconcile does when nothing interrupts it: create, grow, shrink and reuse of a settled pool. */
module PreallocSettled {
  import opened Wrappers
  import opened Address
  import opened Ranges
  import C = Cidr
  import opened Prealloc
  import opened PreallocRun
  import opened PreallocRecovery

  /** What pre-allocation answers, for every input that is listed: it takes addresses, drops some, keeps the entry
      that holds every allocated address, or cuts the pool down to one that does. */
  ghost predicate Answers(sub: SubnetSpec, controlled: Controlled, name: Name, pool: PoolObject, desired: nat, reserved: seq<IPRange>,
                          r: Result<seq<IPRange>, Error>) {
    var before, lists := Before(controlled, name), Lists(sub, controlled, reserved);
    if Takes(controlled, name, desired) then
      && (!lists.Returns? ==> r == Err(ErrorOf(lists)))
      && (lists.Returns? ==>
            if NeverTakes(sub, controlled, name, desired, reserved) then r == Err(NoAnswer)
            else ExtendsTo(TotalIPs(sub), controlled, before, desired - |before|, C.Elems(lists.value), r))
    else if desired < |before| then ShrinksTo(before, pool.inUse, desired, r)
    else if pool.inUse <= C.Elems(before) then r == Ok(controlled[name])
    else ShrinksTo(Flatten(pool.spec), pool.inUse, desired, r)
  }

  lemma NewRangesExactly(sub: SubnetSpec, controlled: Controlled, name: Name, pool: PoolObject, desired: nat, reserved: seq<IPRange>)
    requires InputsSound(sub, controlled, pool)
    ensures Answers(sub, controlled, name, pool, desired, reserved, NewRanges(sub, controlled, name, pool, desired, reserved))
  {
    hide NewRanges, Counted, Shrunk, Extended, Lists, TotalIPs, C.Distinct, Flatten, Used, Discarded, Listable, SubnetOk, AllOrdered,
      ExtendsTo, ShrinksTo;
    var fam, before := sub.block.fam, Before(controlled, name);
    NewRangesCases(sub, controlled, name, pool, desired, reserved);
    if name in controlled {
      ListableBelow(fam, controlled[name]);
      EntryIsUsed(controlled, name);
      RepairExactly(before, pool.inUse);
      ShrunkMeaning(fam, before, pool.inUse, desired);
      ShrunkMeaning(fam, Flatten(pool.spec), pool.inUse, desired);
    }
    if Takes(controlled, name, desired) {
      NoneDistinct();
      ExtendedMeaning(sub, controlled, before, desired - |before|, reserved);
      CountedExtended(sub, controlled, name, before, desired - |before|, reserved);
      NewRangesAnswers(sub, controlled, name, pool, desired, reserved);
    }
  }

  lemma RepairExactly(entry: seq<nat>, inUse: set<nat>)
    ensures NeedsRepair(entry, inUse) <==> !(inUse <= C.Elems(entry))
  {
  }

  // ----- A settled pool -----

  /** The addresses of the result: a grow keeps the old ones and adds the lowest that are free; a shrink keeps the
      allocated ones and drops the lowest of the others; otherwise nothing moves. */
  ghost predicate Moves(env: SubnetSpec, s: Sys, name: Name, desired: nat, reserved: seq<IPRange>, after: set<nat>) {
    var before, lists, inUse := C.Elems(Before(s.controlled, name)), Lists(env, s.controlled, reserved), ObjectOf(s, name).inUse;
    && |after| == desired && inUse <= after
    && (desired > |before| ==>
          && lists.Returns? && before <= after <= before + FreeFor(env, s.controlled, lists.value)
          && Below(after - before, FreeFor(env, s.controlled, lists.value) - after))
    && (desired <= |before| ==> after <= before && Below(before - after, after - inUse))
  }

  /** Which answer there is. A shrink needs that no more than desired are allocated. A grow or a create needs that
      everything it reads is listed and that enough addresses are free. Keeping the size always succeeds. */
  ghost predicate Succeeds(env: SubnetSpec, s: Sys, name: Name, desired: nat, reserved: seq<IPRange>, r: Result<seq<IPRange>, Error>) {
    var before, lists := Before(s.controlled, name), Lists(env, s.controlled, reserved);
    if Takes(s.controlled, name, desired) then
      && (!lists.Returns? ==> r == Err(ErrorOf(lists)))
      && (lists.Returns? ==>
            var enough := |FreeFor(env, s.controlled, lists.value)| >= desired - |before|;
            && (r == Err(SubnetExhausted) <==> !enough)
            && (r.Ok? <==> enough && !NeverTakes(env, s.controlled, name, desired, reserved))
            && (r == Err(NoAnswer) <==> NeverTakes(env, s.controlled, name, desired, reserved)))
    else
      && (r.Ok? <==> |ObjectOf(s, name).inUse| <= desired) && (r.Err? ==> r == Err(FreeIPsNotEnough))
      && (desired == |before| ==> r.Ok?)
  }

  lemma SettledAnswer(env: SubnetSpec, s: Sys, name: Name, desired: nat, reserved: seq<IPRange>)
    requires Sound(env, s) && Settled(s, name)
    ensures var r := NewRangesFor(env, s, name, ObjectOf(s, name), desired, reserved);
      && Succeeds(env, s, name, desired, reserved, r)
      && (r.Ok? ==>
            && Moves(env, s, name, desired, reserved, AddressesOf(r.value))
            && |Flatten(r.value)| == desired && C.Distinct(Flatten(r.value)))
  {
    hide NewRanges, Lists, TotalIPs, C.Distinct, C.Elems, Flatten, Used, Listable, SumSizes, ParseAll, Sound, Below, Discarded, Extended, NeverTakes;
    InUseInside(env, s, name);
    var pool := ObjectOf(s, name);
    ObjectSound(env, s, name, pool.inUse);
    assert pool.(inUse := pool.inUse) == pool;
    NewRangesExactly(env, s.controlled, name, pool, desired, reserved);
    var r := NewRangesFor(env, s, name, pool, desired, reserved);
    BeforeSound(env, s, name);
    SizeOfElems(Before(s.controlled, name));
    if r.Ok? {
      NewRangesMeaning(env, s.controlled, name, pool, desired, reserved);
      SizeOfElems(Flatten(r.value));
    }
    if Takes(s.controlled, name, desired) {
      TakesAnswer(env, s, name, desired, reserved, r);
    } else {
      InUseFits(Before(s.controlled, name), pool.inUse);
      if desired < |Before(s.controlled, name)| {
        DroppedInside(Before(s.controlled, name), pool.inUse, desired, r);
      } else if r.Ok? {
        KeptMoves(env, s, name, desired, reserved);
      }
    }
  }

  lemma BeforeSound(env: SubnetSpec, s: Sys, name: Name)
    requires Sound(env, s) && Settled(s, name)
    ensures C.Distinct(Before(s.controlled, name)) && C.Elems(Before(s.controlled, name)) <= Used(s.controlled)
    ensures ObjectOf(s, name).inUse <= C.Elems(Before(s.controlled, name))
  {
    hide C.Distinct, Flatten, Used, Listable, SumSizes;
    NoneDistinct();
    NoAddresses();
    if name in s.controlled { EntryIsUsed(s.controlled, name); }
  }

  lemma InUseFits(before: seq<nat>, inUse: set<nat>)
    requires C.Distinct(before) && inUse <= C.Elems(before)
    ensures |inUse| <= |before|
  {
    hide C.Distinct;
    SizeOfElems(before);
    Cut(C.Elems(before), inUse);
  }

  lemma KeptMoves(env: SubnetSpec, s: Sys, name: Name, desired: nat, reserved: seq<IPRange>)
    requires name in s.controlled && ObjectOf(s, name).inUse <= AddressesOf(s.controlled[name])
    requires desired == |AddressesOf(s.controlled[name])|
    ensures Moves(env, s, name, desired, reserved, AddressesOf(s.controlled[name]))
  {
    hide Lists, TotalIPs, Flatten;
  }

  /** A shrink drops addresses that were held and are not allocated. */
  lemma DroppedInside(from: seq<nat>, inUse: set<nat>, desired: nat, r: Result<seq<IPRange>, Error>)
    requires ShrinksTo(from, inUse, desired, r) && C.Distinct(from) && inUse <= C.Elems(from) && desired < |from|
    ensures r.Ok? <==> |inUse| <= desired
    ensures r.Err? ==> r == Err(FreeIPsNotEnough)
    ensures r.Ok? ==> inUse <= AddressesOf(r.value) <= C.Elems(from) && Below(C.Elems(from) - AddressesOf(r.value), AddressesOf(r.value) - inUse)
  {
    hide C.Distinct, C.Elems, Flatten, Discarded, AllOrdered;
    var gone := Discarded(from, inUse, desired);
    if r.Ok? {
      assert C.Elems(from) - AddressesOf(r.value) <= gone;
    } else {
      ShrinkFails(from, inUse, desired, r);
    }
  }

  lemma ShrinkFails(from: seq<nat>, inUse: set<nat>, desired: nat, r: Result<seq<IPRange>, Error>)
    requires ShrinksTo(from, inUse, desired, r) && r.Err? && desired < |from|
    ensures r == Err(FreeIPsNotEnough)
  {
    hide Discarded, Flatten, C.Elems, C.Distinct;
  }

  lemma TakesAnswer(env: SubnetSpec, s: Sys, name: Name, desired: nat, reserved: seq<IPRange>, r: Result<seq<IPRange>, Error>)
    requires SubnetOk(env) && Takes(s.controlled, name, desired) && Answers(env, s.controlled, name, ObjectOf(s, name), desired, reserved, r)
    requires C.Distinct(Before(s.controlled, name)) && C.Elems(Before(s.controlled, name)) <= Used(s.controlled)
    requires ObjectOf(s, name).inUse <= C.Elems(Before(s.controlled, name))
    requires r.Ok? ==> |AddressesOf(r.value)| == desired
    ensures Succeeds(env, s, name, desired, reserved, r)
    ensures r.Ok? ==> Moves(env, s, name, desired, reserved, AddressesOf(r.value))
  {
    hide Lists, TotalIPs, C.Distinct, C.Elems, Flatten, Used, Extended, AllOrdered, SubnetOk;
    var before := Before(s.controlled, name);
    SizeOfElems(before);
    ExtendedMeaning(env, s.controlled, before, desired - |before|, reserved);
  }

  // ----- The whole reconcile -----

  /** The other pools and entries are as they were. */
  ghost predicate OthersKept(s: Sys, s': Sys, name: Name) {
    && (forall n | n != name :: (n in s'.pools <==> n in s.pools) && (n in s'.controlled <==> n in s.controlled))
    && (forall n | n != name && n in s.pools :: s'.pools[n] == s.pools[n])
    && (forall n | n != name && n in s.controlled :: s'.controlled[n] == s.controlled[n])
  }

  /** A completed reconcile of a settled pool. It leaves the pool with the desired number of addresses, its
      allocations among them, exactly if pre-allocation succeeds and no other spec holds an address of the
      result, or the pool had that size already. A failure changes nothing; a refused pool leaves the entry at
      the desired size, to be tried again. */
  ghost predicate SettledOutcome(env: SubnetSpec, s: Sys, name: Name, desired: nat, reserved: seq<IPRange>, labelsMatch: bool) {
    var r := NewRangesFor(env, s, name, ObjectOf(s, name), desired, reserved);
    var s' := Apply(env, s, Reconcile(name, desired, reserved, labelsMatch));
    && Succeeds(env, s, name, desired, reserved, r)
    && (Reconciled(s', name, desired) <==> r.Ok? && (HasSize(s, name, desired) || Clear(s, name, AddressesOf(r.value))))
    && (Reconciled(s', name, desired) ==> Moves(env, s, name, desired, reserved, AddressesOf(s'.pools[name].spec)))
    && (r.Err? ==> s' == s)
    && (r.Ok? && !Reconciled(s', name, desired) ==> s'.pools == s.pools && Pending(s', name, desired))
    && ObjectOf(s', name).inUse == ObjectOf(s, name).inUse && OthersKept(s, s', name)
  }

  lemma ReconcileSettled(env: SubnetSpec, s: Sys, name: Name, desired: nat, reserved: seq<IPRange>, labelsMatch: bool)
    requires Sound(env, s) && Settled(s, name)
    ensures SettledOutcome(env, s, name, desired, reserved, labelsMatch)
  {
    hide NewRanges, Lists, TotalIPs, C.Distinct, Flatten, Used, Listable, SumSizes, ParseAll, Sound, Below, Succeeds, Moves, Clear, Nested;
    InUseInside(env, s, name);
    var pool := ObjectOf(s, name);
    ObjectSound(env, s, name, pool.inUse);
    assert pool.(inUse := pool.inUse) == pool;
    SettledAnswer(env, s, name, desired, reserved);
    PreAllocationPending(env, s, name, pool.inUse, desired, reserved);
    if name in s.pools {
      SameSize(env, s, name);
    }
    var r := NewRangesFor(env, s, name, pool, desired, reserved);
    if HasSize(s, name, desired) {
      KeptMoves(env, s, name, desired, reserved);
      ReusedEntry(env, s, name, desired, reserved);
    }
    if r.Ok? {
      InUseMoves(env, s, name, desired, reserved, AddressesOf(r.value));
    }
  }

  lemma InUseMoves(env: SubnetSpec, s: Sys, name: Name, desired: nat, reserved: seq<IPRange>, after: set<nat>)
    requires Moves(env, s, name, desired, reserved, after)
    ensures ObjectOf(s, name).inUse <= after
  {
    hide Lists, TotalIPs, Below, Flatten;
  }

  /** Spec and entry of a settled pool have the same size. */
  lemma SameSize(env: SubnetSpec, s: Sys, name: Name)
    requires Sound(env, s) && Settled(s, name) && name in s.pools
    ensures |Flatten(s.pools[name].spec)| == |Flatten(s.controlled[name])| == |AddressesOf(s.controlled[name])|
  {
    hide C.Distinct, Flatten, Listable, SumSizes;
    SizeOfElems(Flatten(s.pools[name].spec));
    SizeOfElems(Flatten(s.controlled[name]));
  }

  lemma ReusedEntry(env: SubnetSpec, s: Sys, name: Name, desired: nat, reserved: seq<IPRange>)
    requires Sound(env, s) && Settled(s, name) && HasSize(s, name, desired)
    ensures NewRangesFor(env, s, name, ObjectOf(s, name), desired, reserved) == Ok(s.controlled[name])
  {
    hide NewRanges, Lists, TotalIPs, C.Distinct, Flatten, Used, Listable, SumSizes, ParseAll, Shrunk, Extended, Counted;
    InUseInside(env, s, name);
    var pool := ObjectOf(s, name);
    ObjectSound(env, s, name, pool.inUse);
    assert pool.(inUse := pool.inUse) == pool;
    SameSize(env, s, name);
    NewRangesExactly(env, s.controlled, name, pool, desired, reserved);
  }

  /** In a run from the empty subnet in which every reconcile completes, each of them succeeds exactly if its
      pre-allocation does: it leaves the pool with the desired number of addresses, or everything as it was. */
  lemma CompleteReconcile(env: SubnetSpec, states: seq<Sys>, steps: seq<Step>, i: nat)
    requires IsRun(env, states, steps) && states[0] == EMPTY && SubnetOk(env) && i < |steps| && steps[i].Reconcile?
    requires forall k :: 0 <= k < |steps| ==> !steps[k].FirstWrite?
    ensures var s, name, desired := states[i], steps[i].name, steps[i].desired;
      var r := NewRangesFor(env, s, name, ObjectOf(s, name), desired, steps[i].reserved);
      && SettledOutcome(env, s, name, desired, steps[i].reserved, steps[i].labelsMatch)
      && (Reconciled(states[i + 1], name, desired) <==> r.Ok?) && (r.Err? ==> states[i + 1] == s)
  {
    hide NewRanges, Apply, Good, SettledOutcome, Settled, Clear, SafeStep, SubnetOk, C.Distinct;
    CompleteRunConservation(env, states, steps, i);
    RunConservation(env, states, steps, i);
    var s, step := states[i], steps[i];
    SettledHere(s, step.name);
    GoodIsSound(env, s);
    ReconcileSettled(env, s, step.name, step.desired, step.reserved, step.labelsMatch);
    var r := NewRangesFor(env, s, step.name, ObjectOf(s, step.name), step.desired, step.reserved);
    if r.Ok? {
      CompleteClear(env, s, step, r.value);
    }
    OutcomeMeans(env, s, step);
  }

  lemma SettledHere(s: Sys, name: Name)
    requires AllSettled(s)
    ensures Settled(s, name)
  {
    hide AddressesOf;
  }

  lemma GoodIsSound(env: SubnetSpec, s: Sys)
    requires Good(env, s)
    ensures Sound(env, s)
  {
    hide Sound;
  }

  lemma CompleteClear(env: SubnetSpec, s: Sys, step: Step, rs: seq<IPRange>)
    requires Good(env, s) && AllSettled(s) && step.Reconcile?
    requires NewRangesFor(env, s, step.name, ObjectOf(s, step.name), step.desired, step.reserved) == Ok(rs)
    ensures Clear(s, step.name, AddressesOf(rs))
  {
    hide NewRanges, Sound, Flatten, Used, Repairs, RepairSafe, EntriesApart, TotalIPs, C.Elems, Clear;
    InUseOfGood(env, s, step.name);
    CompleteStep(env, s, step);
    WriteGood(env, s, step.name, ObjectOf(s, step.name), step.desired, step.reserved);
    SettledOthersClear(s, step.name, rs);
  }

  lemma InUseOfGood(env: SubnetSpec, s: Sys, name: Name)
    requires Good(env, s)
    ensures ObjectOf(s, name).inUse <= AddressesOf(ObjectOf(s, name).spec)
  {
    hide Sound;
    InUseInside(env, s, name);
  }

  lemma OutcomeMeans(env: SubnetSpec, s: Sys, step: Step)
    requires step.Reconcile? && SettledOutcome(env, s, step.name, step.desired, step.reserved, step.labelsMatch)
    ensures var r := NewRangesFor(env, s, step.name, ObjectOf(s, step.name), step.desired, step.reserved);
      var s' := Apply(env, s, step);
      && (Reconciled(s', step.name, step.desired) ==> r.Ok?)
      && (r.Ok? && Clear(s, step.name, AddressesOf(r.value)) ==> Reconciled(s', step.name, step.desired))
      && (r.Err? ==> s' == s)
  {
    hide NewRanges, Apply, Succeeds, Moves, Clear, Reconciled;
  }

  /** An interrupted reconcile writes the entry and nothing else. */
  lemma FirstWriteEffect(env: SubnetSpec, s: Sys, name: Name, desired: nat, reserved: seq<IPRange>, seen: set<nat>)
    requires Sound(env, s)
    ensures var s' := Apply(env, s, FirstWrite(name, desired, reserved, seen)); var pool := ObjectOf(s, name).(inUse := seen);
      var r := NewRangesFor(env, s, name, pool, desired, reserved);
      && s'.pools == s.pools && OthersKept(s, s', name)
      && (if seen <= AddressesOf(pool.spec) && r.Ok? then name in s'.controlled && s'.controlled[name] == r.value else s' == s)
  {
    hide NewRanges, Sound, ParseAll, AddressesOf, SumSizes;
    ObjectSound(env, s, name, {});
  }

  /** Pods come and go: an address of the spec becomes allocated, or an allocated one free; nothing else changes. */
  lemma UseSteps(env: SubnetSpec, s: Sys, name: Name, ip: nat)
    requires name in s.pools
    ensures var s' := Apply(env, s, Occupy(name, ip));
      && s'.controlled == s.controlled && s'.count == s.count && OthersKept(s, s', name) && name in s'.pools
      && s'.pools[name].spec == s.pools[name].spec
      && s'.pools[name].inUse == s.pools[name].inUse + if ip in AddressesOf(s.pools[name].spec) then {ip} else {}
    ensures var s' := Apply(env, s, Vacate(name, ip));
      && s'.controlled == s.controlled && s'.count == s.count && OthersKept(s, s', name) && name in s'.pools
      && s'.pools[name].spec == s.pools[name].spec && s'.pools[name].inUse == s.pools[name].inUse - {ip}
  {
    hide AddressesOf;
  }
}
