/** From the pools named for an interface to the one an address is taken from. */
module Candidates {
  import opened Wrappers

  type Name = string

  /** A pool with the six properties its priority depends on: whether the field is set. */
  datatype Pool = Pool(
    name: Name, podAffinity: bool, nodeName: bool, nodeAffinity: bool,
    namespaceName: bool, namespaceAffinity: bool, multusName: bool)

  datatype Error = WrongInput | PoolNotFound | NoAvailablePool | AllPoolsFailed

  // ----- Priority -----

  /** `ByPoolPriority.Less`: the first property that differs decides. */
  predicate Less(a: Pool, b: Pool) {
    if a.podAffinity && !b.podAffinity then true
    else if !a.podAffinity && b.podAffinity then false
    else if a.nodeName && !b.nodeName then true
    else if !a.nodeName && b.nodeName then false
    else if a.nodeAffinity && !b.nodeAffinity then true
    else if !a.nodeAffinity && b.nodeAffinity then false
    else if a.namespaceName && !b.namespaceName then true
    else if !a.namespaceName && b.namespaceName then false
    else if a.namespaceAffinity && !b.namespaceAffinity then true
    else if !a.namespaceAffinity && b.namespaceAffinity then false
    else if a.multusName && !b.multusName then true
    else false
  }

  /** The six properties read as a binary number, pod affinity first. */
  function Rank(p: Pool): nat {
    (if p.podAffinity then 32 else 0) + (if p.nodeName then 16 else 0) + (if p.nodeAffinity then 8 else 0) +
    (if p.namespaceName then 4 else 0) + (if p.namespaceAffinity then 2 else 0) + (if p.multusName then 1 else 0)
  }

  /** The comparison is by rank, higher first; so it is a strict weak order. */
  lemma LessIsByRank(a: Pool, b: Pool)
    ensures Less(a, b) <==> Rank(a) > Rank(b)
  {
  }

  // ----- In-place steps -----

  /** The accepted names, in order. */
  function Kept(pools: seq<Name>, accepted: set<Name>): seq<Name> {
    if pools == [] then []
    else
      var n := |pools| - 1;
      Kept(pools[..n], accepted) + if pools[n] in accepted then [pools[n]] else []
  }

  function Rejected(pools: seq<Name>, accepted: set<Name>): set<Name> {
    set n | n in pools && n !in accepted
  }

  lemma {:induction false} KeptMeaning(pools: seq<Name>, accepted: set<Name>)
    ensures forall n :: n in Kept(pools, accepted) <==> n in pools && n in accepted
  {
    if pools != [] {
      var n := |pools| - 1;
      KeptMeaning(pools[..n], accepted);
      assert pools == pools[..n] + [pools[n]];
    }
  }

  predicate Unique(pools: seq<Name>) {
    forall i, j :: 0 <= i < j < |pools| ==> pools[i] != pools[j]
  }

  predicate ByPriority(pools: seq<Pool>) {
    forall i, j :: 0 <= i < j < |pools| ==> Rank(pools[i]) >= Rank(pools[j])
  }

  /** No pool comes before one of higher rank. */
  predicate RankOrder(pools: seq<Name>, m: map<Name, Pool>) {
    forall i, j :: 0 <= i < j < |pools| ==> pools[i] in m && pools[j] in m && Rank(m[pools[i]]) >= Rank(m[pools[j]])
  }

  function Names(pools: seq<Pool>): (ns: seq<Name>)
    ensures |ns| == |pools| && forall i :: 0 <= i < |pools| ==> ns[i] == pools[i].name
  {
    seq(|pools|, i requires 0 <= i < |pools| => pools[i].name)
  }

  class PoolCandidate {
    var pools: seq<Name>
    var pToIPPool: map<Name, Pool>

    constructor (pools: seq<Name>, pToIPPool: map<Name, Pool>)
      ensures this.pools == pools && this.pToIPPool == pToIPPool
    {
      this.pools, this.pToIPPool := pools, pToIPPool;
    }

    /** Every fetched pool is stored under its own name. */
    predicate Valid() reads this {
      forall n | n in pToIPPool :: pToIPPool[n].name == n
    }

    /** `precheckPoolCandidates`: refuse duplicates, fetch what has not been fetched. */
    method Precheck(cluster: map<Name, Pool>) returns (r: Result<(), Error>)
      requires Valid() && forall n | n in cluster :: cluster[n].name == n
      modifies this`pToIPPool
      ensures Valid()
      ensures r.Ok? <==> Unique(pools) && forall n | n in pools :: n in old(pToIPPool) || n in cluster
      ensures r.Ok? ==> pToIPPool.Keys == old(pToIPPool).Keys + Elems(pools)
      ensures r == Err(WrongInput) ==> !Unique(pools)
      ensures r == Err(PoolNotFound) ==> exists n :: n in pools && n !in old(pToIPPool) && n !in cluster
      ensures r == Ok(()) || r == Err(WrongInput) || r == Err(PoolNotFound)
      ensures forall n | n in old(pToIPPool) :: n in pToIPPool && pToIPPool[n] == old(pToIPPool)[n]
      ensures forall n | n in pToIPPool && n !in old(pToIPPool) :: n in cluster && pToIPPool[n] == cluster[n]
    {
      hide Unique;
      var marks: set<Name> := {};
      UniqueNothing();
      for i := 0 to |pools|
        invariant Valid()
        invariant marks == Elems(pools[..i]) && Unique(pools[..i])
        invariant pToIPPool.Keys == old(pToIPPool).Keys + marks
        invariant forall n | n in marks :: n in old(pToIPPool) || n in cluster
        invariant forall n | n in old(pToIPPool) :: n in pToIPPool && pToIPPool[n] == old(pToIPPool)[n]
        invariant forall n | n in pToIPPool && n !in old(pToIPPool) :: n in cluster && pToIPPool[n] == cluster[n]
      {
        var pool := pools[i];
        assert pools[..i + 1] == pools[..i] + [pool];
        UniqueStep(pools, i);
        if pool in marks {
          return Err(WrongInput);
        }
        marks := marks + {pool};
        if pool !in pToIPPool {
          if pool !in cluster {
            assert pool in pools;
            return Err(PoolNotFound);
          }
          pToIPPool := pToIPPool[pool := cluster[pool]];
        }
      }
      assert pools[..|pools|] == pools;
      return Ok(());
    }

    /** `filterPoolCandidates`: delete rejected pools from the slice while walking it, and from the map. */
    method Filter(accepted: set<Name>) returns (r: Result<(), Error>)
      requires Valid()
      modifies this`pools, this`pToIPPool
      ensures Valid() && pools == Kept(old(pools), accepted)
      ensures pToIPPool == old(pToIPPool) - Rejected(old(pools), accepted)
      ensures r.Ok? <==> pools != []
    {
      hide Kept, Rejected;
      var j := 0;
      KeptNothing(accepted);
      ghost var orig, i := pools, 0; // `i` counts the pools looked at
      while j < |pools|
        invariant 0 <= j <= |pools| && 0 <= i <= |orig| && Valid()
        invariant pools[..j] == Kept(orig[..i], accepted) && pools[j..] == orig[i..]
        invariant pToIPPool == old(pToIPPool) - Rejected(orig[..i], accepted)
        decreases |pools| - j
      {
        var pool := pools[j];
        var head, rest := pools[..j], pools[j + 1..];
        assert rest == pools[j..][1..] == orig[i + 1..] && pool == pools[j..][0] == orig[i];
        assert orig[..i + 1] == orig[..i] + [pool];
        KeptStep(orig[..i], pool, accepted);
        if pool !in accepted {
          pToIPPool := pToIPPool - {pool};
          pools := head + rest;
          assert pools[..j] == head && pools[j..] == rest;
          j := j - 1;
        } else {
          assert pools[..j + 1] == head + [pool] && pools[j + 1..] == rest;
        }
        j := j + 1;
        i := i + 1;
      }
      assert pools[j..] == [] && pools[..j] == pools && orig[..i] == orig;
      return if |pools| == 0 then Err(NoAvailablePool) else Ok(());
    }

    /** `sortPoolCandidates`: the names of the fetched pools in priority order. */
    method Sort()
      requires Valid()
      modifies this`pools
      ensures Unique(pools) && Elems(pools) == pToIPPool.Keys
      ensures RankOrder(pools, pToIPPool)
    {
      hide Unique, ByPriority, RankOrder, SortByPriority;
      var collected: seq<Pool> := [];
      var left := pToIPPool.Keys;
      UniqueNothing();
      while left != {}
        invariant left <= pToIPPool.Keys && Unique(Names(collected))
        invariant forall q :: q in collected <==> q.name in pToIPPool.Keys - left && pToIPPool[q.name] == q
        decreases left
      {
        var n :| n in left;
        UniqueAppend(collected, pToIPPool[n]);
        collected := collected + [pToIPPool[n]];
        left := left - {n};
      }
      var sorted := SortByPriority(collected);
      SortMeaning(collected);
      pools := Names(sorted);
      SortedNames(sorted, pToIPPool);
    }
  }

  function Elems(names: seq<Name>): set<Name> {
    set n | n in names
  }

  lemma KeptNothing(accepted: set<Name>)
    ensures Kept([], accepted) == [] && Rejected([], accepted) == {}
  {
  }

  lemma KeptStep(pools: seq<Name>, pool: Name, accepted: set<Name>)
    ensures Kept(pools + [pool], accepted) == Kept(pools, accepted) + (if pool in accepted then [pool] else [])
    ensures Rejected(pools + [pool], accepted) == Rejected(pools, accepted) + (if pool in accepted then {} else {pool})
  {
    assert (pools + [pool])[..|pools|] == pools;
    assert forall n :: n in pools + [pool] <==> n in pools || n == pool;
  }

  lemma UniqueNothing()
    ensures Unique([]) && Names([]) == []
  {
  }

  /** A duplicate shows up when its second copy is reached. */
  lemma UniqueStep(pools: seq<Name>, i: nat)
    requires i < |pools| && Unique(pools[..i])
    ensures Unique(pools[..i + 1]) <==> pools[i] !in pools[..i]
    ensures Unique(pools) ==> pools[i] !in pools[..i]
    ensures Elems(pools[..i + 1]) == Elems(pools[..i]) + {pools[i]}
  {
  }

  lemma UniqueAppend(ps: seq<Pool>, p: Pool)
    requires Unique(Names(ps)) && forall q | q in ps :: q.name != p.name
    ensures Unique(Names(ps + [p]))
  {
  }

  // ----- The library sort, as an insertion sort -----

  /** Put a pool in front of all it does not come after. */
  function Insert(p: Pool, sorted: seq<Pool>): seq<Pool> {
    if sorted == [] || !Less(sorted[0], p) then [p] + sorted else [sorted[0]] + Insert(p, sorted[1..])
  }

  function SortByPriority(ps: seq<Pool>): seq<Pool> {
    if ps == [] then [] else Insert(ps[0], SortByPriority(ps[1..]))
  }

  lemma {:induction false} InsertMembers(p: Pool, sorted: seq<Pool>)
    ensures forall q :: q in Insert(p, sorted) <==> q == p || q in sorted
  {
    hide Less;
    if sorted != [] && Less(sorted[0], p) {
      InsertMembers(p, sorted[1..]);
      assert sorted == [sorted[0]] + sorted[1..];
    }
  }

  lemma {:induction false} InsertOrder(p: Pool, sorted: seq<Pool>)
    requires ByPriority(sorted) && Unique(Names(sorted)) && forall q | q in sorted :: q.name != p.name
    ensures ByPriority(Insert(p, sorted)) && Unique(Names(Insert(p, sorted)))
  {
    hide Less, Rank;
    if sorted == [] {
    } else {
      LessIsByRank(sorted[0], p);
      if Less(sorted[0], p) {
        TailOk(sorted);
        InsertOrder(p, sorted[1..]);
        InsertMembers(p, sorted[1..]);
        ConsOk(sorted[0], Insert(p, sorted[1..]));
      } else {
        ConsOk(p, sorted);
      }
    }
  }

  lemma TailOk(sorted: seq<Pool>)
    requires sorted != [] && ByPriority(sorted) && Unique(Names(sorted))
    ensures ByPriority(sorted[1..]) && Unique(Names(sorted[1..]))
    ensures forall q | q in sorted[1..] :: Rank(sorted[0]) >= Rank(q) && q.name != sorted[0].name && q in sorted
  {
  }

  lemma ConsOk(p: Pool, rest: seq<Pool>)
    requires ByPriority(rest) && Unique(Names(rest)) && forall q | q in rest :: q.name != p.name
    requires (forall q | q in rest :: Rank(p) >= Rank(q)) || (rest != [] && Rank(p) >= Rank(rest[0]))
    ensures ByPriority([p] + rest) && Unique(Names([p] + rest))
  {
    hide Rank;
    forall k | 0 <= k < |rest| ensures Rank(p) >= Rank(rest[k]) && rest[k].name != p.name {
      assert rest[k] in rest;
      assert k > 0 ==> Rank(rest[0]) >= Rank(rest[k]);
    }
  }

  lemma {:induction false} SortMeaning(ps: seq<Pool>)
    ensures forall q :: q in SortByPriority(ps) <==> q in ps
    ensures Unique(Names(ps)) ==> ByPriority(SortByPriority(ps)) && Unique(Names(SortByPriority(ps)))
  {
    hide Insert, ByPriority;
    if ps == [] {
      NothingOrdered();
    } else {
      var rest := SortByPriority(ps[1..]);
      SortMeaning(ps[1..]);
      InsertMembers(ps[0], rest);
      assert ps == [ps[0]] + ps[1..];
      if Unique(Names(ps)) {
        NamesTail(ps);
        InsertOrder(ps[0], rest);
      }
    }
  }

  lemma NothingOrdered()
    ensures ByPriority([])
  {
  }

  lemma NamesTail(ps: seq<Pool>)
    requires ps != [] && Unique(Names(ps))
    ensures Unique(Names(ps[1..])) && forall q | q in ps[1..] :: q.name != ps[0].name
  {
  }

  lemma SortedNames(sorted: seq<Pool>, m: map<Name, Pool>)
    requires ByPriority(sorted) && (forall n | n in m :: m[n].name == n)
    requires forall q :: q in sorted <==> q.name in m && m[q.name] == q
    ensures Elems(Names(sorted)) == m.Keys && RankOrder(Names(sorted), m)
  {
  }

  // ----- Allocation -----

  /** Pool `k` gives the answer and none before it gives one. */
  predicate FirstAnswer(pools: seq<Name>, outcome: map<Name, nat>, k: nat, answer: (Name, nat)) {
    && k < |pools| && pools[k] in outcome && answer == (pools[k], outcome[pools[k]])
    && forall j :: 0 <= j < k ==> pools[j] !in outcome
  }

  /** `allocateIPFromCandidate` without reuse: try the pools in turn, stop at the first that answers.
      An empty list of pools is an error too. */
  method AllocateFromPools(pools: seq<Name>, outcome: map<Name, nat>) returns (r: Result<(Name, nat), Error>)
    ensures r.Err? <==> Elems(pools) !! outcome.Keys
    ensures r.Ok? ==> exists k: nat :: FirstAnswer(pools, outcome, k, r.value)
  {
    var errs := 0;
    var result: Option<(Name, nat)> := None;
    for i := 0 to |pools|
      invariant errs == i && result.None?
      invariant forall j :: 0 <= j < i ==> pools[j] !in outcome
    {
      if pools[i] in outcome {
        result := Some((pools[i], outcome[pools[i]]));
        assert pools[i] in Elems(pools) && FirstAnswer(pools, outcome, i, result.value);
        break;
      }
      errs := errs + 1;
    }
    if errs == |pools| {
      return Err(AllPoolsFailed);
    }
    return Ok(result.value);
  }

  /** The pools allocation may try: the named ones that are accepted, and those fetched before that the
      candidate does not name, which the sort brings back in. */
  function Offered(named: set<Name>, fetched: set<Name>, accepted: set<Name>): set<Name> {
    named * accepted + (fetched - named)
  }

  /** A caller that prefetches only pools it names is offered exactly the accepted ones. */
  lemma OfferedIsAccepted(named: set<Name>, fetched: set<Name>, accepted: set<Name>)
    ensures Offered(named, fetched, accepted) == named * accepted <==> fetched <= named
  {
    if fetched <= named {
      assert fetched - named == {};
    } else {
      var n :| n in fetched && n !in named;
      assert n in Offered(named, fetched, accepted);
    }
  }

  /** The candidate can be set up: no duplicate, every pool known, at least one accepted. */
  predicate Usable(pools: seq<Name>, fetched: set<Name>, cluster: set<Name>, accepted: set<Name>) {
    Unique(pools) && Elems(pools) <= fetched + cluster && Elems(pools) * accepted != {}
  }

  /** The whole way. It fails exactly when the candidate is not usable or every offered pool fails;
      otherwise the address comes from an offered pool, and every offered pool of higher rank had failed. */
  method AllocateForCandidate(c: PoolCandidate, cluster: map<Name, Pool>, accepted: set<Name>, outcome: map<Name, nat>)
    returns (r: Result<(Name, nat), Error>)
    requires c.Valid() && forall n | n in cluster :: cluster[n].name == n
    modifies c
    ensures var offered := Offered(Elems(old(c.pools)), old(c.pToIPPool).Keys, accepted);
      r.Ok? <==> Usable(old(c.pools), old(c.pToIPPool).Keys, cluster.Keys, accepted) && !(offered !! outcome.Keys)
    ensures var offered := Offered(Elems(old(c.pools)), old(c.pToIPPool).Keys, accepted);
      r.Ok? ==>
        && Unique(c.pools) && Elems(c.pools) == c.pToIPPool.Keys == offered
        && r.value.0 in offered && r.value.0 in outcome && outcome[r.value.0] == r.value.1
        && forall n | n in offered && Rank(c.pToIPPool[n]) > Rank(c.pToIPPool[r.value.0]) :: n !in outcome
  {
    hide Unique, Rank, RankOrder, Kept, FirstAnswer, Rejected, Offered, Elems;
    ghost var first, fetched := c.pools, c.pToIPPool.Keys;
    ghost var offered := Offered(Elems(first), fetched, accepted);
    var checked := c.Precheck(cluster);
    UsableParts(first, fetched, cluster.Keys);
    if checked.Err? {
      return Err(checked.error);
    }
    EmptyKept(first, accepted);
    FilteredKeys(first, fetched, accepted);
    var filtered := c.Filter(accepted);
    if filtered.Err? {
      return Err(filtered.error);
    }
    assert c.pToIPPool.Keys == offered;
    c.Sort();
    r := AllocateFromPools(c.pools, outcome);
    if r.Ok? {
      HigherFailed(c.pools, c.pToIPPool, outcome, r.value);
    }
  }

  lemma UsableParts(pools: seq<Name>, fetched: set<Name>, cluster: set<Name>)
    ensures Elems(pools) <= fetched + cluster <==> forall n | n in pools :: n in fetched || n in cluster
  {
    assert forall n :: n in Elems(pools) <==> n in pools;
  }

  lemma EmptyKept(pools: seq<Name>, accepted: set<Name>)
    ensures Kept(pools, accepted) == [] <==> Elems(pools) * accepted == {}
  {
    hide Kept;
    KeptMeaning(pools, accepted);
    var kept := Kept(pools, accepted);
    assert forall n :: n in Elems(pools) * accepted <==> n in kept;
    assert kept != [] ==> kept[0] in kept;
  }

  /** After the three steps the fetched pools are the offered ones. */
  lemma FilteredKeys(pools: seq<Name>, fetched: set<Name>, accepted: set<Name>)
    ensures fetched + Elems(pools) - Rejected(pools, accepted) == Offered(Elems(pools), fetched, accepted)
  {
  }

  lemma HigherFailed(pools: seq<Name>, m: map<Name, Pool>, outcome: map<Name, nat>, answer: (Name, nat))
    requires Elems(pools) == m.Keys && exists k: nat :: FirstAnswer(pools, outcome, k, answer)
    requires RankOrder(pools, m)
    ensures answer.0 in m && answer.0 in outcome && outcome[answer.0] == answer.1
    ensures forall n | n in m && Rank(m[n]) > Rank(m[answer.0]) :: n !in outcome
  {
  }
}
