/** The search for free addresses that allocation uses. */
module FreeSearch {
  import opened Wrappers
  import opened Address
  import opened Ranges
  import opened Cidr

  /** The carry successor of a 16-byte address, read back in its family: only the
      top v6 address wraps around; the one after the top v4 address is no v4 address. */
  function CarrySucc(fam: Family, a: nat): nat {
    if fam.V6? && a + 1 == P128 then 0 else a + 1
  }

  /** The successor used by the search is the byte-carry one of the 16-byte forms. */
  lemma CarrySuccIsCarryNext(fam: Family, a: nat)
    requires a < Limit(fam)
    ensures Value(CarryNext(Embed(fam, a))) == (if fam.V4? then 0xFFFF * P32 else 0) + CarrySucc(fam, a)
  {
    hide Embed, Value, FixedBytes, Pow256;
    EmbedValue(fam, a);
    EmbedLength(fam, a);
    PowValues();
    var v := Value(Embed(fam, a)) + 1;
    assert v < P128 ==> v % P128 == v;
    ValueOfFixedBytes(16, v % P128);
  }

  predicate WholeSpace(fam: Family, r: IPRange) {
    fam.V6? && r.Lo() == 0 && r.Hi() + 1 == P128
  }

  /** The addresses the search visits in one range text; unparsable and reversed ones are skipped,
      and the whole v6 space as one range ends before it starts. */
  function Visited(fam: Family, text: Option<IPRange>): seq<nat> {
    match text
    case None => []
    case Some(r) => if WholeSpace(fam, r) then [] else Enumerate(r.Lo(), r.Hi())
  }

  function AllVisited(fam: Family, texts: seq<Option<IPRange>>): seq<nat> {
    if texts == [] then [] else Visited(fam, texts[0]) + AllVisited(fam, texts[1..])
  }

  function Take(xs: seq<nat>, n: int): seq<nat> {
    if n <= 0 then [] else if n >= |xs| then xs else xs[..n]
  }

  /** What the search returns: the first `count` visited addresses outside the list. */
  function Find(fam: Family, texts: seq<Option<IPRange>>, taken: set<nat>, count: int): seq<nat> {
    Take(Diff(AllVisited(fam, texts), taken), count)
  }

  function KeptOf(x: nat, ex: set<nat>): seq<nat> {
    if x in ex then [] else [x]
  }

  lemma DiffHead(x: nat, rest: seq<nat>, ex: set<nat>)
    ensures Diff([x] + rest, ex) == KeptOf(x, ex) + Diff(rest, ex)
  {
  }

  lemma {:induction false} DiffConcat(xs: seq<nat>, ys: seq<nat>, ex: set<nat>)
    ensures Diff(xs + ys, ex) == Diff(xs, ex) + Diff(ys, ex)
  {
    if xs == [] {
      assert xs + ys == ys;
    } else {
      hide Diff, KeptOf;
      DiffConcat(xs[1..], ys, ex);
      DiffHead(xs[0], xs[1..], ex);
      DiffHead(xs[0], xs[1..] + ys, ex);
      assert xs == [xs[0]] + xs[1..];
      assert xs + ys == [xs[0]] + (xs[1..] + ys);
      Regroup(KeptOf(xs[0], ex), Diff(xs[1..], ex), Diff(ys, ex));
    }
  }

  lemma Regroup(xs: seq<nat>, ys: seq<nat>, zs: seq<nat>)
    ensures (xs + ys) + zs == xs + (ys + zs)
  {
  }

  /** The inner loop: one well-ordered range. */
  method SearchRange(fam: Family, r: IPRange, taken: set<nat>, count: int) returns (found: seq<nat>)
    requires r.Ordered() && r.Hi() < Limit(fam)
    ensures found == Take(Diff(Visited(fam, Some(r)), taken), count)
  {
    hide Diff, Take;
    var stop := CarrySucc(fam, r.Hi());
    var ip, left := r.Lo(), count;
    found := [];
    ghost var pos := r.Lo(); // the cursor before it wraps around
    ghost var goal := Take(Diff(Visited(fam, Some(r)), taken), count);
    assert goal == [] + goal;
    while ip != stop && left > 0
      invariant r.Lo() <= pos <= r.Hi() + 1
      invariant ip == if fam.V6? && pos == P128 then 0 else pos
      invariant WholeSpace(fam, r) ==> ip == stop && found == [] && left == count
      invariant !WholeSpace(fam, r) ==> found + Take(Diff(Enumerate(pos, r.Hi()), taken), left) == goal
      decreases r.Hi() + 1 - pos
    {
      SearchStep(pos, r.Hi(), taken, left, found);
      if ip !in taken {
        found := found + [ip];
        left := left - 1;
      }
      ip := CarrySucc(fam, ip);
      pos := pos + 1;
    }
    SearchDone(taken, left);
    TakeNothing(Diff(Enumerate(pos, r.Hi()), taken), left);
    assert found + [] == found;
  }

  lemma SearchStep(pos: nat, hi: nat, taken: set<nat>, left: int, found: seq<nat>)
    requires pos <= hi && left > 0
    ensures found + Take(Diff(Enumerate(pos, hi), taken), left) ==
      if pos in taken then found + Take(Diff(Enumerate(pos + 1, hi), taken), left)
      else (found + [pos]) + Take(Diff(Enumerate(pos + 1, hi), taken), left - 1)
  {
    var xs, rest := Enumerate(pos, hi), Diff(Enumerate(pos + 1, hi), taken);
    assert xs[1..] == Enumerate(pos + 1, hi) && xs[0] == pos;
    assert Diff(xs, taken) == if pos in taken then rest else [pos] + rest;
    if pos !in taken {
      TakeConcat([pos], rest, left, found);
      assert Take([pos], left) == [pos];
    }
  }

  lemma SearchDone(taken: set<nat>, left: int)
    ensures Take(Diff([], taken), left) == []
  {
  }

  lemma TakeNothing(xs: seq<nat>, n: int)
    ensures n <= 0 ==> Take(xs, n) == []
  {
  }

  /** Taking from a concatenation: what the first part does not yield comes from the second. */
  lemma TakeConcat(xs: seq<nat>, ys: seq<nat>, n: int, done: seq<nat>)
    ensures |Take(xs, n)| <= |xs|
    ensures done + Take(xs + ys, n) == (done + Take(xs, n)) + Take(ys, n - |Take(xs, n)|)
  {
  }

  /** The addresses of a list that may hold nil entries. */
  function NonNil(ipList: seq<Option<nat>>): set<nat> {
    set o | o in ipList && o.Some? :: o.value
  }

  /** `FindAvailableIPs`: walk each range with the carry successor up to the successor of its end. */
  method FindAvailableIPs(fam: Family, texts: seq<Option<IPRange>>, ipList: seq<Option<nat>>, count: int)
    returns (availableIPs: seq<nat>)
    requires forall t | t in texts && t.Some? :: t.value.Lo() < Limit(fam) && t.value.Hi() < Limit(fam)
    ensures availableIPs == Find(fam, texts, NonNil(ipList), count)
  {
    hide Diff, Enumerate, Take, NonNil, AllVisited, Visited;
    var taken := MarkTaken(ipList);
    availableIPs := [];
    var left, i := count, 0;
    assert Find(fam, texts, taken, count) == [] + Take(Diff(AllVisited(fam, texts[0..]), taken), count) by {
      assert texts[0..] == texts;
    }
    while i < |texts| && left != 0
      invariant 0 <= i <= |texts|
      invariant availableIPs + Take(Diff(AllVisited(fam, texts[i..]), taken), left) == Find(fam, texts, taken, count)
    {
      var here, rest := Visited(fam, texts[i]), AllVisited(fam, texts[i + 1..]);
      VisitedStep(fam, texts, i);
      DiffConcat(here, rest, taken);
      TakeConcat(Diff(here, taken), Diff(rest, taken), left, availableIPs);
      var found := [];
      if texts[i].Some? && texts[i].value.Lo() <= texts[i].value.Hi() {
        assert texts[i] in texts;
        found := SearchRange(fam, texts[i].value, taken, left);
      } else {
        SearchSkipped(fam, texts[i], taken, left);
      }
      availableIPs := availableIPs + found;
      left := left - |found|;
      i := i + 1;
    }
    assert i == |texts| ==> texts[i..] == [];
    NothingVisited(fam);
    SearchDone(taken, left);
    TakeNothing(Diff(AllVisited(fam, texts[i..]), taken), left);
    assert availableIPs + [] == availableIPs;
  }

  /** The map of the addresses not to hand out. */
  method MarkTaken(ipList: seq<Option<nat>>) returns (taken: set<nat>)
    ensures taken == NonNil(ipList)
  {
    taken := {};
    for k := 0 to |ipList|
      invariant taken == NonNil(ipList[..k])
    {
      assert ipList[..k + 1] == ipList[..k] + [ipList[k]];
      if ipList[k].Some? {
        taken := taken + {ipList[k].value};
      }
    }
    assert ipList[..|ipList|] == ipList;
  }

  lemma NothingVisited(fam: Family)
    ensures AllVisited(fam, []) == []
  {
  }

  lemma VisitedStep(fam: Family, texts: seq<Option<IPRange>>, i: nat)
    requires i < |texts|
    ensures AllVisited(fam, texts[i..]) == Visited(fam, texts[i]) + AllVisited(fam, texts[i + 1..])
  {
  }

  lemma SearchSkipped(fam: Family, text: Option<IPRange>, taken: set<nat>, left: int)
    requires text.None? || text.value.Lo() > text.value.Hi()
    ensures Take(Diff(Visited(fam, text), taken), left) == []
  {
  }

  // ----- What the search finds -----

  /** The addresses a reader expects to be searched: those of every parsable, well-ordered range. */
  function Intended(texts: seq<Option<IPRange>>): seq<nat> {
    if texts == [] then []
    else (if texts[0].Some? then Enumerate(texts[0].value.Lo(), texts[0].value.Hi()) else []) + Intended(texts[1..])
  }

  lemma {:induction false} VisitedIsIntended(fam: Family, texts: seq<Option<IPRange>>)
    requires forall t | t in texts && t.Some? :: !WholeSpace(fam, t.value)
    ensures AllVisited(fam, texts) == Intended(texts)
  {
    if texts != [] {
      assert texts[0] in texts;
      VisitedIsIntended(fam, texts[1..]);
    }
  }

  /** Without the whole v6 space among the ranges, the search returns the first addresses of the
      ranges, in range order, that are not taken: as many as asked for, or all there are. */
  lemma FindsFirstAvailable(fam: Family, texts: seq<Option<IPRange>>, taken: set<nat>, count: nat)
    requires forall t | t in texts && t.Some? :: !WholeSpace(fam, t.value)
    ensures var free := Diff(Intended(texts), taken); var found := Find(fam, texts, taken, count);
      && |found| == (if count <= |free| then count else |free|)
      && found == free[..|found|]
  {
    VisitedIsIntended(fam, texts);
  }

  /** A single range is searched as intended exactly unless it is the whole v6 space,
      something was asked for, and some address of the space is free. */
  lemma WholeSpaceLost(fam: Family, r: IPRange, taken: set<nat>, count: int)
    ensures Find(fam, [Some(r)], taken, count) == Take(Diff(Intended([Some(r)]), taken), count)
       <==> !(WholeSpace(fam, r) && count > 0 && Diff(Enumerate(r.Lo(), r.Hi()), taken) != [])
  {
    var texts := [Some(r)];
    assert texts[1..] == [];
    assert Enumerate(r.Lo(), r.Hi()) + [] == Enumerate(r.Lo(), r.Hi());
    assert AllVisited(fam, texts) == Visited(fam, Some(r));
    assert Intended(texts) == Enumerate(r.Lo(), r.Hi());
  }

  /** A found address lies in a well-ordered range and is not taken; nothing found means nothing was free. */
  lemma {:induction false} VisitedMembers(fam: Family, rs: seq<IPRange>, a: nat)
    ensures a in AllVisited(fam, Somes(rs)) <==> Searched(fam, rs, a)
  {
    if rs != [] {
      VisitedMembers(fam, rs[1..], a);
      assert Somes(rs)[1..] == Somes(rs[1..]);
      var head := Visited(fam, Some(rs[0]));
      assert a in head <==> rs[0].Has(a) && !WholeSpace(fam, rs[0]) by {
        if rs[0].Has(a) { assert Enumerate(rs[0].Lo(), rs[0].Hi())[a - rs[0].Lo()] == a; }
      }
      if i :| 0 <= i < |rs[1..]| && rs[1..][i].Has(a) && !WholeSpace(fam, rs[1..][i]) {
        assert rs[i + 1].Has(a) && !WholeSpace(fam, rs[i + 1]);
      }
      if i :| 0 < i < |rs| && rs[i].Has(a) && !WholeSpace(fam, rs[i]) {
        assert rs[1..][i - 1].Has(a) && !WholeSpace(fam, rs[1..][i - 1]);
      }
    }
  }

  /** A list without missing entries, such as the texts of a pool's stored ranges, which all parse. */
  function Somes<T>(xs: seq<T>): (r: seq<Option<T>>)
    ensures |r| == |xs| && forall i :: 0 <= i < |xs| ==> r[i] == Some(xs[i])
  {
    seq(|xs|, i requires 0 <= i < |xs| => Some(xs[i]))
  }

  /** The address lies in a well-ordered range that the search walks through. */
  ghost predicate Searched(fam: Family, rs: seq<IPRange>, a: nat) {
    exists i :: 0 <= i < |rs| && rs[i].Has(a) && !WholeSpace(fam, rs[i])
  }

  /** The first free address of a pool, as allocation asks for it. */
  function FirstFree(fam: Family, rs: seq<IPRange>, taken: set<nat>): (r: Option<nat>)
  {
    var found := Find(fam, Somes(rs), taken, 1);
    if found == [] then None else Some(found[0])
  }

  lemma FirstFreeMeaning(fam: Family, rs: seq<IPRange>, taken: set<nat>)
    ensures var r := FirstFree(fam, rs, taken);
      && (r.Some? ==> Searched(fam, rs, r.value) && r.value !in taken)
      && (r.None? ==> forall a :: Searched(fam, rs, a) ==> a in taken)
  {
    hide Searched, AllVisited, Diff;
    var free := Diff(AllVisited(fam, Somes(rs)), taken);
    forall a ensures a in free <==> Searched(fam, rs, a) && a !in taken {
      VisitedMembers(fam, rs, a);
      DiffMembers(AllVisited(fam, Somes(rs)), taken, a);
    }
    if free != [] { assert free[0] in free; }
  }

  /** Every address the range has is taken, or it is not searched. */
  predicate Exhausted(fam: Family, r: IPRange, taken: set<nat>) {
    WholeSpace(fam, r) || forall a | r.Lo() <= a <= r.Hi() :: a in taken
  }

  /** The address is the lowest free one of the first range that has any. */
  ghost predicate FirstOf(fam: Family, rs: seq<IPRange>, taken: set<nat>, ip: nat) {
    exists i :: 0 <= i < |rs| && LowestOf(fam, rs, taken, ip, i)
  }

  ghost predicate LowestOf(fam: Family, rs: seq<IPRange>, taken: set<nat>, ip: nat, i: nat)
    requires i < |rs|
  {
    && rs[i].Has(ip) && ip !in taken && !WholeSpace(fam, rs[i]) && (forall a | rs[i].Lo() <= a < ip :: a in taken)
    && forall j :: 0 <= j < i ==> Exhausted(fam, rs[j], taken)
  }

  /** The search answers the lowest free address of the first range that has one, and nothing exactly if none has. */
  lemma {:induction false} FirstFreeIsFirst(fam: Family, rs: seq<IPRange>, taken: set<nat>)
    ensures var r := FirstFree(fam, rs, taken);
      if r.Some? then FirstOf(fam, rs, taken, r.value) else forall i :: 0 <= i < |rs| ==> Exhausted(fam, rs[i], taken)
  {
    hide Diff, Exhausted;
    if rs != [] {
      var rest := rs[1..];
      FirstFreeIsFirst(fam, rest, taken);
      var head, tail := Visited(fam, Some(rs[0])), AllVisited(fam, Somes(rest));
      assert Somes(rs)[1..] == Somes(rest) && AllVisited(fam, Somes(rs)) == head + tail;
      DiffConcat(head, tail, taken);
      FirstInRange(fam, rs[0], taken);
      if Diff(head, taken) == [] {
        LaterRange(fam, rs, taken);
      } else {
        assert LowestOf(fam, rs, taken, Diff(head, taken)[0], 0);
      }
    } else {
      NothingFree(fam, taken);
    }
  }

  lemma NothingFree(fam: Family, taken: set<nat>)
    ensures FirstFree(fam, [], taken).None?
  {
  }

  lemma LaterRange(fam: Family, rs: seq<IPRange>, taken: set<nat>)
    requires rs != [] && Exhausted(fam, rs[0], taken)
    ensures forall ip :: FirstOf(fam, rs[1..], taken, ip) ==> FirstOf(fam, rs, taken, ip)
    ensures (forall i :: 0 <= i < |rs[1..]| ==> Exhausted(fam, rs[1..][i], taken)) ==>
      forall i :: 0 <= i < |rs| ==> Exhausted(fam, rs[i], taken)
  {
    hide Exhausted;
    forall ip: nat | FirstOf(fam, rs[1..], taken, ip) ensures FirstOf(fam, rs, taken, ip) {
      var i :| 0 <= i < |rs[1..]| && LowestOf(fam, rs[1..], taken, ip, i);
      assert forall j :: 0 < j <= i ==> rs[j] == rs[1..][j - 1];
      assert LowestOf(fam, rs, taken, ip, i + 1);
    }
    assert forall j :: 0 < j < |rs| ==> rs[j] == rs[1..][j - 1];
  }

  /** Of one range the first kept address is the lowest free one. */
  lemma FirstInRange(fam: Family, r: IPRange, taken: set<nat>)
    ensures var free := Diff(Visited(fam, Some(r)), taken);
      && (free == [] <==> Exhausted(fam, r, taken))
      && (free != [] ==> r.Has(free[0]) && free[0] !in taken && !WholeSpace(fam, r) && forall a | r.Lo() <= a < free[0] :: a in taken)
  {
    if !WholeSpace(fam, r) {
      FirstAbove(r.Lo(), r.Hi(), taken);
    }
  }

  lemma {:induction false} FirstAbove(lo: nat, hi: nat, taken: set<nat>)
    ensures var free := Diff(Enumerate(lo, hi), taken);
      && (free == [] <==> forall a | lo <= a <= hi :: a in taken)
      && (free != [] ==> lo <= free[0] <= hi && free[0] !in taken && forall a | lo <= a < free[0] :: a in taken)
    decreases hi + 1 - lo
  {
    if lo <= hi {
      FirstAbove(lo + 1, hi, taken);
      assert Enumerate(lo, hi)[1..] == Enumerate(lo + 1, hi);
    }
  }
}
