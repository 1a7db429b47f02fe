/** The interval form of a pool: includes checked for overlap, excludes cut out of them. */
module Cidr {
  import opened Wrappers
  import opened Address
  import opened Ranges
  import opened Blocks

  datatype Interval = Interval(raw: IPRange, start: nat, end: nat) {
    predicate Has(a: nat) { start <= a <= end }
  }

  ghost predicate In(rs: seq<Interval>, a: nat) {
    exists i :: 0 <= i < |rs| && rs[i].Has(a)
  }

  predicate Sound(rs: seq<Interval>) {
    forall i :: 0 <= i < |rs| ==> rs[i].start <= rs[i].end
  }

  predicate Apart(a: Interval, b: Interval) {
    a.end < b.start || b.end < a.start
  }

  predicate Disjoint(rs: seq<Interval>) {
    forall i, j :: 0 <= i < j < |rs| ==> Apart(rs[i], rs[j])
  }

  /** An include range with its bounds swapped into order. */
  function Normal(r: IPRange): Interval {
    if r.Lo() > r.Hi() then Interval(r, r.Hi(), r.Lo()) else Interval(r, r.Lo(), r.Hi())
  }

  function Normals(rs: seq<IPRange>): (ns: seq<Interval>)
    ensures |ns| == |rs| && Sound(ns)
    ensures forall i :: 0 <= i < |rs| ==> ns[i] == Normal(rs[i])
  {
    seq(|rs|, i requires 0 <= i < |rs| => Normal(rs[i]))
  }

  /** `parse` checks both bounds of an item against the base subnet. */
  predicate Inside(base: Block, rs: seq<IPRange>) {
    forall r | r in rs :: Contains(base, r.Lo()) && Contains(base, r.Hi())
  }

  // ----- Cutting excludes out -----

  /** What is left of one interval when a range is removed from it. */
  function Pieces(e: Interval, x: IPRange): seq<Interval> {
    if e.start > x.Hi() || e.end < x.Lo() then [e]
    else
      (if e.start < x.Lo() then [Interval(e.raw, e.start, x.Lo() - 1)] else []) +
      (if e.end > x.Hi() then [Interval(e.raw, x.Hi() + 1, e.end)] else [])
  }

  function RemoveOne(rs: seq<Interval>, x: IPRange): seq<Interval> {
    if rs == [] then [] else Pieces(rs[0], x) + RemoveOne(rs[1..], x)
  }

  function RemoveAll(rs: seq<Interval>, xs: seq<IPRange>): seq<Interval>
    decreases xs
  {
    if xs == [] then rs else RemoveAll(RemoveOne(rs, xs[0]), xs[1..])
  }

  /** The two nested loops of `removeExcludeIPRange`. */
  method RemoveExcludeIPRange(base: seq<Interval>, exclude: seq<IPRange>) returns (result: seq<Interval>)
    ensures result == RemoveAll(base, exclude)
  {
    hide Pieces;
    result := base;
    for k := 0 to |exclude|
      invariant RemoveAll(result, exclude[k..]) == RemoveAll(base, exclude)
    {
      var res := [];
      var x := exclude[k];
      for i := 0 to |result|
        invariant res + RemoveOne(result[i..], x) == RemoveOne(result, x)
      {
        var e := result[i];
        assert result[i..][1..] == result[i + 1..];
        var kept := PieceStep(e, x);
        RemoveOneStep(result, i, x, res);
        res := res + kept;
      }
      assert result[|result|..] == [] && res + [] == res;
      assert exclude[k..][1..] == exclude[k + 1..] && exclude[k..][0] == x;
      assert RemoveAll(result, exclude[k..]) == RemoveAll(res, exclude[k + 1..]);
      result := res;
    }
    assert exclude[|exclude|..] == [];
  }

  lemma RemoveOneStep(rs: seq<Interval>, i: nat, x: IPRange, done: seq<Interval>)
    requires i < |rs|
    ensures done + RemoveOne(rs[i..], x) == (done + Pieces(rs[i], x)) + RemoveOne(rs[i + 1..], x)
  {
  }

  /** The loop body of the inner closure: keep the interval, or the parts on either side. */
  method PieceStep(e: Interval, x: IPRange) returns (res: seq<Interval>)
    ensures res == Pieces(e, x)
    ensures e.start <= e.end ==> forall a :: In(res, a) <==> e.Has(a) && !x.Has(a)
  {
    res := [];
    if e.start > x.Hi() || e.end < x.Lo() {
      res := res + [e];
    } else {
      if e.start < x.Lo() {
        res := res + [Interval(e.raw, e.start, x.Lo() - 1)];
      }
      if e.end > x.Hi() {
        res := res + [Interval(e.raw, x.Hi() + 1, e.end)];
      }
    }
    if e.start <= e.end {
      PiecesMeaning(e, x);
    }
  }

  lemma PiecesMeaning(e: Interval, x: IPRange)
    requires e.start <= e.end
    ensures Sound(Pieces(e, x))
    ensures forall a :: In(Pieces(e, x), a) <==> e.Has(a) && !x.Has(a)
    ensures forall i :: 0 <= i < |Pieces(e, x)| ==> e.start <= Pieces(e, x)[i].start && Pieces(e, x)[i].end <= e.end
  {
    var ps := Pieces(e, x);
    forall a: nat ensures In(ps, a) <==> e.Has(a) && !x.Has(a) {
      if e.Has(a) && !x.Has(a) {
        assert ps[if |ps| == 2 && a > x.Hi() && !(a < x.Lo()) then 1 else 0].Has(a);
      }
    }
  }

  lemma {:induction false} RemoveOneMeaning(rs: seq<Interval>, x: IPRange)
    requires Sound(rs)
    ensures Sound(RemoveOne(rs, x))
    ensures forall a :: In(RemoveOne(rs, x), a) <==> In(rs, a) && !x.Has(a)
  {
    hide Pieces;
    if rs != [] {
      PiecesMeaning(rs[0], x);
      RemoveOneMeaning(rs[1..], x);
      var ps, rest := Pieces(rs[0], x), RemoveOne(rs[1..], x);
      forall a: nat ensures In(ps + rest, a) <==> In(rs, a) && !x.Has(a) {
        InConcat(ps, rest, a);
        InConcat(rs[..1], rs[1..], a);
        assert rs == rs[..1] + rs[1..];
        assert In(rs[..1], a) <==> rs[0].Has(a) by {
          if rs[0].Has(a) { assert rs[..1][0].Has(a); }
        }
      }
    }
  }

  lemma InConcat(rs: seq<Interval>, ts: seq<Interval>, a: nat)
    ensures In(rs + ts, a) <==> In(rs, a) || In(ts, a)
  {
    if i :| 0 <= i < |rs| && rs[i].Has(a) {
      assert (rs + ts)[i].Has(a);
    }
    if i :| 0 <= i < |ts| && ts[i].Has(a) {
      assert (rs + ts)[|rs| + i].Has(a);
    }
    if i :| 0 <= i < |rs + ts| && (rs + ts)[i].Has(a) {
      if i < |rs| { assert rs[i].Has(a); } else { assert ts[i - |rs|].Has(a); }
    }
  }

  /** The intervals denote the base minus every ordered exclude, however the excludes are written. */
  lemma {:induction false} RemoveAllMeaning(rs: seq<Interval>, xs: seq<IPRange>)
    requires Sound(rs)
    ensures Sound(RemoveAll(rs, xs))
    ensures forall a :: In(RemoveAll(rs, xs), a) <==> In(rs, a) && !Denotes(xs, a)
    decreases xs
  {
    hide In, RemoveOne;
    if xs != [] {
      RemoveOneMeaning(rs, xs[0]);
      RemoveAllMeaning(RemoveOne(rs, xs[0]), xs[1..]);
      forall a: nat ensures Denotes(xs, a) <==> xs[0].Has(a) || Denotes(xs[1..], a) {
        if i :| 0 <= i < |xs[1..]| && xs[1..][i].Has(a) {
          assert xs[i + 1].Has(a);
        }
        if i :| 0 < i < |xs| && xs[i].Has(a) {
          assert xs[1..][i - 1].Has(a);
        }
      }
    }
  }

  // ----- When the pieces stay pairwise disjoint -----

  /** A reversed exclude whose gap of two addresses or more lies inside the interval. */
  predicate Straddles(e: Interval, x: IPRange) {
    x.Hi() + 1 < x.Lo() && e.start <= x.Hi() && x.Lo() <= e.end
  }

  /** Removing a range keeps disjoint intervals disjoint, except when the range is written
      backwards across one of them: then the two parts kept overlap. */
  lemma {:induction false} RemoveOneDisjoint(rs: seq<Interval>, x: IPRange)
    requires Sound(rs) && Disjoint(rs)
    ensures Disjoint(RemoveOne(rs, x)) <==> !exists e :: e in rs && Straddles(e, x)
  {
    if rs != [] {
      var ps, rest := Pieces(rs[0], x), RemoveOne(rs[1..], x);
      RemoveOneDisjoint(rs[1..], x);
      RemoveOneMeaning(rs[1..], x);
      PiecesMeaning(rs[0], x);
      PiecesApart(rs, x);
      DisjointConcat(ps, rest);
      PiecesDisjoint(rs[0], x);
      assert forall e :: e in rs <==> e == rs[0] || e in rs[1..];
    }
  }

  lemma PiecesDisjoint(e: Interval, x: IPRange)
    requires e.start <= e.end
    ensures Disjoint(Pieces(e, x)) <==> !Straddles(e, x)
  {
    var ps := Pieces(e, x);
    assert |ps| == 2 ==> (Disjoint(ps) <==> Apart(ps[0], ps[1]));
  }

  lemma PiecesApart(rs: seq<Interval>, x: IPRange)
    requires Sound(rs) && Disjoint(rs) && rs != []
    ensures forall p, q | p in Pieces(rs[0], x) && q in RemoveOne(rs[1..], x) :: Apart(p, q)
  {
    hide In, Pieces, RemoveOne;
    PiecesMeaning(rs[0], x);
    RemoveOneMeaning(rs[1..], x);
    var ps, rest := Pieces(rs[0], x), RemoveOne(rs[1..], x);
    forall p, q | p in ps && q in rest ensures Apart(p, q) {
      var a := if p.start >= q.start then p.start else q.start;
      MemberIn(ps, p, a);
      MemberIn(rest, q, a);
      FirstApartFromRest(rs, a);
    }
  }

  lemma MemberIn(rs: seq<Interval>, r: Interval, a: nat)
    requires Sound(rs) && r in rs
    ensures r.start <= r.end && (r.Has(a) ==> In(rs, a))
  {
  }

  lemma FirstApartFromRest(rs: seq<Interval>, a: nat)
    requires Disjoint(rs) && rs != []
    ensures rs[0].Has(a) ==> !In(rs[1..], a)
  {
  }

  lemma DisjointConcat(ps: seq<Interval>, rest: seq<Interval>)
    requires forall p, q | p in ps && q in rest :: Apart(p, q)
    ensures Disjoint(ps + rest) <==> Disjoint(ps) && Disjoint(rest)
  {
    var all := ps + rest;
    if Disjoint(all) {
      forall i, j | 0 <= i < j < |ps| ensures Apart(ps[i], ps[j]) {
        assert Apart(all[i], all[j]);
      }
      forall i, j | 0 <= i < j < |rest| ensures Apart(rest[i], rest[j]) {
        assert Apart(all[|ps| + i], all[|ps| + j]);
      }
    }
  }

  lemma {:induction false} RemoveAllDisjoint(rs: seq<Interval>, xs: seq<IPRange>)
    requires Sound(rs) && Disjoint(rs) && AllOrdered(xs)
    ensures Disjoint(RemoveAll(rs, xs))
    decreases xs
  {
    if xs != [] {
      RemoveOneDisjoint(rs, xs[0]);
      RemoveOneMeaning(rs, xs[0]);
      assert xs[0] in xs;
      RemoveAllDisjoint(RemoveOne(rs, xs[0]), xs[1..]);
    }
  }

  /** A backward exclude removes nothing and makes the total count four addresses twice. */
  lemma BackwardExcludeOvercounts()
    ensures var left := RemoveAll([Interval(Span(1, 10), 1, 10)], [Span(8, 3)]);
      && Sound(left) && TotalSize(left) == 14
      && forall a :: In(left, a) <==> 1 <= a <= 10
  {
  }

  // ----- The CIDR object -----

  /** `NewCIDR` accepts: every bound lies in the base block and the includes are pairwise disjoint. */
  predicate Accepts(base: Block, ips: seq<IPRange>, exclude: seq<IPRange>) {
    Inside(base, ips) && Inside(base, exclude) && Disjoint(Normals(ips))
  }

  /** The intervals `NewCIDR` leaves. */
  function Available(ips: seq<IPRange>, exclude: seq<IPRange>): seq<Interval> {
    RemoveAll(Normals(ips), exclude)
  }

  /** The address is in some include, bounds in either order, and in no exclude. */
  ghost predicate Offers(ips: seq<IPRange>, exclude: seq<IPRange>, a: nat) {
    In(Normals(ips), a) && !Denotes(exclude, a)
  }

  lemma AvailableMeaning(ips: seq<IPRange>, exclude: seq<IPRange>)
    ensures Sound(Available(ips, exclude))
    ensures forall a :: In(Available(ips, exclude), a) <==> Offers(ips, exclude, a)
  {
    RemoveAllMeaning(Normals(ips), exclude);
  }

  /** Every offered address lies in the base block. */
  lemma OffersInsideBase(base: Block, ips: seq<IPRange>, exclude: seq<IPRange>, a: nat)
    requires Accepts(base, ips, exclude) && Offers(ips, exclude, a)
    ensures InBlock(base, a)
  {
    var i :| 0 <= i < |ips| && Normals(ips)[i].Has(a);
    assert ips[i] in ips;
    var n := Normal(ips[i]);
    DivideMonotone(n.start, a, Size(base));
    DivideMonotone(a, n.end, Size(base));
  }

  class CIDR {
    const base: Block
    var ranges: seq<Interval>

    constructor (base: Block)
      ensures this.base == base && ranges == []
    {
      this.base := base;
      ranges := [];
    }

    /** Appends an include range, or refuses it if one of four bound comparisons finds an overlap. */
    method AddIncludeRange(item: IPRange) returns (ok: bool)
      requires Sound(ranges)
      modifies this`ranges
      ensures ok <==> forall b | b in old(ranges) :: Apart(Normal(item), b)
      ensures ranges == if ok then old(ranges) + [Normal(item)] else old(ranges)
    {
      var a := Normal(item);
      for i := 0 to |ranges|
        invariant ranges == old(ranges)
        invariant forall k :: 0 <= k < i ==> Apart(a, ranges[k])
      {
        var b := ranges[i];
        if (a.start >= b.start && a.end <= b.end)
          || (a.start <= b.start && a.end >= b.end)
          || (a.start >= b.start && a.start <= b.end)
          || (a.end >= b.start && a.end <= b.end) {
          assert b in old(ranges) && !Apart(a, b);
          return false;
        }
      }
      ranges := ranges + [a];
      return true;
    }

    /** Sums `1 + (end - start)` over the intervals. */
    method TotalIP() returns (total: nat)
      requires Sound(ranges)
      ensures total == TotalSize(ranges)
    {
      total := 0;
      for i := 0 to |ranges|
        invariant total + TotalSize(ranges[i..]) == TotalSize(ranges)
      {
        assert ranges[i..][1..] == ranges[i + 1..];
        total := total + 1;
        total := total + (ranges[i].end - ranges[i].start);
      }
    }

    /** The total as an int, saturated at the largest 64-bit value. */
    method TotalIPInt() returns (n: nat)
      requires Sound(ranges)
      ensures n == if TotalSize(ranges) > MAX_INT64 then MAX_INT64 else TotalSize(ranges)
    {
      var total := TotalIP();
      if total > MAX_INT64 {
        return MAX_INT64;
      }
      return total;
    }

    /** Lists the given ranges that overlap one of this subnet's, pair by pair. */
    method IsOverlapIPRanges(rs: seq<Interval>) returns (overlaps: seq<IPRange>, found: bool)
      requires Sound(ranges) && Sound(rs)
      ensures found <==> exists a :: In(ranges, a) && In(rs, a)
      ensures found <==> overlaps != []
      ensures overlaps == Overlaps(ranges, rs)
    {
      overlaps := [];
      for i := 0 to |ranges|
        invariant overlaps == Overlaps(ranges[..i], rs)
      {
        var x := ranges[i];
        assert ranges[..i + 1][..i] == ranges[..i];
        for j := 0 to |rs|
          invariant overlaps == Overlaps(ranges[..i], rs) + OverlapsOne(x, rs[..j])
        {
          assert rs[..j + 1][..j] == rs[..j];
          var y := rs[j];
          if (x.start >= y.start && x.start <= y.end)
            || (x.end >= y.start && x.end <= y.end)
            || (y.start >= x.start && y.start <= x.end)
            || (y.end >= x.start && y.end <= x.end) {
            overlaps := overlaps + [y.raw];
          }
        }
        assert rs[..|rs|] == rs;
      }
      assert ranges[..|ranges|] == ranges;
      found := |overlaps| > 0;
      OverlapsMeaning(ranges, rs);
      ApartMeansNoCommon(ranges, rs);
    }
  }

  /** `NewCIDR`: add the includes one by one, then cut the excludes out. */
  method NewCIDR(base: Block, ips: seq<IPRange>, exclude: seq<IPRange>) returns (r: Result<CIDR, string>)
    ensures r.Ok? <==> Accepts(base, ips, exclude)
    ensures r.Ok? ==> r.value.base == base && r.value.ranges == Available(ips, exclude)
    ensures r.Ok? ==> Sound(r.value.ranges) && forall a :: In(r.value.ranges, a) <==> Offers(ips, exclude, a)
  {
    hide In, Offers, RemoveAll, Disjoint, Contains, Normal;
    var subnet := new CIDR(base);
    var ns := Normals(ips);
    assert Disjoint(ns[..0]) by { EmptyDisjoint(ns); }
    for i := 0 to |ips|
      invariant subnet.base == base
      invariant subnet.ranges == ns[..i] && Disjoint(ns[..i]) && Inside(base, ips[..i])
    {
      var item := ips[i];
      if !Contains(base, item.Lo()) || !Contains(base, item.Hi()) {
        assert item in ips;
        return Err("not match base subnet");
      }
      var ok := subnet.AddIncludeRange(item);
      ExtendDisjoint(ns, i);
      if !ok {
        return Err("range overlaps");
      }
      assert ips[..i + 1] == ips[..i] + [item] && ns[..i + 1] == ns[..i] + [ns[i]];
    }
    assert ips[..|ips|] == ips && ns[..|ips|] == ns;
    var parsed := ParseExcludes(base, exclude);
    if !parsed {
      return Err("not match base subnet");
    }
    subnet.ranges := RemoveExcludeIPRange(subnet.ranges, exclude);
    AvailableMeaning(ips, exclude);
    return Ok(subnet);
  }

  /** Parsing the exclude items: each bound is checked against the base block. */
  method ParseExcludes(base: Block, exclude: seq<IPRange>) returns (ok: bool)
    ensures ok <==> Inside(base, exclude)
  {
    hide Contains;
    for i := 0 to |exclude|
      invariant forall k :: 0 <= k < i ==> Contains(base, exclude[k].Lo()) && Contains(base, exclude[k].Hi())
    {
      var item := exclude[i];
      if !Contains(base, item.Lo()) || !Contains(base, item.Hi()) {
        assert item in exclude;
        return false;
      }
    }
    return true;
  }

  lemma EmptyDisjoint(ns: seq<Interval>)
    ensures Disjoint(ns[..0])
  {
  }

  /** Adding one interval keeps a prefix disjoint exactly when it is apart from all of it. */
  lemma ExtendDisjoint(ns: seq<Interval>, i: nat)
    requires i < |ns| && Disjoint(ns[..i])
    ensures Disjoint(ns[..i + 1]) <==> forall b | b in ns[..i] :: Apart(ns[i], b)
    ensures !Disjoint(ns[..i + 1]) ==> !Disjoint(ns)
  {
    var all := ns[..i + 1];
    if Disjoint(all) {
      forall b | b in ns[..i] ensures Apart(ns[i], b) {
        var k :| 0 <= k < i && ns[k] == b;
        assert Apart(all[k], all[i]);
      }
    }
    if forall b | b in ns[..i] :: Apart(ns[i], b) {
      forall j, k | 0 <= j < k < |all| ensures Apart(all[j], all[k]) {
        if k == i { assert ns[j] in ns[..i]; } else { assert Apart(ns[..i][j], ns[..i][k]); }
      }
    }
    if Disjoint(ns) {
      forall j, k | 0 <= j < k < |all| ensures Apart(all[j], all[k]) {
        assert Apart(ns[j], ns[k]);
      }
    }
  }

  /** The texts of the ranges that share an address with `x`, in order. */
  function OverlapsOne(x: Interval, rs: seq<Interval>): seq<IPRange> {
    if rs == [] then []
    else
      var n := |rs| - 1;
      OverlapsOne(x, rs[..n]) + if Apart(x, rs[n]) then [] else [rs[n].raw]
  }

  function Overlaps(xs: seq<Interval>, rs: seq<Interval>): seq<IPRange> {
    if xs == [] then [] else Overlaps(xs[..|xs| - 1], rs) + OverlapsOne(xs[|xs| - 1], rs)
  }

  lemma {:induction false} OverlapsOneMeaning(x: Interval, rs: seq<Interval>)
    ensures OverlapsOne(x, rs) == [] <==> forall j :: 0 <= j < |rs| ==> Apart(x, rs[j])
  {
    if rs != [] {
      var n := |rs| - 1;
      OverlapsOneMeaning(x, rs[..n]);
      assert forall j | 0 <= j < n :: rs[..n][j] == rs[j];
    }
  }

  lemma {:induction false} OverlapsMeaning(xs: seq<Interval>, rs: seq<Interval>)
    ensures Overlaps(xs, rs) == [] <==> forall k, j :: 0 <= k < |xs| && 0 <= j < |rs| ==> Apart(xs[k], rs[j])
  {
    if xs != [] {
      var n := |xs| - 1;
      OverlapsMeaning(xs[..n], rs);
      OverlapsOneMeaning(xs[n], rs);
      assert forall k | 0 <= k < n :: xs[..n][k] == xs[k];
    }
  }

  lemma ApartMeansNoCommon(rs: seq<Interval>, ts: seq<Interval>)
    requires Sound(rs) && Sound(ts)
    ensures (forall k, j :: 0 <= k < |rs| && 0 <= j < |ts| ==> Apart(rs[k], ts[j]))
       <==> !exists a :: In(rs, a) && In(ts, a)
  {
    if k, j :| 0 <= k < |rs| && 0 <= j < |ts| && !Apart(rs[k], ts[j]) {
      var a := if rs[k].start >= ts[j].start then rs[k].start else ts[j].start;
      assert rs[k].Has(a) && ts[j].Has(a);
      assert In(rs, a) && In(ts, a);
    }
  }

  // ----- Counting -----

  const MAX_INT64: nat := 0x7FFF_FFFF_FFFF_FFFF

  function TotalSize(rs: seq<Interval>): nat
    requires Sound(rs)
  {
    if rs == [] then 0
    else assert Sound(rs[1..]); 1 + (rs[0].end - rs[0].start) + TotalSize(rs[1..])
  }

  predicate Between(lo: nat, a: nat, hi: nat) {
    lo <= a <= hi
  }

  ghost function RangeSet(lo: nat, hi: nat): set<nat> {
    set a: nat | a <= hi && Between(lo, a, hi)
  }

  ghost function AddressSet(rs: seq<Interval>): set<nat> {
    if rs == [] then {} else RangeSet(rs[0].start, rs[0].end) + AddressSet(rs[1..])
  }

  lemma {:induction false} SpanSize(lo: nat, hi: nat)
    requires lo <= hi
    ensures |RangeSet(lo, hi)| == hi - lo + 1
    decreases hi
  {
    if lo == hi {
      assert RangeSet(lo, hi) == {lo};
    } else {
      SpanSize(lo, hi - 1);
      assert RangeSet(lo, hi) == RangeSet(lo, hi - 1) + {hi};
    }
  }

  lemma {:induction false} AddressSetMembers(rs: seq<Interval>)
    ensures forall a :: a in AddressSet(rs) <==> In(rs, a)
  {
    if rs != [] {
      AddressSetMembers(rs[1..]);
      forall a ensures a in AddressSet(rs) <==> In(rs, a) {
        InConcat(rs[..1], rs[1..], a);
        assert rs == rs[..1] + rs[1..];
        assert In(rs[..1], a) <==> rs[0].Has(a) by {
          if rs[0].Has(a) { assert rs[..1][0].Has(a); }
        }
      }
    }
  }

  /** The summed total is the number of distinct addresses exactly when the intervals are disjoint;
      otherwise it counts some address more than once. */
  lemma {:induction false} TotalCountsAddresses(rs: seq<Interval>)
    requires Sound(rs)
    ensures TotalSize(rs) >= |AddressSet(rs)|
    ensures TotalSize(rs) == |AddressSet(rs)| <==> Disjoint(rs)
  {
    if rs != [] {
      var head, rest := RangeSet(rs[0].start, rs[0].end), AddressSet(rs[1..]);
      TotalCountsAddresses(rs[1..]);
      SpanSize(rs[0].start, rs[0].end);
      UnionSize(head, rest);
      HeadApart(rs);
      DisjointConcatIff(rs);
    }
  }

  lemma UnionSize<T>(x: set<T>, y: set<T>)
    ensures |x + y| + |x * y| == |x| + |y|
  {
  }

  lemma HeadApart(rs: seq<Interval>)
    requires Sound(rs) && rs != []
    ensures RangeSet(rs[0].start, rs[0].end) * AddressSet(rs[1..]) == {}
       <==> forall j :: 0 < j < |rs| ==> Apart(rs[0], rs[j])
  {
    AddressSetMembers(rs[1..]);
    var common := RangeSet(rs[0].start, rs[0].end) * AddressSet(rs[1..]);
    if a :| a in common {
      var j :| 0 <= j < |rs[1..]| && rs[1..][j].Has(a);
      assert !Apart(rs[0], rs[j + 1]);
    }
    if j :| 0 < j < |rs| && !Apart(rs[0], rs[j]) {
      var a := if rs[0].start >= rs[j].start then rs[0].start else rs[j].start;
      assert rs[1..][j - 1].Has(a);
      assert a in common;
    }
  }

  lemma DisjointConcatIff(rs: seq<Interval>)
    requires rs != []
    ensures Disjoint(rs) <==> Disjoint(rs[1..]) && forall j :: 0 < j < |rs| ==> Apart(rs[0], rs[j])
  {
  }

  // ----- The enumerated count -----

  /** `getIPDiffSet` without sorting or limit: the source addresses not in the exclude set, in order. */
  function Diff(src: seq<nat>, ex: set<nat>): seq<nat> {
    if src == [] then []
    else if src[0] in ex then Diff(src[1..], ex)
    else [src[0]] + Diff(src[1..], ex)
  }

  lemma {:induction false} DiffMembers(src: seq<nat>, ex: set<nat>, a: nat)
    ensures a in Diff(src, ex) <==> a in src && a !in ex
  {
    if src != [] {
      DiffMembers(src[1..], ex, a);
      assert src == [src[0]] + src[1..];
    }
  }

  function Elems(xs: seq<nat>): set<nat> {
    set x | x in xs
  }

  /** `AssembleTotalIPs`: parse the includes, then the excludes, and subtract. */
  function AssembleTotalIPs(fam: Family, ips: seq<IPRange>, exclude: seq<IPRange>): Outcome<seq<nat>> {
    var total := ParseAll(fam, ips);
    if !total.Returns? then total
    else
      var ex := ParseAll(fam, exclude);
      if !ex.Returns? then ex else Returns(Diff(total.value, Elems(ex.value)))
  }

  predicate Distinct(xs: seq<nat>) {
    forall i, j :: 0 <= i < j < |xs| ==> xs[i] != xs[j]
  }

  lemma {:induction false} DiffDistinct(src: seq<nat>, ex: set<nat>)
    requires Distinct(src)
    ensures Distinct(Diff(src, ex))
  {
    if src != [] {
      DiffDistinct(src[1..], ex);
      DiffMembers(src[1..], ex, src[0]);
      assert src[0] !in src[1..];
    }
  }

  lemma {:induction false} FlattenDistinct(rs: seq<IPRange>)
    requires AllOrdered(rs) && Disjoint(Normals(rs))
    ensures Distinct(Flatten(rs))
  {
    if rs != [] {
      var head, rest := Enumerate(rs[0].Lo(), rs[0].Hi()), Flatten(rs[1..]);
      assert Normals(rs)[1..] == Normals(rs[1..]);
      DisjointConcatIff(Normals(rs));
      FlattenDistinct(rs[1..]);
      forall a | a in head ensures a !in rest {
        FlattenMembers(rs[1..], a);
        assert forall i | 0 < i < |rs| :: Apart(Normals(rs)[0], Normals(rs)[i]) && rs[i] in rs;
      }
      DistinctConcat(head, rest);
    }
  }

  lemma DistinctConcat(xs: seq<nat>, ys: seq<nat>)
    requires Distinct(xs) && Distinct(ys) && forall a | a in xs :: a !in ys
    ensures Distinct(xs + ys)
  {
    var all := xs + ys;
    forall i, j | 0 <= i < j < |all| ensures all[i] != all[j] {
      if i < |xs| <= j {
        assert all[i] in xs && all[j] in ys;
      }
    }
  }

  lemma {:induction false} DistinctSize(xs: seq<nat>, s: set<nat>)
    requires Distinct(xs) && forall a :: a in xs <==> a in s
    ensures |xs| == |s|
  {
    if xs == [] {
      assert s == {};
    } else {
      assert forall a :: a in xs[1..] <==> a in s - {xs[0]} by {
        assert xs == [xs[0]] + xs[1..];
      }
      DistinctSize(xs[1..], s - {xs[0]});
      assert xs[0] in s;
    }
  }

  /** For a pool that `NewCIDR` accepts and whose ranges are listed as their addresses, the interval count
      and the enumerated count agree, and both count the offered addresses. */
  lemma TotalsAgree(base: Block, ips: seq<IPRange>, exclude: seq<IPRange>)
    requires Accepts(base, ips, exclude) && Regular(base.fam, ips) && Regular(base.fam, exclude)
    ensures Sound(Available(ips, exclude)) && Disjoint(Available(ips, exclude))
    ensures AssembleTotalIPs(base.fam, ips, exclude).Returns?
    ensures forall a :: a in AssembleTotalIPs(base.fam, ips, exclude).value <==> Offers(ips, exclude, a)
    ensures TotalSize(Available(ips, exclude)) == |AssembleTotalIPs(base.fam, ips, exclude).value|
  {
    hide In, Flatten, RemoveAll, Disjoint, Distinct, Diff, ParseAll;
    RegularParses(base.fam, ips);
    RegularParses(base.fam, exclude);
    var rs, xs := Available(ips, exclude), AssembleTotalIPs(base.fam, ips, exclude).value;
    AvailableMeaning(ips, exclude);
    RemoveAllDisjoint(Normals(ips), exclude);
    TotalCountsAddresses(rs);
    AddressSetMembers(rs);
    FlattenDistinct(ips);
    DiffDistinct(Flatten(ips), Elems(Flatten(exclude)));
    forall a ensures a in xs <==> Offers(ips, exclude, a) {
      FlattenMembers(ips, a);
      FlattenMembers(exclude, a);
      DiffMembers(Flatten(ips), Elems(Flatten(exclude)), a);
      OrderedIncludes(ips, a);
    }
    DistinctSize(xs, AddressSet(rs));
  }

  /** Without ranges that stray, the enumerated form is there exactly when the includes and the excludes are
      listed; it panics or never comes exactly when parsing the one, or else the other, does. */
  lemma AssembleOutcome(fam: Family, ips: seq<IPRange>, exclude: seq<IPRange>)
    requires Straight(fam, ips) && Straight(fam, exclude)
    ensures AssembleTotalIPs(fam, ips, exclude).Returns? <==> Regular(fam, ips) && Regular(fam, exclude)
    ensures AssembleTotalIPs(fam, ips, exclude).Panics? <==>
      StopsWith(fam, ips, Panics) || (Regular(fam, ips) && StopsWith(fam, exclude, Panics))
    ensures AssembleTotalIPs(fam, ips, exclude).NeverReturns? <==>
      StopsWith(fam, ips, NeverReturns) || (Regular(fam, ips) && StopsWith(fam, exclude, NeverReturns))
  {
    hide Diff, ParseAll, Regular, StopsWith;
    StraightRegular(fam, ips);
    StraightRegular(fam, exclude);
    ParseOutcome(fam, ips);
    ParseOutcome(fam, exclude);
  }

  lemma OrderedIncludes(ips: seq<IPRange>, a: nat)
    requires AllOrdered(ips)
    ensures In(Normals(ips), a) <==> Denotes(ips, a)
  {
    if i :| 0 <= i < |ips| && ips[i].Has(a) {
      assert Normals(ips)[i].Has(a);
    }
    if i :| 0 <= i < |ips| && Normals(ips)[i].Has(a) {
      assert ips[i] in ips;
      assert ips[i].Has(a);
    }
  }

  /** Merged includes are never refused for overlap: only an address outside the base can fail them. */
  lemma MergedNeverOverlap(fam: Family, base: Block, ips: seq<IPRange>)
    requires OfFamily(fam, ips) && Regular(fam, ips)
    ensures Merged(fam, ips).Returns? && Disjoint(Normals(Merged(fam, ips).value))
    ensures Accepts(base, Merged(fam, ips).value, []) <==> Inside(base, Merged(fam, ips).value)
  {
    hide Merged, Convert, Denotes, Contains;
    MergeMeaning(fam, ips);
    var rs := Merged(fam, ips).value;
    forall i, j | 0 <= i < j < |rs| ensures Apart(Normals(rs)[i], Normals(rs)[j]) {
      assert WellShaped(fam, rs[i]) && WellShaped(fam, rs[j]);
    }
  }
}
