/** Range lists: enumerating them, merging addresses back into them, and the
    canonical form that makes merging idempotent and order independent. */
module Ranges {
  import opened Wrappers
  import opened Address

  /** "a" or "lo-hi" as written in a pool; the bounds of a span may come in either order. */
  datatype IPRange = One(ip: nat) | Span(lo: nat, hi: nat) {
    function Lo(): nat { if One? then ip else lo }
    function Hi(): nat { if One? then ip else hi }
    predicate Ordered() { Lo() <= Hi() }
    predicate Has(a: nat) { Lo() <= a <= Hi() }
  }

  /** The address lies in one of the ranges. */
  ghost predicate Denotes(rs: seq<IPRange>, a: nat) {
    exists i :: 0 <= i < |rs| && rs[i].Has(a)
  }

  predicate AllOrdered(rs: seq<IPRange>) {
    forall r | r in rs :: r.Ordered()
  }

  predicate Increasing(xs: seq<nat>) {
    forall i, j :: 0 <= i < j < |xs| ==> xs[i] < xs[j]
  }

  // ----- Enumeration -----

  function Enumerate(lo: nat, hi: nat): (xs: seq<nat>)
    ensures |xs| == if lo <= hi then hi - lo + 1 else 0
    ensures forall i :: 0 <= i < |xs| ==> xs[i] == lo + i
    decreases hi + 1 - lo
  {
    if lo > hi then [] else [lo] + Enumerate(lo + 1, hi)
  }

  /** The addresses of every range in turn. */
  function Flatten(rs: seq<IPRange>): seq<nat> {
    if rs == [] then [] else Enumerate(rs[0].Lo(), rs[0].Hi()) + Flatten(rs[1..])
  }

  lemma {:induction false} FlattenMembers(rs: seq<IPRange>, a: nat)
    ensures a in Flatten(rs) <==> Denotes(rs, a)
  {
    if rs != [] {
      FlattenMembers(rs[1..], a);
      var head := Enumerate(rs[0].Lo(), rs[0].Hi());
      if rs[0].Has(a) {
        assert head[a - rs[0].Lo()] == a;
      }
      if a in Flatten(rs[1..]) {
        var i :| 0 <= i < |rs[1..]| && rs[1..][i].Has(a);
        assert rs[i + 1].Has(a);
      }
      if Denotes(rs, a) && !rs[0].Has(a) {
        var i :| 0 <= i < |rs| && rs[i].Has(a);
        assert rs[1..][i - 1].Has(a);
      }
    }
  }

  // ----- What parsing answers -----

  /** Where the loop of `ParseIPRange` lists a span: its last step must leave the span,
      and every step before it must stay in the family. */
  predicate Enumerable(fam: Family, lo: nat, hi: nat) {
    SuccNotNil(hi) && (lo < hi ==> First(fam) <= lo + 1)
  }

  /** A v6 span among the numbers of four bytes: after its first address the loop goes on with v4 ones. */
  predicate Strays(fam: Family, lo: nat, hi: nat) {
    fam.V6? && lo < hi && P24 <= lo + 1 && hi + 1 < P32
  }

  /** The loop ends. */
  predicate Ends(fam: Family, lo: nat, hi: nat) {
    Enumerable(fam, lo, hi) || Strays(fam, lo, hi)
  }

  /** What the loop lists when it ends; a v4 address in a v6 list is the number of its 16-byte form. */
  function SpanList(fam: Family, lo: nat, hi: nat): seq<nat> {
    if Strays(fam, lo, hi) then [lo] + Enumerate(MAPPED + lo + 1, MAPPED + hi) else Enumerate(lo, hi)
  }

  /** The most entries a slice of addresses can have: each takes 24 bytes, of at most 2^48. */
  const MAX_SLICE: nat := 11_728_124_029_610

  /** `big.Int.Int64`: the low 64 bits, read as a signed number. */
  function Int64(n: nat): int {
    var low := n % P64;
    if low < P64 / 2 then low else low - P64
  }

  /** `make` panics when it is asked for this many entries. */
  predicate Refused(capacity: int) {
    capacity < 0 || capacity > MAX_SLICE
  }

  /** `ParseIPRange`: a reversed span is an error. The slice for a span is made before the loop, with one entry
      less than there are addresses; a list that no slice can hold uses the memory up. */
  function ListRange(fam: Family, x: IPRange): (o: Outcome<seq<nat>>)
    ensures o.Returns? ==> x.Ordered() && |o.value| == x.Hi() - x.Lo() + 1 <= MAX_SLICE
  {
    if !x.Ordered() then Fails
    else if x.One? then Returns([x.ip])
    else if Refused(Int64(x.hi - x.lo)) then Panics
    else if Ends(fam, x.lo, x.hi) && x.hi - x.lo < MAX_SLICE then Returns(SpanList(fam, x.lo, x.hi))
    else NeverReturns
  }

  /** The list of the next range goes to the end of the sum. */
  function Append(sum: Outcome<seq<nat>>, next: Outcome<seq<nat>>): Outcome<seq<nat>> {
    if !sum.Returns? then sum
    else if !next.Returns? then next
    else if |sum.value| + |next.value| > MAX_SLICE then NeverReturns
    else Returns(sum.value + next.value)
  }

  /** `ParseIPRanges`: one range after the other, up to the first that does not return. */
  function ParseAll(fam: Family, rs: seq<IPRange>): Outcome<seq<nat>> {
    if rs == [] then Returns([])
    else Append(ParseAll(fam, rs[..|rs| - 1]), ListRange(fam, rs[|rs| - 1]))
  }

  /** Every range is in order and is listed as its addresses, and a slice can hold them all. */
  predicate Regular(fam: Family, rs: seq<IPRange>) {
    && (forall x | x in rs :: x.Ordered() && (x.Span? ==> Enumerable(fam, x.lo, x.hi)))
    && |Flatten(rs)| <= MAX_SLICE
  }

  /** No range is listed as other addresses than its own. */
  predicate Straight(fam: Family, rs: seq<IPRange>) {
    forall x | x in rs && x.Span? :: !Strays(fam, x.lo, x.hi)
  }

  /** The bounds are addresses of the family, as the texts of its ranges are. */
  predicate OfFamily(fam: Family, rs: seq<IPRange>) {
    forall x | x in rs :: IsAddress(fam, x.Lo()) && IsAddress(fam, x.Hi())
  }

  predicate AllReturn(fam: Family, rs: seq<IPRange>) {
    forall x | x in rs :: ListRange(fam, x).Returns?
  }

  /** The ranges before range `i` are listed and fit in a slice; range `i` has the outcome `o`, or it is listed
      too and makes the sum too long. */
  predicate StopsAt(fam: Family, rs: seq<IPRange>, i: nat, o: Outcome<seq<nat>>) {
    && i < |rs| && AllReturn(fam, rs[..i]) && |Flatten(rs[..i])| <= MAX_SLICE
    && var next := ListRange(fam, rs[i]);
       if next.Returns? then o.NeverReturns? && |Flatten(rs[..i + 1])| > MAX_SLICE else next == o
  }

  ghost predicate StopsWith(fam: Family, rs: seq<IPRange>, o: Outcome<seq<nat>>) {
    exists i: nat :: StopsAt(fam, rs, i, o)
  }

  lemma {:induction false} FlattenLast(rs: seq<IPRange>)
    requires rs != []
    ensures var n := |rs| - 1; Flatten(rs) == Flatten(rs[..n]) + Enumerate(rs[n].Lo(), rs[n].Hi())
  {
    var n := |rs| - 1;
    if n > 0 {
      FlattenLast(rs[1..]);
      assert rs[1..][..n - 1] == rs[..n][1..];
    }
  }

  /** A list that is parsed has as many entries as the ranges have addresses. */
  lemma {:induction false} ParseReturns(fam: Family, rs: seq<IPRange>)
    ensures ParseAll(fam, rs).Returns? <==> AllReturn(fam, rs) && |Flatten(rs)| <= MAX_SLICE
    ensures ParseAll(fam, rs).Returns? ==> |ParseAll(fam, rs).value| == |Flatten(rs)|
  {
    hide ListRange;
    if rs != [] {
      var n := |rs| - 1;
      ParseReturns(fam, rs[..n]);
      FlattenLast(rs);
      assert forall x :: x in rs <==> x == rs[n] || x in rs[..n];
    }
  }

  lemma {:induction false} ParseStops(fam: Family, rs: seq<IPRange>, o: Outcome<seq<nat>>)
    requires !o.Returns?
    ensures ParseAll(fam, rs) == o <==> StopsWith(fam, rs, o)
  {
    hide ListRange, Flatten;
    if rs != [] {
      var n := |rs| - 1;
      ParseStops(fam, rs[..n], o);
      ParseReturns(fam, rs[..n]);
      ParseReturns(fam, rs);
      StopsLater(fam, rs, o);
      assert rs[..n + 1] == rs;
      assert forall x :: x in rs <==> x == rs[n] || x in rs[..n];
    }
  }

  lemma StopsLater(fam: Family, rs: seq<IPRange>, o: Outcome<seq<nat>>)
    requires rs != []
    ensures var n := |rs| - 1; StopsWith(fam, rs, o) <==> StopsWith(fam, rs[..n], o) || StopsAt(fam, rs, n, o)
  {
    hide ListRange, Flatten, AllReturn;
    var n := |rs| - 1;
    forall i: nat | i < n ensures StopsAt(fam, rs, i, o) <==> StopsAt(fam, rs[..n], i, o) {
      assert rs[..n][..i] == rs[..i] && rs[..n][..i + 1] == rs[..i + 1];
    }
  }

  /** Parsing returns exactly when every range is listed and a slice can hold all of it. It fails, panics or
      never returns exactly when a range that does so, or one too many, comes first. */
  lemma ParseOutcome(fam: Family, rs: seq<IPRange>)
    ensures ParseAll(fam, rs).Returns? <==> AllReturn(fam, rs) && |Flatten(rs)| <= MAX_SLICE
    ensures ParseAll(fam, rs).Fails? <==> StopsWith(fam, rs, Fails)
    ensures ParseAll(fam, rs).Panics? <==> StopsWith(fam, rs, Panics)
    ensures ParseAll(fam, rs).NeverReturns? <==> StopsWith(fam, rs, NeverReturns)
    ensures AllOrdered(rs) ==> !ParseAll(fam, rs).Fails?
  {
    hide ParseAll, ListRange, Flatten;
    ParseReturns(fam, rs);
    ParseStops(fam, rs, Fails);
    ParseStops(fam, rs, Panics);
    ParseStops(fam, rs, NeverReturns);
    forall i: nat | StopsAt(fam, rs, i, Fails) ensures !AllOrdered(rs) {
      ReversedFails(fam, rs[i]);
      assert rs[i] in rs;
    }
  }

  lemma RefusedExactly(n: nat)
    ensures Refused(Int64(n)) <==> n % P64 > MAX_SLICE
    ensures n <= MAX_SLICE ==> !Refused(Int64(n))
  {
  }

  lemma {:induction false} RegularParses(fam: Family, rs: seq<IPRange>)
    requires Regular(fam, rs)
    ensures ParseAll(fam, rs) == Returns(Flatten(rs)) && AllOrdered(rs)
  {
    hide Int64, Refused, Enumerable;
    if rs != [] {
      var n := |rs| - 1;
      var x := rs[n];
      FlattenLast(rs);
      assert x in rs && forall y :: y in rs <==> y == x || y in rs[..n];
      RegularParses(fam, rs[..n]);
      RegularListed(fam, x);
    }
  }

  lemma RegularListed(fam: Family, x: IPRange)
    requires x.Ordered() && (x.Span? ==> Enumerable(fam, x.lo, x.hi)) && x.Hi() - x.Lo() < MAX_SLICE
    ensures ListRange(fam, x) == Returns(Enumerate(x.Lo(), x.Hi()))
  {
    RefusedExactly(x.Hi() - x.Lo());
    assert x.One? ==> Enumerate(x.ip, x.ip) == [x.ip];
  }

  /** Ranges that do not stray return from parsing exactly when they are regular. */
  lemma StraightRegular(fam: Family, rs: seq<IPRange>)
    requires Straight(fam, rs)
    ensures ParseAll(fam, rs).Returns? <==> Regular(fam, rs)
    ensures Regular(fam, rs) ==> ParseAll(fam, rs) == Returns(Flatten(rs))
  {
    hide ParseAll, Flatten;
    ParseReturns(fam, rs);
    if Regular(fam, rs) {
      RegularParses(fam, rs);
    }
  }

  // ----- The span loop -----

  /** The cursor after `k` steps of the loop. */
  function Cursor(fam: Family, lo: nat, k: nat): seq<Byte> {
    if k == 0 then Embed(fam, lo) else NextIP(Cursor(fam, lo, k - 1))
  }

  /** The loop stops after exactly `n` rounds. */
  ghost predicate EndsAfter(fam: Family, lo: nat, hi: nat, n: nat) {
    && Cmp(Cursor(fam, lo, n), Embed(fam, hi)) > 0
    && forall k :: 0 <= k < n ==> Cmp(Cursor(fam, lo, k), Embed(fam, hi)) <= 0
  }

  predicate AllSucceed(lo: nat, hi: int) {
    forall v :: lo <= v <= hi ==> SuccNotNil(v)
  }

  lemma EndsIsAllSucceed(fam: Family, lo: nat, hi: nat)
    requires IsAddress(fam, lo) && IsAddress(fam, hi) && lo <= hi
    ensures Ends(fam, lo, hi) <==> AllSucceed(lo, hi)
  {
    if AllSucceed(lo, hi) {
      assert SuccNotNil(lo) && SuccNotNil(hi);
      assert lo <= P32 - 1 <= hi ==> SuccNotNil(P32 - 1);
    }
  }

  /** While there are successors the cursor counts up, in whatever form the successor takes. */
  lemma {:induction false} CursorAt(fam: Family, lo: nat, k: nat)
    requires IsAddress(fam, lo) && AllSucceed(lo, lo + k - 1)
    ensures IPToInt(Cursor(fam, lo, k)) == lo + k
    ensures Cursor(fam, lo, k) == if k == 0 then Embed(fam, lo) else IntToIP(lo + k)
  {
    hide Embed, IPToInt, IntToIP;
    if k == 0 {
      EmbedRoundTrip(fam, lo);
    } else {
      CursorAt(fam, lo, k - 1);
      assert SuccNotNil(lo + k - 1);
      IntToIPShape(lo + k);
      EmbedRoundTrip(if lo + k < P32 then V4 else V6, lo + k);
    }
  }

  /** On a span where the loop ends, the cursor runs through the list and then exceeds the end. */
  lemma CursorListed(fam: Family, lo: nat, hi: nat, k: nat)
    requires IsAddress(fam, lo) && IsAddress(fam, hi) && lo <= hi && Ends(fam, lo, hi) && lo + k <= hi + 1
    ensures |SpanList(fam, lo, hi)| == hi - lo + 1
    ensures lo + k <= hi ==> Cursor(fam, lo, k) == Embed(fam, SpanList(fam, lo, hi)[k])
    ensures Cmp(Cursor(fam, lo, k), Embed(fam, hi)) <= 0 <==> lo + k <= hi
  {
    hide Embed, IPToInt, IntToIP, NextIP, Cursor;
    EndsIsAllSucceed(fam, lo, hi);
    CursorAt(fam, lo, k);
    EmbedRoundTrip(fam, hi);
    if 0 < k && lo + k <= hi {
      IntToIPShape(lo + k);
      if lo + k < P32 {
        MappedForm(lo + k);
      }
    }
  }

  /** `ParseIPRange` on a span: make the slice, then append the cursor and step with the big-integer
      successor while the cursor does not exceed the end. */
  method ParseSpan(fam: Family, lo: nat, hi: nat) returns (r: Outcome<seq<seq<Byte>>>)
    requires IsAddress(fam, lo) && IsAddress(fam, hi) && lo <= hi && !ListRange(fam, Span(lo, hi)).NeverReturns?
    ensures r == Forms(fam, ListRange(fam, Span(lo, hi)))
    ensures r.Panics? <==> (hi - lo) % P64 > MAX_SLICE
    ensures r.Returns? && Enumerable(fam, lo, hi) ==>
      |r.value| == hi - lo + 1 && forall k :: 0 <= k < |r.value| ==> r.value[k] == Embed(fam, lo + k)
  {
    hide Embed, NextIP, Cmp, Int64, Refused;
    RefusedExactly(hi - lo);
    var cur, end := Embed(fam, lo), Embed(fam, hi);
    if Refused(Int64(hi - lo)) {
      return Panics;
    }
    var ips: seq<seq<Byte>> := [];
    ghost var list := SpanList(fam, lo, hi);
    CursorListed(fam, lo, hi, 0);
    while Cmp(cur, end) <= 0
      invariant |ips| <= hi - lo + 1 && cur == Cursor(fam, lo, |ips|)
      invariant Cmp(cur, end) <= 0 <==> |ips| <= hi - lo
      invariant forall k :: 0 <= k < |ips| ==> ips[k] == Embed(fam, list[k])
      decreases hi + 1 - lo - |ips|
    {
      CursorListed(fam, lo, hi, |ips|);
      CursorListed(fam, lo, hi, |ips| + 1);
      ips := ips + [cur];
      cur := NextIP(cur);
    }
    assert ips == Embeds(fam, list);
    return Returns(ips);
  }

  /** The loop ends exactly on the spans that `Ends` names, after listing what `SpanList` says; on every
      other span the cursor becomes nil before it exceeds the end and stays so. */
  lemma SpanLoopOutcome(fam: Family, lo: nat, hi: nat)
    requires IsAddress(fam, lo) && IsAddress(fam, hi) && lo <= hi
    ensures (exists n: nat :: EndsAfter(fam, lo, hi, n)) <==> Ends(fam, lo, hi)
    ensures forall n: nat :: EndsAfter(fam, lo, hi, n) ==>
      n == |SpanList(fam, lo, hi)| && forall k :: 0 <= k < n ==> Cursor(fam, lo, k) == Embed(fam, SpanList(fam, lo, hi)[k])
  {
    hide Embed, IPToInt, NextIP, Cmp, SpanList;
    if Ends(fam, lo, hi) {
      forall k: nat | lo + k <= hi + 1
        ensures |SpanList(fam, lo, hi)| == hi - lo + 1
        ensures lo + k <= hi ==> Cursor(fam, lo, k) == Embed(fam, SpanList(fam, lo, hi)[k])
        ensures Cmp(Cursor(fam, lo, k), Embed(fam, hi)) <= 0 <==> lo + k <= hi
      {
        CursorListed(fam, lo, hi, k);
      }
      assert EndsAfter(fam, lo, hi, hi - lo + 1);
    } else {
      forall n: nat ensures !EndsAfter(fam, lo, hi, n) {
        StaysBelow(fam, lo, hi, n);
      }
    }
  }

  lemma StaysBelow(fam: Family, lo: nat, hi: nat, n: nat)
    requires IsAddress(fam, lo) && IsAddress(fam, hi) && lo <= hi && !Ends(fam, lo, hi)
    ensures Cmp(Cursor(fam, lo, n), Embed(fam, hi)) <= 0
  {
    hide Embed, IPToInt, IntToIP, Cursor;
    EndsIsAllSucceed(fam, lo, hi);
    var v := FirstWithout(lo, hi);
    EmbedRoundTrip(fam, hi);
    if lo + n <= v {
      CursorAt(fam, lo, n);
    } else {
      NilFrom(fam, lo, v - lo, n);
      EmbedLength(fam, lo);
    }
  }

  lemma {:induction false} FirstWithout(lo: nat, hi: nat) returns (v: nat)
    requires lo <= hi && !AllSucceed(lo, hi)
    ensures lo <= v <= hi && !SuccNotNil(v) && AllSucceed(lo, v - 1)
    decreases hi - lo
  {
    hide SuccNotNil;
    if !SuccNotNil(lo) {
      v := lo;
    } else {
      v := FirstWithout(lo + 1, hi);
    }
  }

  lemma {:induction false} NilFrom(fam: Family, lo: nat, k: nat, n: nat)
    requires IsAddress(fam, lo) && AllSucceed(lo, lo + k - 1) && !SuccNotNil(lo + k) && k < n
    ensures Cursor(fam, lo, n) == NIL
  {
    hide Embed, IPToInt, IntToIP;
    if n == k + 1 {
      CursorAt(fam, lo, k);
      IntToIPShape(lo + k + 1);
    } else {
      NilFrom(fam, lo, k, n - 1);
      EmbedLength(fam, lo);
      IntToIPShape(1);
    }
  }

  /** The loop makes exactly `n` rounds and they list `lo, lo + 1, ...`. */
  ghost predicate ListsInRounds(fam: Family, lo: nat, hi: nat, n: nat) {
    EndsAfter(fam, lo, hi, n) && forall k :: 0 <= k < n ==> Cursor(fam, lo, k) == Embed(fam, lo + k)
  }

  /** The loop ends with the right list exactly on `Enumerable` spans. */
  lemma SpanLoopExact(fam: Family, lo: nat, hi: nat)
    requires IsAddress(fam, lo) && IsAddress(fam, hi) && lo <= hi
    ensures (exists n: nat :: ListsInRounds(fam, lo, hi, n)) <==> Enumerable(fam, lo, hi)
  {
    hide Embed, NextIP, Cmp, Cursor;
    SpanLoopOutcome(fam, lo, hi);
    if Enumerable(fam, lo, hi) {
      var n: nat :| EndsAfter(fam, lo, hi, n);
      assert ListsInRounds(fam, lo, hi, n);
    }
    if n: nat :| ListsInRounds(fam, lo, hi, n) {
      if Strays(fam, lo, hi) {
        MappedForm(lo + 1);
        V4FormIsNotV6Form(lo + 1);
        assert Cursor(fam, lo, 1) == Embed(fam, lo + 1);
      }
    }
  }

  /** What becomes of a span, for any two ordered addresses. It panics exactly when the length, cut down to 64
      bits, is more than a slice can hold; otherwise it returns exactly when the loop ends within as many
      rounds as a slice has entries, with what those rounds have listed. */
  lemma SpanOutcome(fam: Family, lo: nat, hi: nat)
    requires IsAddress(fam, lo) && IsAddress(fam, hi) && lo <= hi
    ensures var o := ListRange(fam, Span(lo, hi));
      && !o.Fails? && (o.Panics? <==> (hi - lo) % P64 > MAX_SLICE)
      && (o.Returns? <==> !o.Panics? && exists n: nat :: n <= MAX_SLICE && EndsAfter(fam, lo, hi, n))
      && (o.Returns? ==>
            EndsAfter(fam, lo, hi, |o.value|) && forall k :: 0 <= k < |o.value| ==> Cursor(fam, lo, k) == Embed(fam, o.value[k]))
  {
    hide Embed, NextIP, Cmp, Cursor, EndsAfter, Int64, Refused;
    RefusedExactly(hi - lo);
    SpanLoopOutcome(fam, lo, hi);
    if Ends(fam, lo, hi) {
      CursorListed(fam, lo, hi, 0);
    }
  }

  // ----- Parsing lists of ranges -----

  function Embeds(fam: Family, xs: seq<nat>): (r: seq<seq<Byte>>)
    ensures |r| == |xs| && forall i :: 0 <= i < |xs| ==> r[i] == Embed(fam, xs[i])
  {
    seq(|xs|, i requires 0 <= i < |xs| => Embed(fam, xs[i]))
  }

  /** The byte forms of what is listed. */
  function Forms(fam: Family, o: Outcome<seq<nat>>): Outcome<seq<seq<Byte>>> {
    if o.Returns? then Returns(Embeds(fam, o.value)) else o.Stopped()
  }

  /** `ParseIPRanges` where it comes to an end. */
  method ParseIPRanges(fam: Family, rs: seq<IPRange>) returns (r: Outcome<seq<seq<Byte>>>)
    requires OfFamily(fam, rs) && !ParseAll(fam, rs).NeverReturns?
    ensures r == Forms(fam, ParseAll(fam, rs))
  {
    hide Embed, IsAddress, ListRange;
    var sum: seq<seq<Byte>> := [];
    ghost var done: seq<nat> := [];
    assert rs[..0] == [];
    for i := 0 to |rs|
      invariant sum == Embeds(fam, done) && ParseAll(fam, rs[..i]) == Returns(done)
    {
      var x := rs[i];
      assert x in rs && rs[..i + 1][..i] == rs[..i];
      assert ParseAll(fam, rs[..i + 1]) == Append(Returns(done), ListRange(fam, x));
      StopsEarly(fam, rs, i + 1);
      var ips := ParseRange(fam, x);
      if !ips.Returns? {
        return ips;
      }
      done := done + ListRange(fam, x).value;
      sum := sum + ips.value;
    }
    assert rs[..|rs|] == rs;
    return Returns(sum);
  }

  /** What stops a prefix stops the list. */
  lemma {:induction false} StopsEarly(fam: Family, rs: seq<IPRange>, i: nat)
    requires i <= |rs|
    ensures !ParseAll(fam, rs[..i]).Returns? ==> ParseAll(fam, rs) == ParseAll(fam, rs[..i])
  {
    hide ListRange;
    if i < |rs| {
      StopsEarly(fam, rs[..|rs| - 1], i);
      assert rs[..|rs| - 1][..i] == rs[..i];
    } else {
      assert rs[..i] == rs;
    }
  }

  method ParseRange(fam: Family, x: IPRange) returns (r: Outcome<seq<seq<Byte>>>)
    requires IsAddress(fam, x.Lo()) && IsAddress(fam, x.Hi()) && !ListRange(fam, x).NeverReturns?
    ensures r == Forms(fam, ListRange(fam, x))
  {
    hide Embed, IsAddress;
    if !x.Ordered() {
      return Fails;
    }
    if x.One? {
      assert [Embed(fam, x.ip)] == Embeds(fam, [x.ip]);
      return Returns([Embed(fam, x.ip)]);
    }
    r := ParseSpan(fam, x.lo, x.hi);
  }

  lemma ReversedFails(fam: Family, x: IPRange)
    ensures !x.Ordered() <==> ListRange(fam, x).Fails?
  {
  }

  // ----- Sorting a set of addresses -----

  function Insert(x: nat, xs: seq<nat>): (r: seq<nat>)
    requires Increasing(xs)
    ensures Increasing(r) && |r| <= |xs| + 1
    ensures forall a :: a in r <==> a == x || a in xs
  {
    if xs == [] || x < xs[0] then [x] + xs
    else if x == xs[0] then xs
    else
      var rest := Insert(x, xs[1..]);
      HeadIsLeast(xs, x, rest);
      [xs[0]] + rest
  }

  lemma HeadIsLeast(xs: seq<nat>, x: nat, rest: seq<nat>)
    requires xs != [] && Increasing(xs) && Increasing(rest) && x > xs[0]
    requires forall a :: a in rest <==> a == x || a in xs[1..]
    ensures Increasing([xs[0]] + rest)
    ensures forall a :: a in [xs[0]] + rest <==> a == x || a in xs
  {
    assert xs == [xs[0]] + xs[1..];
    forall i | 0 <= i < |rest| ensures xs[0] < rest[i] {
      assert rest[i] in rest;
    }
  }

  /** Distinct addresses in ascending order, as the set plus sort of `ConvertIPsToIPRanges` leaves them. */
  function SortDistinct(xs: seq<nat>): (r: seq<nat>)
    ensures Increasing(r) && |r| <= |xs|
    ensures forall a :: a in r <==> a in xs
  {
    if xs == [] then [] else Insert(xs[0], SortDistinct(xs[1..]))
  }

  // ----- Merging -----

  function MakeRange(lo: nat, hi: nat): IPRange {
    if lo == hi then One(lo) else Span(lo, hi)
  }

  /** `x` continues a run ending in `prev`: the big-integer successor of `prev` is `x`. */
  predicate Continues(fam: Family, prev: nat, x: nat) {
    x == prev + 1 && SuccDefined(fam, prev)
  }

  predicate Joined(fam: Family, xs: seq<nat>, k: nat) {
    k + 1 < |xs| && Continues(fam, xs[k], xs[k + 1])
  }

  /** Index of the last element of the run of `xs` that contains index `i`, looking right. */
  function RunEnd(fam: Family, xs: seq<nat>, i: nat): (e: nat)
    requires i < |xs|
    ensures i <= e < |xs| && xs[e] == xs[i] + (e - i)
    ensures forall k :: i <= k < e ==> Joined(fam, xs, k)
    ensures !Joined(fam, xs, e)
    decreases |xs| - i
  {
    if Joined(fam, xs, i) then RunEnd(fam, xs, i + 1) else i
  }

  /** The ranges of the runs of `xs` from index `i` on. */
  function Runs(fam: Family, xs: seq<nat>, i: nat): seq<IPRange>
    requires i <= |xs|
    decreases |xs| - i
  {
    if i == |xs| then []
    else var e := RunEnd(fam, xs, i); [MakeRange(xs[i], xs[e])] + Runs(fam, xs, e + 1)
  }

  function Convert(fam: Family, ips: seq<nat>): seq<IPRange> {
    Runs(fam, SortDistinct(ips), 0)
  }

  datatype Addr = Addr(fam: Family, n: nat)

  function Numbers(ips: seq<Addr>): (ns: seq<nat>)
    ensures |ns| == |ips| && forall i :: 0 <= i < |ips| ==> ns[i] == ips[i].n
  {
    seq(|ips|, i requires 0 <= i < |ips| => ips[i].n)
  }

  /** The merging loop of `ConvertIPsToIPRanges`: walk the sorted addresses with two
      indices, closing a range whenever the run stops. */
  method MergeSorted(fam: Family, xs: seq<nat>) returns (ipRanges: seq<IPRange>)
    ensures ipRanges == Runs(fam, xs, 0)
  {
    hide MakeRange, Joined, Runs;
    ipRanges := [];
    var start, end := 0, 0;
    while start < |xs|
      invariant 0 <= start <= end && start <= |xs| && (start < |xs| ==> end < |xs|)
      invariant start < |xs| ==> RunEnd(fam, xs, start) == RunEnd(fam, xs, end)
      invariant ipRanges + Runs(fam, xs, start) == Runs(fam, xs, 0)
      decreases |xs| - start, |xs| - end
    {
      if Joined(fam, xs, end) {
        end := end + 1;
        continue;
      }
      CloseRun(fam, xs, start, end, ipRanges);
      ipRanges := ipRanges + [MakeRange(xs[start], xs[end])];
      start := end + 1;
      end := start;
    }
    CloseRuns(fam, xs, ipRanges);
  }

  lemma CloseRun(fam: Family, xs: seq<nat>, start: nat, end: nat, done: seq<IPRange>)
    requires start <= end < |xs| && RunEnd(fam, xs, start) == RunEnd(fam, xs, end) && !Joined(fam, xs, end)
    ensures done + Runs(fam, xs, start) == (done + [MakeRange(xs[start], xs[end])]) + Runs(fam, xs, end + 1)
  {
  }

  lemma CloseRuns(fam: Family, xs: seq<nat>, done: seq<IPRange>)
    ensures done + Runs(fam, xs, |xs|) == done
  {
  }

  /** `ConvertIPsToIPRanges`: reject an address of the other version, then merge the
      sorted distinct addresses. */
  method ConvertIPsToIPRanges(fam: Family, ips: seq<Addr>) returns (r: Result<seq<IPRange>, string>)
    ensures r.Ok? <==> forall ip | ip in ips :: ip.fam == fam
    ensures r.Ok? ==> r.value == Convert(fam, Numbers(ips)) && Canonical(fam, r.value)
    ensures r.Ok? ==> forall a :: Denotes(r.value, a) <==> Addr(fam, a) in ips
  {
    hide Canonical, Denotes, Runs;
    for i := 0 to |ips|
      invariant forall k :: 0 <= k < i ==> ips[k].fam == fam
    {
      if ips[i].fam != fam {
        return Err("invalid IP");
      }
    }
    var ipRanges := MergeSorted(fam, SortDistinct(Numbers(ips)));
    ConvertIsCanonical(fam, Numbers(ips));
    forall a ensures a in Numbers(ips) <==> Addr(fam, a) in ips {
      NumberMembers(fam, ips, a);
    }
    return Ok(ipRanges);
  }

  lemma NumberMembers(fam: Family, ips: seq<Addr>, a: nat)
    requires forall ip | ip in ips :: ip.fam == fam
    ensures a in Numbers(ips) <==> Addr(fam, a) in ips
  {
  }

  /** Sorted, pairwise disjoint, each range a run, and no two neighbours that could be joined. */
  predicate Canonical(fam: Family, rs: seq<IPRange>) {
    && (forall i :: 0 <= i < |rs| ==> WellShaped(fam, rs[i]))
    && (forall i, j :: 0 <= i < j < |rs| ==> rs[i].Hi() < rs[j].Lo())
    && (forall i :: 0 <= i < |rs| ==> !Joinable(fam, rs, i))
  }

  predicate Joinable(fam: Family, rs: seq<IPRange>, i: nat) {
    i + 1 < |rs| && Continues(fam, rs[i].Hi(), rs[i + 1].Lo())
  }

  /** A span has two addresses or more and every step inside it has a successor. */
  predicate WellShaped(fam: Family, r: IPRange) {
    r.Span? ==> r.lo < r.hi && First(fam) <= r.lo + 1 && r.hi < Limit(fam)
  }

  lemma {:induction false} RunsCanonical(fam: Family, xs: seq<nat>, i: nat)
    requires Increasing(xs) && i <= |xs|
    ensures Canonical(fam, Runs(fam, xs, i))
    ensures i < |xs| ==> Runs(fam, xs, i) != [] && Runs(fam, xs, i)[0].Lo() == xs[i]
    decreases |xs| - i
  {
    hide RunEnd, Canonical;
    CanonicalNil(fam);
    if i < |xs| {
      var e := RunEnd(fam, xs, i);
      RunsCanonical(fam, xs, e + 1);
      if e > i {
        assert Joined(fam, xs, i) && Joined(fam, xs, e - 1);
      }
      CanonicalCons(fam, MakeRange(xs[i], xs[e]), Runs(fam, xs, e + 1));
    }
  }

  lemma CanonicalNil(fam: Family)
    ensures Canonical(fam, [])
  {
  }

  lemma CanonicalCons(fam: Family, head: IPRange, rest: seq<IPRange>)
    requires WellShaped(fam, head) && Canonical(fam, rest)
    requires rest != [] ==> head.Hi() < rest[0].Lo() && !Continues(fam, head.Hi(), rest[0].Lo())
    ensures Canonical(fam, [head] + rest)
  {
    assert forall i :: 0 <= i < |rest| ==> rest[0].Lo() <= rest[i].Lo();
    var rs := [head] + rest;
    forall i | 0 <= i < |rs| ensures !Joinable(fam, rs, i) {
      assert i > 0 ==> !Joinable(fam, rest, i - 1);
    }
  }

  lemma FlattenNil()
    ensures Flatten([]) == []
  {
  }

  lemma FlattenCons(head: IPRange, rest: seq<IPRange>)
    ensures Flatten([head] + rest) == Enumerate(head.Lo(), head.Hi()) + Flatten(rest)
  {
  }

  lemma {:induction false} RunsFlatten(fam: Family, xs: seq<nat>, i: nat)
    requires i <= |xs|
    ensures Flatten(Runs(fam, xs, i)) == xs[i..]
    decreases |xs| - i
  {
    hide RunEnd, Joined, Enumerate, Flatten;
    if i < |xs| {
      var e := RunEnd(fam, xs, i);
      RunsFlatten(fam, xs, e + 1);
      RunIsEnumeration(fam, xs, i);
      FlattenCons(MakeRange(xs[i], xs[e]), Runs(fam, xs, e + 1));
      assert xs[i..] == xs[i..e + 1] + xs[e + 1..];
    } else {
      FlattenNil();
    }
  }

  lemma RunIsEnumeration(fam: Family, xs: seq<nat>, i: nat)
    requires i < |xs|
    ensures var e := RunEnd(fam, xs, i); xs[i..e + 1] == Enumerate(xs[i], xs[e])
  {
    var e := RunEnd(fam, xs, i);
    RunIsConsecutive(fam, xs, i, e);
  }

  lemma {:induction false} RunIsConsecutive(fam: Family, xs: seq<nat>, i: nat, e: nat)
    requires i <= e < |xs|
    requires forall k :: i <= k < e ==> Joined(fam, xs, k)
    ensures forall k :: i <= k <= e ==> xs[k] == xs[i] + (k - i)
  {
    if i < e {
      RunIsConsecutive(fam, xs, i, e - 1);
      assert Joined(fam, xs, e - 1);
    }
  }

  /** Converting keeps the addresses; the result holds them sorted and distinct. */
  lemma ConvertIsCanonical(fam: Family, ips: seq<nat>)
    ensures Canonical(fam, Convert(fam, ips)) && AllOrdered(Convert(fam, ips))
    ensures Flatten(Convert(fam, ips)) == SortDistinct(ips)
    ensures forall a :: Denotes(Convert(fam, ips), a) <==> a in ips
  {
    hide Runs, SortDistinct, Flatten, Denotes;
    var xs, rs := SortDistinct(ips), Convert(fam, ips);
    RunsCanonical(fam, xs, 0);
    RunsFlatten(fam, xs, 0);
    assert xs[0..] == xs;
    assert forall i :: 0 <= i < |rs| ==> WellShaped(fam, rs[i]);
    forall a ensures Denotes(rs, a) <==> a in ips {
      FlattenMembers(rs, a);
    }
  }

  /** Two canonical lists of the same addresses are the same list. */
  lemma {:induction false} CanonicalUnique(fam: Family, rs: seq<IPRange>, ts: seq<IPRange>)
    requires Canonical(fam, rs) && Canonical(fam, ts)
    requires forall a :: Denotes(rs, a) <==> Denotes(ts, a)
    ensures rs == ts
  {
    if rs == [] || ts == [] {
      if rs != [] { assert rs[0].Has(rs[0].Lo()); assert Denotes(rs, rs[0].Lo()); }
      if ts != [] { assert ts[0].Has(ts[0].Lo()); assert Denotes(ts, ts[0].Lo()); }
    } else {
      SameFirstRange(fam, rs, ts);
      forall a ensures Denotes(rs[1..], a) <==> Denotes(ts[1..], a) {
        DenotesTail(fam, rs, a);
        DenotesTail(fam, ts, a);
      }
      TailCanonical(fam, rs);
      TailCanonical(fam, ts);
      CanonicalUnique(fam, rs[1..], ts[1..]);
    }
  }

  lemma TailCanonical(fam: Family, rs: seq<IPRange>)
    requires Canonical(fam, rs) && rs != []
    ensures Canonical(fam, rs[1..])
  {
    forall i | 0 <= i < |rs[1..]| ensures !Joinable(fam, rs[1..], i) {
      assert !Joinable(fam, rs, i + 1);
    }
  }

  lemma DenotesTail(fam: Family, rs: seq<IPRange>, a: nat)
    requires Canonical(fam, rs) && rs != []
    ensures Denotes(rs[1..], a) <==> Denotes(rs, a) && a > rs[0].Hi()
  {
  }

  lemma SameFirstRange(fam: Family, rs: seq<IPRange>, ts: seq<IPRange>)
    requires Canonical(fam, rs) && Canonical(fam, ts) && rs != [] && ts != []
    requires forall a :: Denotes(rs, a) <==> Denotes(ts, a)
    ensures rs[0] == ts[0]
  {
    assert rs[0].Has(rs[0].Lo()) && ts[0].Has(ts[0].Lo());
    assert Denotes(ts, rs[0].Lo()) && Denotes(rs, ts[0].Lo());
    assert rs[0].Lo() == ts[0].Lo();
    FirstRangeNotShorter(fam, rs, ts);
    FirstRangeNotShorter(fam, ts, rs);
  }

  lemma FirstRangeNotShorter(fam: Family, rs: seq<IPRange>, ts: seq<IPRange>)
    requires Canonical(fam, rs) && Canonical(fam, ts) && rs != [] && ts != []
    requires rs[0].Lo() == ts[0].Lo()
    requires forall a :: Denotes(rs, a) <==> Denotes(ts, a)
    ensures rs[0].Hi() >= ts[0].Hi()
  {
    var h := rs[0].Hi();
    GapAfterFirst(fam, rs);
    InsideContinues(fam, ts[0], h);
    FirstDenoted(ts, h + 1);
  }

  lemma InsideContinues(fam: Family, r: IPRange, a: nat)
    requires WellShaped(fam, r)
    ensures r.Has(a) && r.Has(a + 1) ==> Continues(fam, a, a + 1)
  {
  }

  lemma FirstDenoted(rs: seq<IPRange>, a: nat)
    requires rs != []
    ensures rs[0].Has(a) ==> Denotes(rs, a)
  {
  }

  /** What follows the first range directly could not be joined to it. */
  lemma GapAfterFirst(fam: Family, rs: seq<IPRange>)
    requires Canonical(fam, rs) && rs != []
    ensures Denotes(rs, rs[0].Hi() + 1) ==> !Continues(fam, rs[0].Hi(), rs[0].Hi() + 1)
  {
    var h := rs[0].Hi();
    if i :| 0 <= i < |rs| && rs[i].Has(h + 1) {
      assert i >= 1 && rs[1].Lo() == h + 1;
      assert !Joinable(fam, rs, 0);
    }
  }

  // ----- Parsing a converted list again -----

  /** Both of the two topmost addresses of the family are present. */
  predicate TopsIn(fam: Family, ips: seq<nat>) {
    Limit(fam) - 2 in ips && Limit(fam) - 1 in ips
  }

  lemma {:induction false} PartOfFlatten(rs: seq<IPRange>, r: IPRange)
    requires r in rs && r.Ordered()
    ensures r.Hi() - r.Lo() < |Flatten(rs)|
  {
    if r != rs[0] {
      PartOfFlatten(rs[1..], r);
    }
  }

  /** Ordered ranges that together fit in a slice do not fail and do not panic. */
  lemma FittingRanges(fam: Family, rs: seq<IPRange>)
    requires AllOrdered(rs) && |Flatten(rs)| <= MAX_SLICE
    ensures !ParseAll(fam, rs).Fails? && !ParseAll(fam, rs).Panics?
  {
    hide ParseAll, Flatten, Int64, Refused;
    ParseOutcome(fam, rs);
    if StopsWith(fam, rs, Panics) {
      var i: nat :| StopsAt(fam, rs, i, Panics);
      PartOfFlatten(rs, rs[i]);
      RefusedExactly(rs[i].Hi() - rs[i].Lo());
    }
  }

  /** A converted list is listed again by `ParseIPRanges`, sorted and distinct, exactly unless the two topmost
      addresses of the family are both present: then its last span ends in the all-ones address, whose
      successor is nil, and parsing it never returns. Addresses too many for a slice are never listed. */
  lemma ConvertedParsesAgain(fam: Family, ips: seq<nat>)
    requires forall a | a in ips :: a < Limit(fam)
    ensures Regular(fam, Convert(fam, ips)) <==> !TopsIn(fam, ips) && |SortDistinct(ips)| <= MAX_SLICE
    ensures Straight(fam, Convert(fam, ips))
    ensures ParseAll(fam, Convert(fam, ips)).Returns? <==> !TopsIn(fam, ips) && |SortDistinct(ips)| <= MAX_SLICE
    ensures |SortDistinct(ips)| <= MAX_SLICE ==>
      ParseAll(fam, Convert(fam, ips)) == if TopsIn(fam, ips) then NeverReturns else Returns(SortDistinct(ips))
  {
    hide Convert, ParseAll, SortDistinct, Denotes, Flatten, Enumerable, Strays;
    ConvertIsCanonical(fam, ips);
    var rs := Convert(fam, ips);
    AllBelowLimit(fam, ips, rs);
    forall r | r in rs && r.Span?
      ensures !Strays(fam, r.lo, r.hi) && (Enumerable(fam, r.lo, r.hi) <==> r.hi != Limit(fam) - 1)
    {
      assert WellShaped(fam, r);
      WellShapedListed(fam, r);
    }
    StraightRegular(fam, rs);
    if |SortDistinct(ips)| <= MAX_SLICE {
      FittingRanges(fam, rs);
    }
    if TopsIn(fam, ips) {
      var r := TopSpan(fam, rs);
    } else {
      forall r | r in rs && r.Span? ensures r.hi != Limit(fam) - 1 {
        assert WellShaped(fam, r);
        SpanDenotesEnds(rs, r);
      }
    }
  }

  lemma WellShapedListed(fam: Family, r: IPRange)
    requires WellShaped(fam, r) && r.Hi() < Limit(fam)
    ensures r.Span? ==> !Strays(fam, r.lo, r.hi) && (Enumerable(fam, r.lo, r.hi) <==> r.hi != Limit(fam) - 1)
  {
  }

  // ----- MergeIPRanges -----

  /** The number is the 16-byte form of a v4 address in a v6 list. */
  predicate IsMapped(fam: Family, a: nat) {
    fam.V6? && a / P32 == 0xFFFF
  }

  /** `MergeIPRanges`: parse, then convert; converting fails on an address of the other version. */
  function Merged(fam: Family, rs: seq<IPRange>): Outcome<seq<IPRange>> {
    var parsed := ParseAll(fam, rs);
    if !parsed.Returns? then parsed.Stopped()
    else if exists a | a in parsed.value :: IsMapped(fam, a) then Fails
    else Returns(Convert(fam, parsed.value))
  }

  function AddrOf(ip: seq<Byte>): Addr {
    Addr(if To4(ip) != NIL then V4 else V6, IPToInt(ip))
  }

  function AddrsOf(ips: seq<seq<Byte>>): (r: seq<Addr>)
    ensures |r| == |ips| && forall i :: 0 <= i < |ips| ==> r[i] == AddrOf(ips[i])
  {
    seq(|ips|, i requires 0 <= i < |ips| => AddrOf(ips[i]))
  }

  lemma EmbeddedAddr(fam: Family, n: nat)
    requires n < Limit(fam)
    ensures AddrOf(Embed(fam, n)) == if IsMapped(fam, n) then Addr(V4, n - MAPPED) else Addr(fam, n)
  {
    hide IPToInt;
    if IsMapped(fam, n) {
      MappedForm(n - MAPPED);
      EmbedRoundTrip(V4, n - MAPPED);
      assert Embed(V4, n - MAPPED)[..12] == V4_PREFIX;
    } else {
      EmbedRoundTrip(fam, n);
      VersionOfForm(fam, n);
    }
  }

  lemma VersionOfForm(fam: Family, n: nat)
    requires IsAddress(fam, n)
    ensures To4(Embed(fam, n)) != NIL <==> fam.V4?
  {
    PowValues();
    if fam.V4? {
      assert Embed(fam, n)[..12] == V4_PREFIX;
    } else {
      HighBytes(16, n);
      PrefixValue();
      ValueOfFixedBytes(12, n / P32);
    }
  }

  /** The code, where it comes to an end. */
  method MergeIPRanges(fam: Family, rs: seq<IPRange>) returns (r: Outcome<seq<IPRange>>)
    requires OfFamily(fam, rs) && !Merged(fam, rs).NeverReturns?
    ensures r == Merged(fam, rs)
  {
    hide OfFamily, Convert, Canonical, Denotes, ParseAll, IsMapped;
    var ips := ParseIPRanges(fam, rs);
    if !ips.Returns? {
      return ips.Stopped();
    }
    ListedBelowLimit(fam, rs);
    ReadBack(fam, ParseAll(fam, rs).value);
    var ranges := ConvertIPsToIPRanges(fam, AddrsOf(ips.value));
    return if ranges.Ok? then Returns(ranges.value) else Fails;
  }

  /** Reading the byte forms of a list back: the numbers are the same unless a mapped one shows up as v4. */
  lemma ReadBack(fam: Family, xs: seq<nat>)
    requires forall a | a in xs :: a < Limit(fam)
    ensures var addrs := AddrsOf(Embeds(fam, xs));
      && ((forall ip | ip in addrs :: ip.fam == fam) <==> !exists a | a in xs :: IsMapped(fam, a))
      && ((forall ip | ip in addrs :: ip.fam == fam) ==> Numbers(addrs) == xs)
  {
    hide Embed, AddrOf, IsMapped;
    var addrs := AddrsOf(Embeds(fam, xs));
    forall i | 0 <= i < |xs|
      ensures addrs[i].fam == fam <==> !IsMapped(fam, xs[i])
      ensures !IsMapped(fam, xs[i]) ==> addrs[i].n == xs[i]
    {
      assert xs[i] in xs;
      EmbeddedAddr(fam, xs[i]);
      MappedBounds(fam, xs[i]);
    }
  }

  lemma MappedBounds(fam: Family, a: nat)
    ensures IsMapped(fam, a) ==> fam.V6? && a >= MAPPED
  {
  }

  ghost predicate ListedBy(fam: Family, rs: seq<IPRange>, a: nat) {
    exists i :: 0 <= i < |rs| && ListRange(fam, rs[i]).Returns? && a in ListRange(fam, rs[i]).value
  }

  lemma {:induction false} ParsedMembers(fam: Family, rs: seq<IPRange>, a: nat)
    requires ParseAll(fam, rs).Returns?
    ensures a in ParseAll(fam, rs).value <==> ListedBy(fam, rs, a)
  {
    hide ListRange;
    if rs != [] {
      var n := |rs| - 1;
      ParsedMembers(fam, rs[..n], a);
      if ListedBy(fam, rs, a) {
        var i :| 0 <= i < |rs| && ListRange(fam, rs[i]).Returns? && a in ListRange(fam, rs[i]).value;
        assert i < n ==> rs[..n][i] == rs[i];
      }
      if ListedBy(fam, rs[..n], a) {
        var i :| 0 <= i < n && ListRange(fam, rs[..n][i]).Returns? && a in ListRange(fam, rs[..n][i]).value;
        assert rs[..n][i] == rs[i];
      }
    }
  }

  /** What is listed is denoted, or the number of a v4 address. */
  lemma ListedShape(fam: Family, rs: seq<IPRange>, a: nat)
    requires ParseAll(fam, rs).Returns? && a in ParseAll(fam, rs).value
    ensures Denotes(rs, a) || (IsMapped(fam, a) && a < Limit(fam))
  {
    ParsedMembers(fam, rs, a);
    var i :| 0 <= i < |rs| && ListRange(fam, rs[i]).Returns? && a in ListRange(fam, rs[i]).value;
    assert rs[i].Has(a) || (rs[i].Span? && Strays(fam, rs[i].lo, rs[i].hi));
  }

  lemma ListedBelowLimit(fam: Family, rs: seq<IPRange>)
    requires OfFamily(fam, rs) && ParseAll(fam, rs).Returns?
    ensures forall a | a in ParseAll(fam, rs).value :: a < Limit(fam)
  {
    hide ParseAll, IsMapped;
    forall a | a in ParseAll(fam, rs).value ensures a < Limit(fam) {
      ListedShape(fam, rs, a);
      if Denotes(rs, a) {
        var i :| 0 <= i < |rs| && rs[i].Has(a);
        assert rs[i] in rs;
      }
    }
  }

  /** Merging returns exactly on ranges that are in order, listed as their addresses and not too many, and
      panics or never returns exactly when parsing does. What it returns holds the same addresses and is
      canonical. */
  lemma MergeMeaning(fam: Family, rs: seq<IPRange>)
    requires OfFamily(fam, rs)
    ensures Merged(fam, rs).Returns? <==> Regular(fam, rs)
    ensures Merged(fam, rs).Panics? <==> StopsWith(fam, rs, Panics)
    ensures Merged(fam, rs).NeverReturns? <==> StopsWith(fam, rs, NeverReturns)
    ensures Regular(fam, rs) ==>
      var merged := Merged(fam, rs).value;
      && Canonical(fam, merged) && AllOrdered(merged) && merged == Convert(fam, Flatten(rs))
      && (forall a :: Denotes(merged, a) <==> Denotes(rs, a))
  {
    hide Canonical, Denotes, Convert, IsMapped, ParseAll, Flatten, StopsWith;
    ParseOutcome(fam, rs);
    if Regular(fam, rs) {
      RegularParses(fam, rs);
      ConvertIsCanonical(fam, Flatten(rs));
      forall a ensures a in Flatten(rs) <==> Denotes(rs, a) {
        FlattenMembers(rs, a);
      }
      forall a: nat | Denotes(rs, a) ensures !IsMapped(fam, a) {
        RegularNotMapped(fam, rs, a);
      }
    } else if ParseAll(fam, rs).Returns? {
      StrayIsMapped(fam, rs);
    }
  }

  lemma RegularNotMapped(fam: Family, rs: seq<IPRange>, a: nat)
    requires OfFamily(fam, rs) && Regular(fam, rs) && Denotes(rs, a)
    ensures !IsMapped(fam, a) && a < Limit(fam)
  {
    var i :| 0 <= i < |rs| && rs[i].Has(a);
    assert rs[i] in rs;
  }

  /** A list that returns without being regular holds a v4 address among v6 ones. */
  lemma StrayIsMapped(fam: Family, rs: seq<IPRange>)
    requires OfFamily(fam, rs) && ParseAll(fam, rs).Returns? && !Regular(fam, rs)
    ensures exists a | a in ParseAll(fam, rs).value :: IsMapped(fam, a)
  {
    hide ParseAll, Flatten;
    ParseReturns(fam, rs);
    assert !Straight(fam, rs) by { if Straight(fam, rs) { StraightRegular(fam, rs); } }
    var i :| 0 <= i < |rs| && rs[i].Span? && Strays(fam, rs[i].lo, rs[i].hi);
    var head := ListRange(fam, rs[i]).value;
    assert head[1] == MAPPED + rs[i].lo + 1 && IsMapped(fam, head[1]);
    ParsedMembers(fam, rs, head[1]);
  }

  /** The merged form depends on the addresses only, not on how or in which order they were written. */
  lemma MergeDependsOnAddressesOnly(fam: Family, rs: seq<IPRange>, ts: seq<IPRange>)
    requires OfFamily(fam, rs) && OfFamily(fam, ts) && Regular(fam, rs) && Regular(fam, ts)
    ensures (forall a :: Denotes(rs, a) <==> Denotes(ts, a)) <==> Merged(fam, rs) == Merged(fam, ts)
  {
    hide Merged, Canonical, Denotes;
    MergeMeaning(fam, rs);
    MergeMeaning(fam, ts);
    if forall a :: Denotes(rs, a) <==> Denotes(ts, a) {
      CanonicalUnique(fam, Merged(fam, rs).value, Merged(fam, ts).value);
    }
  }

  /** Parsing what merging returned gives the sorted distinct addresses of the input, and merging it again
      changes nothing, exactly unless both top addresses are present: then neither ever returns. */
  lemma MergedParsesAgain(fam: Family, rs: seq<IPRange>)
    requires OfFamily(fam, rs) && Regular(fam, rs)
    ensures Merged(fam, rs).Returns?
    ensures var merged := Merged(fam, rs).value; var tops := Denotes(rs, Limit(fam) - 2) && Denotes(rs, Limit(fam) - 1);
      && (Regular(fam, merged) <==> !tops)
      && ParseAll(fam, merged) == (if tops then NeverReturns else Returns(SortDistinct(Flatten(rs))))
      && Merged(fam, merged) == if tops then NeverReturns else Returns(merged)
  {
    hide Convert, Canonical, Denotes, ParseAll, SortDistinct, Flatten, IsMapped;
    MergeMeaning(fam, rs);
    var merged, tops := Merged(fam, rs).value, Denotes(rs, Limit(fam) - 2) && Denotes(rs, Limit(fam) - 1);
    forall a ensures a in Flatten(rs) <==> Denotes(rs, a) {
      FlattenMembers(rs, a);
    }
    forall a: nat | Denotes(rs, a) ensures !IsMapped(fam, a) && a < Limit(fam) {
      RegularNotMapped(fam, rs, a);
    }
    ConvertedParsesAgain(fam, Flatten(rs));
    if !tops {
      ConvertAgain(fam, Flatten(rs));
    }
  }

  /** Two cases. The two top v4 addresses merge into a span that is never parsed again; and merging the v6 range
      64:ff9b::1-64:ff9b::a never returns, the first byte of its addresses being zero. */
  lemma MergeHangs()
    ensures var rs := [One(P32 - 2), One(P32 - 1)];
      Merged(V4, rs).Returns? && ParseAll(V4, Merged(V4, rs).value).NeverReturns?
    ensures var base := 0x64_FF9B_0000_0000_0000_0000_0000_0000; Merged(V6, [Span(base + 1, base + 10)]).NeverReturns?
  {
    hide Merged, ParseAll, Regular, OfFamily, Denotes, StopsAt;
    TopsAreRegular();
    MergedParsesAgain(V4, [One(P32 - 2), One(P32 - 1)]);
    var base := 0x64_FF9B_0000_0000_0000_0000_0000_0000;
    LowSpanStops(base);
    MergeMeaning(V6, [Span(base + 1, base + 10)]);
    assert StopsAt(V6, [Span(base + 1, base + 10)], 0, NeverReturns);
  }

  lemma TopsAreRegular()
    ensures var rs := [One(P32 - 2), One(P32 - 1)];
      OfFamily(V4, rs) && Regular(V4, rs) && Denotes(rs, P32 - 2) && Denotes(rs, P32 - 1)
  {
    var rs := [One(P32 - 2), One(P32 - 1)];
    assert rs[0].Has(P32 - 2) && rs[1].Has(P32 - 1);
    FlattenLast(rs);
    FlattenLast(rs[..1]);
  }

  lemma LowSpanStops(base: nat)
    requires base == 0x64_FF9B_0000_0000_0000_0000_0000_0000
    ensures var rs := [Span(base + 1, base + 10)]; OfFamily(V6, rs) && StopsAt(V6, rs, 0, NeverReturns)
  {
    RefusedExactly(9);
  }

  /** The v6 range fd12:3456:789a:baba::1-fd12:3456:789a:baba:ffff:ffff:ffff:ffff: the loop would list it, but its
      length of 2^64 - 2 is read as the capacity -2, and parsing and merging it panic. */
  lemma HugeRangePanics()
    ensures var base := 0xFD12_3456_789A_BABA_0000_0000_0000_0000; var rs := [Span(base + 1, base + 0xFFFF_FFFF_FFFF_FFFF)];
      && OfFamily(V6, rs) && Enumerable(V6, rs[0].lo, rs[0].hi) && Int64(rs[0].hi - rs[0].lo) == -2
      && ParseAll(V6, rs) == Panics && Merged(V6, rs) == Panics
  {
    var base := 0xFD12_3456_789A_BABA_0000_0000_0000_0000;
    var rs := [Span(base + 1, base + 0xFFFF_FFFF_FFFF_FFFF)];
    assert rs[..0] == [];
    assert ParseAll(V6, rs) == Append(Returns([]), ListRange(V6, rs[0]));
  }

  lemma ConvertAgain(fam: Family, ips: seq<nat>)
    ensures Convert(fam, SortDistinct(ips)) == Convert(fam, ips)
  {
    hide Convert, Canonical, Denotes, SortDistinct;
    ConvertIsCanonical(fam, ips);
    ConvertIsCanonical(fam, SortDistinct(ips));
    CanonicalUnique(fam, Convert(fam, ips), Convert(fam, SortDistinct(ips)));
  }

  lemma SpanDenotesEnds(rs: seq<IPRange>, r: IPRange)
    requires r in rs && r.Span? && r.lo < r.hi
    ensures Denotes(rs, r.hi - 1) && Denotes(rs, r.hi)
  {
  }

  lemma TopSpan(fam: Family, merged: seq<IPRange>) returns (r: IPRange)
    requires Canonical(fam, merged) && forall r | r in merged :: r.Hi() < Limit(fam)
    requires Denotes(merged, Limit(fam) - 2) && Denotes(merged, Limit(fam) - 1)
    ensures r in merged && r.Span? && r.hi == Limit(fam) - 1
  {
    var top := Limit(fam) - 1;
    var i :| 0 <= i < |merged| && merged[i].Has(top - 1);
    var j :| 0 <= j < |merged| && merged[j].Has(top);
    r := merged[j];
    if i < j {
      NeverTouching(fam, merged, i, j);
    }
  }

  /** Two ranges of a canonical list do not touch where the successor is defined. */
  lemma NeverTouching(fam: Family, rs: seq<IPRange>, i: nat, j: nat)
    requires Canonical(fam, rs) && i < j < |rs|
    ensures SuccDefined(fam, rs[i].Hi()) ==> rs[j].Lo() != rs[i].Hi() + 1
  {
    assert rs[i].Hi() < rs[i + 1].Lo() && !Joinable(fam, rs, i);
    assert WellShaped(fam, rs[i + 1]);
    assert i + 1 < j ==> rs[i + 1].Hi() < rs[j].Lo();
  }

  lemma AllBelowLimit(fam: Family, ips: seq<nat>, rs: seq<IPRange>)
    requires forall a | a in ips :: a < Limit(fam)
    requires (forall a :: Denotes(rs, a) <==> a in ips) && AllOrdered(rs)
    ensures forall r | r in rs :: r.Hi() < Limit(fam)
  {
    forall r | r in rs ensures r.Hi() < Limit(fam) {
      var i :| 0 <= i < |rs| && rs[i] == r;
      assert rs[i].Has(r.Hi());
      assert Denotes(rs, r.Hi());
    }
  }
}
