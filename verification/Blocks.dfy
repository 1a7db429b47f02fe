/** CIDR blocks: a mask comparison that turns out to be interval nesting. */
module Blocks {
  import opened Wrappers
  import opened Address
  import opened Ranges

  /** A parsed subnet; `net.ParseCIDR` clears the host bits of the base address. */
  datatype Block = Block(fam: Family, base: nat, ones: nat)

  function Width(fam: Family): nat {
    if fam.V4? then 32 else 128
  }

  function Pow2(n: nat): (p: nat)
    ensures p >= 1
  {
    if n == 0 then 1 else 2 * Pow2(n - 1)
  }

  /** Number of addresses of a block. */
  function Size(b: Block): (s: nat)
    ensures s >= 1
  {
    if b.ones <= Width(b.fam) then Pow2(Width(b.fam) - b.ones) else 1
  }

  /** A v6 block based in ::ffff:0:0/96 is left out: Go reads it as a v4 one. */
  predicate ValidBlock(b: Block) {
    b.ones <= Width(b.fam) && b.base % Size(b) == 0 && !IsMapped(b.fam, b.base)
  }

  /** Equal after masking the host bits away. */
  predicate InBlock(b: Block, a: nat) {
    a / Size(b) == b.base / Size(b)
  }

  /** `IPNet.Contains`: no v6 block contains a v4 address, whatever its 16-byte form. */
  predicate Contains(b: Block, a: nat) {
    InBlock(b, a) && !IsMapped(b.fam, a)
  }

  predicate ContainsCIDR(b1: Block, b2: Block) {
    b1.ones <= b2.ones && Contains(b1, b2.base)
  }

  predicate IsCIDROverlap(b1: Block, b2: Block) {
    ContainsCIDR(b1, b2) || ContainsCIDR(b2, b1)
  }

  /** `ContainsIPRange`: list the range, then test the first and the last address listed. */
  function ContainsIPRange(b: Block, r: IPRange): Outcome<bool> {
    var ips := ListRange(b.fam, r);
    if !ips.Returns? then ips.Stopped()
    else Returns(Contains(b, ips.value[0]) && Contains(b, ips.value[|ips.value| - 1]))
  }

  lemma {:induction false} Pow2Split(m: nat, n: nat)
    ensures Pow2(m + n) == Pow2(m) * Pow2(n)
  {
    if n == 0 {
    } else {
      Pow2Split(m, n - 1);
      assert Pow2(m + n) == 2 * (Pow2(m) * Pow2(n - 1));
    }
  }

  lemma Pow2Double(n: nat, p: nat)
    requires Pow2(n) == p
    ensures Pow2(n + n) == p * p
  {
    hide Pow2;
    Pow2Split(n, n);
  }

  lemma Pow2Of4()
    ensures Pow2(4) == 16
  {
  }

  lemma SizeOf64(base: nat)
    ensures Size(Block(V6, base, 64)) == P64
  {
    hide Pow2;
    Pow2Of4();
    Pow2Double(4, 16);
    Pow2Double(8, 0x100);
    Pow2Double(16, 0x1_0000);
    Pow2Double(32, P32);
  }

  lemma QuotientUnique(x: nat, d: nat, q: nat, r: nat)
    requires d > 0 && x == d * q + r && r < d
    ensures x / d == q
  {
    var k := x / d - q;
    assert d * k == d * (x / d) - d * q;
    SmallMultiple(d, k);
  }

  lemma SmallMultiple(d: nat, k: int)
    ensures k >= 1 ==> d * k >= d
    ensures k <= -1 ==> d * k + d <= 0
  {
  }

  lemma DivideTwice(x: nat, d: nat, k: nat)
    requires d > 0 && k > 0
    ensures d * k > 0 && x / (d * k) == x / d / k
  {
    var q, r := x / d, x % d;
    var q', r' := q / k, q % k;
    assert x == d * q + r && q == k * q' + r';
    Regroup(x, d, k, q, r, q', r');
    QuotientUnique(x, d * k, q', d * r' + r);
  }

  lemma Regroup(x: nat, d: nat, k: nat, q: nat, r: nat, q': nat, r': nat)
    requires d > 0 && r < d && r' < k && x == d * q + r && q == k * q' + r'
    ensures x == (d * k) * q' + (d * r' + r)
    ensures 0 <= d * r' + r < d * k
  {
    assert d * q == d * (k * q') + d * r';
    assert d * (r' + 1) <= d * k;
  }

  lemma DivideMonotone(x: nat, y: nat, d: nat)
    requires x <= y && d > 0
    ensures x / d <= y / d
  {
    var k := x / d - y / d;
    assert d * k == d * (x / d) - d * (y / d);
    SmallMultiple(d, k);
  }

  /** The coarser block's quotient is a quotient of the finer block's one. */
  lemma CoarserQuotient(b1: Block, b2: Block, a: nat)
    requires ValidBlock(b1) && ValidBlock(b2) && b1.fam == b2.fam && b1.ones <= b2.ones
    ensures exists k | k > 0 :: a / Size(b1) == a / Size(b2) / k && b2.base / Size(b1) == b2.base / Size(b2) / k
  {
    var w, k := Width(b1.fam), Pow2(b2.ones - b1.ones);
    Pow2Split(w - b2.ones, b2.ones - b1.ones);
    assert w - b1.ones == (w - b2.ones) + (b2.ones - b1.ones);
    DivideTwice(a, Size(b2), k);
    DivideTwice(b2.base, Size(b2), k);
  }

  /** Two blocks of one family are nested or disjoint (section 3.1 of RFC 4632): the
      overlap test holds exactly when the two share an address, and then one holds the other. */
  lemma NestedOrDisjoint(b1: Block, b2: Block)
    requires ValidBlock(b1) && ValidBlock(b2) && b1.fam == b2.fam
    ensures IsCIDROverlap(b1, b2) <==> exists a :: Contains(b1, a) && Contains(b2, a)
    ensures IsCIDROverlap(b1, b2) ==>
      (forall a :: Contains(b2, a) ==> Contains(b1, a)) || (forall a :: Contains(b1, a) ==> Contains(b2, a))
    ensures !IsCIDROverlap(b1, b2) ==> forall a :: !(InBlock(b1, a) && InBlock(b2, a))
  {
    if b1.ones <= b2.ones {
      FinerInsideOrApart(b1, b2);
    } else {
      FinerInsideOrApart(b2, b1);
    }
  }

  lemma FinerInsideOrApart(b1: Block, b2: Block)
    requires ValidBlock(b1) && ValidBlock(b2) && b1.fam == b2.fam && b1.ones <= b2.ones
    ensures ContainsCIDR(b1, b2) ==> forall a :: InBlock(b2, a) ==> InBlock(b1, a)
    ensures !ContainsCIDR(b1, b2) ==> !IsCIDROverlap(b1, b2) && forall a :: InBlock(b2, a) ==> !InBlock(b1, a)
    ensures Contains(b2, b2.base) && (ContainsCIDR(b1, b2) ==> Contains(b1, b2.base))
  {
    hide Size, IsMapped;
    forall a: nat | InBlock(b2, a) ensures a / Size(b1) == b2.base / Size(b1) {
      CoarserQuotient(b1, b2, a);
    }
    if ContainsCIDR(b2, b1) {
      assert InBlock(b2, b1.base);
    }
  }

  /** Testing the two ends decides whether the block holds a whole range that is listed as its addresses.
      A range that strays is always refused, whatever the block; one whose length, cut down to 64 bits, is more
      than a slice can hold panics, and any other that is not listed gets no answer. */
  lemma EndsDecideRange(b: Block, r: IPRange)
    requires OfFamily(b.fam, [r])
    ensures ContainsIPRange(b, r).Fails? <==> !r.Ordered()
    ensures ContainsIPRange(b, r).Panics? <==> r.Ordered() && r.Span? && (r.hi - r.lo) % P64 > MAX_SLICE
    ensures ContainsIPRange(b, r).NeverReturns? <==>
      && r.Ordered() && r.Span? && (r.hi - r.lo) % P64 <= MAX_SLICE
      && !(Ends(b.fam, r.lo, r.hi) && r.hi - r.lo < MAX_SLICE)
    ensures Regular(b.fam, [r]) ==>
      ContainsIPRange(b, r).Returns? && (ContainsIPRange(b, r).value <==> forall a :: r.Has(a) ==> Contains(b, a))
    ensures r.Span? && Strays(b.fam, r.lo, r.hi) ==> ContainsIPRange(b, r) == Returns(false)
  {
    hide Size, ListRange, Int64, Refused, Ends, Strays, Regular, IsMapped;
    NotListed(b.fam, r);
    if Regular(b.fam, [r]) {
      WholeRange(b, r);
    }
    if r.Span? && Strays(b.fam, r.lo, r.hi) {
      StrayRefused(b, r);
    }
  }

  lemma NotListed(fam: Family, r: IPRange)
    ensures ListRange(fam, r).Fails? <==> !r.Ordered()
    ensures ListRange(fam, r).Panics? <==> r.Ordered() && r.Span? && (r.hi - r.lo) % P64 > MAX_SLICE
    ensures ListRange(fam, r).NeverReturns? <==>
      && r.Ordered() && r.Span? && (r.hi - r.lo) % P64 <= MAX_SLICE
      && !(Ends(fam, r.lo, r.hi) && r.hi - r.lo < MAX_SLICE)
  {
    hide Int64, Refused, Ends;
    if r.Span? && r.Ordered() {
      RefusedExactly(r.hi - r.lo);
    }
  }

  lemma WholeRange(b: Block, r: IPRange)
    requires OfFamily(b.fam, [r]) && Regular(b.fam, [r])
    ensures ContainsIPRange(b, r).Returns? && (ContainsIPRange(b, r).value <==> forall a :: r.Has(a) ==> Contains(b, a))
  {
    hide Size, ListRange, IsMapped;
    assert [r][0] == r && r in [r];
    FlattenLast([r]);
    RegularListed(b.fam, r);
    assert r.Has(r.Lo()) && r.Has(r.Hi());
    forall a: nat | r.Has(a) ensures !IsMapped(b.fam, a) {
      assert [r][0].Has(a);
      RegularNotMapped(b.fam, [r], a);
    }
    if InBlock(b, r.Lo()) && InBlock(b, r.Hi()) {
      forall a: nat | r.Has(a) ensures InBlock(b, a) {
        DivideMonotone(r.Lo(), a, Size(b));
        DivideMonotone(a, r.Hi(), Size(b));
      }
    }
  }

  lemma StrayRefused(b: Block, r: IPRange)
    requires r.Span? && Strays(b.fam, r.lo, r.hi)
    ensures ContainsIPRange(b, r) == Returns(false)
  {
    hide Size, InBlock, Int64, Refused;
    RefusedExactly(r.hi - r.lo);
    var ips := ListRange(b.fam, r).value;
    assert ips[|ips| - 1] == MAPPED + r.hi;
  }
}
