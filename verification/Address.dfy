/** Stock option and result types shared by the whole project. */
module Wrappers {
  datatype Option<+T> = None | Some(value: T)

  datatype Result<+T, +E> = Ok(value: T) | Err(error: E)

  /** What a call comes to when it may also panic, or run until its memory is used up. */
  datatype Outcome<+T> = Returns(value: T) | Fails | Panics | NeverReturns {
    /** The outcome of a caller that this call stops. */
    function Stopped<U>(): Outcome<U>
      requires !Returns?
    {
      if Fails? then Fails else if Panics? then Panics else NeverReturns
    }
  }
}

/** IP addresses as the byte slices of Go's `net.IP`, and the two successor
    functions the allocator relies on: the byte-carry one and the big-integer one. */
module Address {
  type Byte = b: int | 0 <= b < 256

  const P24: nat := 0x100_0000
  const P32: nat := 0x1_0000_0000
  const P64: nat := 0x1_00000000_00000000
  const P120: nat := 0x1_000000_00000000_00000000_00000000
  const P128: nat := 0x1_00000000_00000000_00000000_00000000

  datatype Family = V4 | V6

  /** Number of addresses of a family. */
  function Limit(fam: Family): nat {
    if fam.V4? then P32 else P128
  }

  /** The smallest number whose minimal big-endian form has as many bytes as an address of the family. */
  function First(fam: Family): nat {
    if fam.V4? then P24 else P120
  }

  /** `n` is an address of the family; a v6 address in ::ffff:0:0/96 is read by Go as a v4 one. */
  predicate IsAddress(fam: Family, n: nat) {
    n < Limit(fam) && (fam.V6? ==> n / P32 != 0xFFFF)
  }

  /** The first of the 16-byte numbers in ::ffff:0:0/96, the forms of v4 addresses. */
  const MAPPED: nat := 0xFFFF_0000_0000

  // ----- Big-endian numbers -----

  function Pow256(n: nat): (p: nat)
    ensures p >= 1
  {
    if n == 0 then 1 else Pow256(n - 1) * 256
  }

  function Value(s: seq<Byte>): nat {
    if s == [] then 0 else Value(s[..|s| - 1]) * 256 + s[|s| - 1]
  }

  /** The `n` low-order bytes of `v`, most significant first. */
  function FixedBytes(n: nat, v: nat): (s: seq<Byte>)
    ensures |s| == n
  {
    if n == 0 then [] else FixedBytes(n - 1, v / 256) + [v % 256]
  }

  /** `big.Int.Bytes`: the shortest big-endian form, empty for zero. */
  function MinBytes(v: nat): seq<Byte> {
    if v == 0 then [] else MinBytes(v / 256) + [v % 256]
  }

  lemma PowValues()
    ensures Pow256(3) == P24 && Pow256(4) == P32 && Pow256(12) == 0x1_00000000_00000000_00000000
    ensures Pow256(15) == P120 && Pow256(16) == P128
  {
  }

  lemma {:induction false} ValueOfConcat(a: seq<Byte>, b: seq<Byte>)
    ensures Value(a + b) == Value(a) * Pow256(|b|) + Value(b)
  {
    if b == [] {
      assert a + b == a;
    } else {
      var n := |b| - 1;
      ValueOfConcat(a, b[..n]);
      assert (a + b)[..|a + b| - 1] == a + b[..n];
      assert Value(a) * Pow256(|b|) == Value(a) * Pow256(n) * 256;
    }
  }

  lemma {:induction false} ValueBelow(s: seq<Byte>)
    ensures Value(s) < Pow256(|s|)
  {
    if s != [] {
      ValueBelow(s[..|s| - 1]);
    }
  }

  lemma {:induction false} FixedBytesOfValue(s: seq<Byte>)
    ensures FixedBytes(|s|, Value(s)) == s
  {
    if s != [] {
      FixedBytesOfValue(s[..|s| - 1]);
      assert s == s[..|s| - 1] + [s[|s| - 1]];
    }
  }

  lemma {:induction false} ValueOfFixedBytes(n: nat, v: nat)
    requires v < Pow256(n)
    ensures Value(FixedBytes(n, v)) == v
  {
    if n > 0 {
      ValueOfFixedBytes(n - 1, v / 256);
      assert FixedBytes(n, v)[..n - 1] == FixedBytes(n - 1, v / 256);
    }
  }

  /** A number has a `k`-byte minimal form exactly when it lies in `[256^(k-1), 256^k)`. */
  lemma {:induction false} MinBytesLength(v: nat, k: nat)
    requires k > 0
    ensures |MinBytes(v)| == k <==> Pow256(k - 1) <= v < Pow256(k)
  {
    if v != 0 {
      if k == 1 {
        assert MinBytes(v / 256) == [] <==> v / 256 == 0;
      } else {
        MinBytesLength(v / 256, k - 1);
      }
    }
  }

  lemma {:induction false} MinBytesIsFixed(v: nat)
    ensures MinBytes(v) == FixedBytes(|MinBytes(v)|, v)
  {
    if v != 0 {
      MinBytesIsFixed(v / 256);
    }
  }

  // ----- net.IP -----

  /** Go prefixes a v4 address with ten zero bytes and two 0xff bytes. */
  const V4_PREFIX: seq<Byte> := [0, 0, 0, 0, 0, 0, 0, 0, 0, 0, 0xFF, 0xFF]

  /** The empty slice stands for Go's nil address. */
  const NIL: seq<Byte> := []

  function To4(ip: seq<Byte>): seq<Byte> {
    if |ip| == 4 then ip
    else if |ip| == 16 && ip[..12] == V4_PREFIX then ip[12..]
    else NIL
  }

  function To16(ip: seq<Byte>): seq<Byte> {
    if |ip| == 4 then V4_PREFIX + ip
    else if |ip| == 16 then ip
    else NIL
  }

  function IPToInt(ip: seq<Byte>): nat {
    if To4(ip) != NIL then Value(To4(ip)) else Value(To16(ip))
  }

  function IntToIP(i: nat): seq<Byte> {
    To16(MinBytes(i))
  }

  /** The big-integer successor; it pads nothing, so it may come out nil. */
  function NextIP(ip: seq<Byte>): seq<Byte> {
    IntToIP(IPToInt(ip) + 1)
  }

  function Cmp(ip1: seq<Byte>, ip2: seq<Byte>): int {
    if IPToInt(ip1) < IPToInt(ip2) then -1 else if IPToInt(ip1) == IPToInt(ip2) then 0 else 1
  }

  /** The 16-byte form in which `net.ParseIP` returns address `n` of a family. */
  function Embed(fam: Family, n: nat): seq<Byte> {
    if fam.V4? then V4_PREFIX + FixedBytes(4, n) else FixedBytes(16, n)
  }

  /** Add one, wrapping around at the width of the address. */
  function CarryNext(ip: seq<Byte>): seq<Byte> {
    FixedBytes(|ip|, (Value(ip) + 1) % Pow256(|ip|))
  }

  /** Byte-carry successor: add one to the last byte, move left while the byte wraps to zero. */
  method NextBytes(ip: array<Byte>) returns (next: array<Byte>)
    ensures Value(next[..]) == (Value(ip[..]) + 1) % Pow256(ip.Length)
    ensures next[..] == CarryNext(ip[..])
  {
    hide Value, Pow256, FixedBytes;
    var n := ip.Length;
    next := new Byte[n];
    forall k | 0 <= k < n { next[k] := ip[k]; }
    var i := n - 1;
    while i >= 0
      invariant -1 <= i < n
      invariant forall k :: 0 <= k <= i ==> next[k] == ip[k]
      invariant forall k :: i < k < n ==> next[k] == 0 && ip[k] == 255
      decreases i
    {
      var bumped: int := next[i];
      next[i] := (bumped + 1) % 256;
      if next[i] != 0 { break; }
      i := i - 1;
    }
    CarryLeavesSuccessor(ip[..], next[..], i);
    FixedBytesOfValue(next[..]);
  }

  lemma {:induction false} ValueOfRepeat(s: seq<Byte>, b: Byte)
    requires b == 0 || b == 255
    requires forall k :: 0 <= k < |s| ==> s[k] == b
    ensures Value(s) == if b == 0 then 0 else Pow256(|s|) - 1
  {
    if s != [] {
      ValueOfRepeat(s[..|s| - 1], b);
    }
  }

  /** A head followed by 0xff bytes, plus one, is the head plus one followed by zero bytes. */
  lemma {:induction false} CarryOverSuffix(head: seq<Byte>, bumped: seq<Byte>, ones: seq<Byte>, zeros: seq<Byte>)
    requires |zeros| == |ones| && Value(bumped) == Value(head) + 1
    requires forall k :: 0 <= k < |ones| ==> ones[k] == 255 && zeros[k] == 0
    ensures Value(bumped + zeros) == Value(head + ones) + 1
  {
    var m := |ones| - 1;
    if m < 0 {
      assert bumped + zeros == bumped && head + ones == head;
    } else {
      CarryOverSuffix(head, bumped, ones[..m], zeros[..m]);
      assert (head + ones)[..|head + ones| - 1] == head + ones[..m];
      assert (bumped + zeros)[..|bumped + zeros| - 1] == bumped + zeros[..m];
    }
  }

  /** `next` keeps `ip` left of `i`, is one more at `i`, and zero where `ip` ends in 0xff bytes. */
  lemma CarryLeavesSuccessor(ip: seq<Byte>, next: seq<Byte>, i: int)
    requires |next| == |ip| && -1 <= i < |ip|
    requires forall k :: 0 <= k < i ==> next[k] == ip[k]
    requires i >= 0 ==> (next[i] as int) == (ip[i] as int) + 1
    requires forall k :: i < k < |ip| ==> next[k] == 0 && ip[k] == 255
    ensures Value(next) == (Value(ip) + 1) % Pow256(|ip|)
  {
    hide Value, Pow256;
    var p := Pow256(|ip|);
    if i < 0 {
      ValueOfRepeat(ip, 255);
      ValueOfRepeat(next, 0);
      SmallMod(0, p);
    } else {
      var head, bumped := ip[..i + 1], next[..i + 1];
      assert head[..i] == bumped[..i] && bumped[i] == next[i] && head[i] == ip[i];
      BumpLast(head, bumped);
      CarryOverSuffix(head, bumped, ip[i + 1..], next[i + 1..]);
      assert ip == head + ip[i + 1..] && next == bumped + next[i + 1..];
      ValueBelow(next);
      SmallMod(Value(next), p);
    }
  }

  lemma BumpLast(head: seq<Byte>, bumped: seq<Byte>)
    requires |head| == |bumped| > 0 && head[..|head| - 1] == bumped[..|head| - 1]
    requires (bumped[|head| - 1] as int) == (head[|head| - 1] as int) + 1
    ensures Value(bumped) == Value(head) + 1
  {
  }

  lemma SmallMod(v: nat, m: nat)
    requires v < m
    ensures v % m == v && m % m == 0
  {
  }

  // ----- Where the big-integer successor is defined -----

  /** `NextIP` answers the family's next address. */
  predicate SuccDefined(fam: Family, n: nat) {
    First(fam) <= n + 1 < Limit(fam)
  }

  /** `NextIP` answers some address: the minimal form of `n + 1` has 4 or 16 bytes. */
  predicate SuccNotNil(n: nat) {
    P24 <= n + 1 < P32 || P120 <= n + 1 < P128
  }

  lemma {:induction false} HighBytes(n: nat, v: nat)
    requires n >= 4
    ensures FixedBytes(n, v)[..n - 4] == FixedBytes(n - 4, v / P32)
  {
    var a, b, c, d := v / 256, v / 256 / 256, v / 256 / 256 / 256, v / 256 / 256 / 256 / 256;
    assert d == v / P32;
    assert FixedBytes(n, v)[..n - 1] == FixedBytes(n - 1, a);
    assert FixedBytes(n - 1, a)[..n - 2] == FixedBytes(n - 2, b);
    assert FixedBytes(n - 2, b)[..n - 3] == FixedBytes(n - 3, c);
    assert FixedBytes(n - 3, c)[..n - 4] == FixedBytes(n - 4, d);
    assert FixedBytes(n, v)[..n - 4] == FixedBytes(n - 1, a)[..n - 4] == FixedBytes(n - 2, b)[..n - 4];
  }

  lemma PrefixValue()
    ensures Value(V4_PREFIX) == 0xFFFF
  {
    ValueOfRepeat(V4_PREFIX[..10], 0);
    assert V4_PREFIX[..11][..10] == V4_PREFIX[..10];
    assert V4_PREFIX[..12] == V4_PREFIX;
    assert Value(V4_PREFIX[..11]) == 0xFF;
  }

  /** Reading a parsed address back gives its number. */
  lemma EmbedRoundTrip(fam: Family, n: nat)
    requires IsAddress(fam, n)
    ensures |Embed(fam, n)| == 16 && IPToInt(Embed(fam, n)) == n
  {
    PowValues();
    var ip := Embed(fam, n);
    if fam.V4? {
      ValueOfFixedBytes(4, n);
      assert ip[..12] == V4_PREFIX && ip[12..] == FixedBytes(4, n);
    } else {
      HighBytes(16, n);
      PrefixValue();
      ValueOfFixedBytes(12, n / P32);
      ValueOfFixedBytes(16, n);
    }
  }

  lemma EmbedLength(fam: Family, n: nat)
    ensures |Embed(fam, n)| == 16 && IPToInt(NIL) == 0
  {
  }

  lemma IntToIPShape(i: nat)
    ensures P24 <= i < P32 ==> IntToIP(i) == Embed(V4, i)
    ensures P120 <= i < P128 ==> IntToIP(i) == Embed(V6, i)
    ensures !(P24 <= i < P32) && !(P120 <= i < P128) ==> IntToIP(i) == NIL
  {
    PowValues();
    MinBytesLength(i, 4);
    MinBytesLength(i, 16);
    MinBytesIsFixed(i);
  }

  /** The big-integer successor is the family's successor exactly on `[First - 1, Limit - 1)`,
      and is nil exactly when the incremented number needs neither 4 nor 16 bytes. */
  lemma NextIPExact(fam: Family, n: nat)
    requires IsAddress(fam, n)
    ensures (n + 1 < Limit(fam) && NextIP(Embed(fam, n)) == Embed(fam, n + 1)) <==> SuccDefined(fam, n)
    ensures NextIP(Embed(fam, n)) != NIL <==> SuccNotNil(n)
    ensures NextIP(Embed(fam, n)) != NIL ==> IPToInt(NextIP(Embed(fam, n))) == n + 1
  {
    hide Embed, IPToInt, IntToIP;
    EmbedRoundTrip(fam, n);
    IntToIPShape(n + 1);
    EmbedLength(fam, n + 1);
    if SuccNotNil(n) {
      var crossed := if n + 1 < P32 then V4 else V6;
      EmbedRoundTrip(crossed, n + 1);
      if crossed != fam && n + 1 < Limit(fam) {
        V4FormIsNotV6Form(n + 1);
      }
    }
  }

  lemma V4FormIsNotV6Form(n: nat)
    requires n < P32
    ensures Embed(V4, n) != Embed(V6, n)
  {
    PowValues();
    HighBytes(16, n);
    PrefixValue();
    ValueOfFixedBytes(12, 0);
    assert Embed(V4, n)[..12] == V4_PREFIX;
  }

  lemma EmbedValue(fam: Family, n: nat)
    requires n < Limit(fam)
    ensures Value(Embed(fam, n)) == (if fam.V4? then 0xFFFF * P32 else 0) + n
  {
    PowValues();
    PrefixValue();
    ValueOfFixedBytes(if fam.V4? then 4 else 16, n);
    ValueOfConcat(V4_PREFIX, FixedBytes(4, n));
  }

  /** The 16-byte form of a v4 address, read as a v6 number. */
  lemma MappedForm(n: nat)
    requires n < P32
    ensures Embed(V6, MAPPED + n) == Embed(V4, n)
  {
    EmbedValue(V4, n);
    FixedBytesOfValue(Embed(V4, n));
  }

  /** The number that stands for a 16-byte form among the addresses of a family. */
  function NumberOf(fam: Family, ip: seq<Byte>): nat {
    if fam.V4? then IPToInt(ip) else Value(ip)
  }

  lemma NumberRoundTrip(fam: Family, n: nat)
    requires n < Limit(fam)
    ensures NumberOf(fam, Embed(fam, n)) == n
  {
    if fam.V4? {
      EmbedRoundTrip(fam, n);
    } else {
      EmbedValue(fam, n);
    }
  }

  /** Byte-carry and big-integer successors agree exactly where the latter is defined. */
  lemma SuccessorsAgree(fam: Family, n: nat)
    requires IsAddress(fam, n) && n + 1 < Limit(fam)
    ensures CarryNext(Embed(fam, n)) == Embed(fam, n + 1)
    ensures NextIP(Embed(fam, n)) == CarryNext(Embed(fam, n)) <==> SuccDefined(fam, n)
  {
    hide Embed, Value, FixedBytes, Pow256, NextIP;
    EmbedLength(fam, n);
    EmbedLength(fam, n + 1);
    EmbedValue(fam, n);
    EmbedValue(fam, n + 1);
    PowValues();
    SmallMod(Value(Embed(fam, n + 1)), Pow256(16));
    FixedBytesOfValue(Embed(fam, n + 1));
    NextIPExact(fam, n);
  }
}
