/**
 Two independent prefix matchers: the edge proxy compares shifted words, the network layer masks
 the v4 word and walks the v6 octets. Prefix notation is that of section 3.1 of RFC 4632.

 The reference is the plain reading: the first `prefix` bits of the two addresses are the same.
 */
module PrefixMatch {
  import opened Arithmetic
  import opened BitStrings
  import opened Wrappers

  /** An address by its octets, in network order. */
  datatype Ip = V4(octets: seq<Byte>) | V6(octets: seq<Byte>) {
    ghost predicate Valid() {
      |octets| == if V4? then 4 else 16
    }
  }

  /** A prefix length as configured: one unsigned byte. */
  type Prefix = Byte

  // ---------- Edge proxy: shift form ----------

  /** `x >> shift` on a word of `width` bits; shifting by the whole width is an overflow. */
  function ShiftRight(p: Profile, x: nat, shift: nat, width: nat): Option<int>
    requires 0 < width
  {
    if shift < width then Some(x / Pow(2, shift))
    else if p == Debug then None
    else Some(x / Pow(2, shift % width))
  }

  function ShiftMatch(p: Profile, ip: seq<Byte>, net: seq<Byte>, prefix: Prefix, width: nat): Option<bool>
    requires 0 < width
  {
    var shift := if prefix <= width then width - prefix else 0;
    match (ShiftRight(p, BigEndian(ip), shift, width), ShiftRight(p, BigEndian(net), shift, width))
    case (Some(x), Some(y)) => Some(x == y)
    case _ => None
  }

  /** The answer, or nothing when the build traps the overflow. */
  function IpInNet(p: Profile, ip: Ip, net: Ip, prefix: Prefix): Option<bool> {
    match (ip, net)
    case (V4(a), V4(n)) => ShiftMatch(p, a, n, prefix, 32)
    case (V6(a), V6(n)) => ShiftMatch(p, a, n, prefix, 128)
    case _ => Some(false)
  }

  // ---------- Network layer: mask form ----------

  function And(a: nat, b: nat): nat {
    if a == 0 || b == 0 then 0 else a % 2 * (b % 2) + 2 * And(a / 2, b / 2)
  }

  const U32_MAX: nat := 0xffff_ffff

  function InRangeV4(addr: seq<Byte>, base: seq<Byte>, prefix: Prefix): bool {
    if prefix == 0 then true
    else
      var mask := if prefix >= 32 then U32_MAX else U32_MAX - U32_MAX / Pow(2, prefix);
      And(BigEndian(addr), mask) == And(BigEndian(base), mask)
  }

  /** Mask of one octet: the upper `take` bits. */
  function OctetMask(take: nat): nat
    requires take <= 8
  {
    if take == 8 then 0xff else 0xff * Pow(2, 8 - take) % 256
  }

  function InRangeV6(a: seq<Byte>, b: seq<Byte>, bits: int): bool
    requires |a| == |b|
  {
    if a == [] || bits <= 0 then true
    else
      var mask := OctetMask(if bits < 8 then bits else 8);
      And(a[0], mask) == And(b[0], mask) && InRangeV6(a[1..], b[1..], bits - 8)
  }

  predicate Contains(base: Ip, prefix: Prefix, ip: Ip)
    requires base.Valid() && ip.Valid()
  {
    match (base, ip)
    case (V4(b), V4(a)) => InRangeV4(a, b, prefix)
    case (V6(b), V6(a)) => InRangeV6(a, b, prefix)
    case _ => false
  }

  // ---------- The plain reading ----------

  predicate SamePrefix(a: seq<Byte>, b: seq<Byte>, prefix: nat)
    requires |a| == |b|
  {
    var n := if prefix <= 8 * |a| then prefix else 8 * |a|;
    BitsOfBytes(a)[..n] == BitsOfBytes(b)[..n]
  }

  // ---------- Shifting compares leading bits ----------

  lemma {:induction false} WordBits(octets: seq<Byte>)
    ensures Bits(BigEndian(octets), 8 * |octets|) == BitsOfBytes(octets)
    ensures BigEndian(octets) < Pow(2, 8 * |octets|)
  {
    hide Bits, BitsOfBytes, Pow, BigEndian;
    if octets == [] {
      NoOctets();
    } else {
      var init, last := octets[..|octets| - 1], octets[|octets| - 1];
      WordBits(init);
      assert octets == init + [last];
      WordLast(init, last);
      ByteBitsAppend(init, last);
      AppendByte(BigEndian(init), 8 * |init|, last);
      assert 8 * |octets| == 8 * |init| + 8;
    }
  }

  lemma NoOctets()
    ensures BigEndian([]) == 0 && BitsOfBytes([]) == [] && Pow(2, 0) == 1
  {
  }

  lemma AppendByte(x: nat, n: nat, b: Byte)
    requires x < Pow(2, n)
    ensures Bits(256 * x + b, n + 8) == Bits(x, n) + Bits(b, 8)
    ensures 256 * x + b < Pow(2, n + 8)
  {
    hide Bits, Pow;
    PowersOfTwo();
    var v := 256 * x + b;
    BitsSplit(v, n, 8);
    DivIs(v, 256, x, b);
    BitsTruncate(v, 8, 8);
    Pow2Add(n, 8);
  }

  lemma WordLast(init: seq<Byte>, last: Byte)
    ensures BigEndian(init + [last]) == 256 * BigEndian(init) + last
  {
    assert (init + [last])[..|init|] == init;
  }

  /** Two words of `n + s` bits agree above bit `s` exactly when their first `n` bits agree. */
  lemma ShiftComparesPrefix(x: nat, y: nat, n: nat, s: nat)
    requires x < Pow(2, n + s) && y < Pow(2, n + s)
    ensures x / Pow(2, s) == y / Pow(2, s) <==> Bits(x, n + s)[..n] == Bits(y, n + s)[..n]
  {
    hide Bits;
    BitsSplit(x, n, s);
    BitsSplit(y, n, s);
    assert Bits(x, n + s)[..n] == Bits(x / Pow(2, s), n);
    assert Bits(y, n + s)[..n] == Bits(y / Pow(2, s), n);
    QuotientBound(x, n, s);
    QuotientBound(y, n, s);
    ValueOfBits(x / Pow(2, s), n);
    ValueOfBits(y / Pow(2, s), n);
  }

  lemma QuotientBound(x: nat, n: nat, s: nat)
    requires x < Pow(2, n + s)
    ensures 0 <= x / Pow(2, s) < Pow(2, n)
  {
    Pow2Add(n, s);
    hide Pow;
    var q := x / Pow(2, s);
    assert x == Pow(2, s) * q + x % Pow(2, s);
    MulMono(Pow(2, n), q, Pow(2, s));
    MulMono(q, -1, Pow(2, s));
  }

  /** The shift form, wherever its shift is defined, is the plain reading. */
  lemma ShiftMatchIsSamePrefix(p: Profile, a: seq<Byte>, b: seq<Byte>, prefix: Prefix, width: nat)
    requires |a| == |b| && width == 8 * |a| && 0 < width && prefix > 0
    ensures ShiftMatch(p, a, b, prefix, width) == Some(SamePrefix(a, b, prefix))
  {
    hide Bits, BitsOfBytes, Pow, BigEndian;
    WordBits(a);
    WordBits(b);
    var n := if prefix <= width then prefix as int else width;
    ShiftComparesPrefix(BigEndian(a), BigEndian(b), n, width - n);
  }

  // ---------- Masking compares leading bits ----------

  lemma AndZero(a: nat)
    ensures And(a, 0) == 0 && And(0, a) == 0
  {
  }

  lemma AndHalf(a: nat, b: nat)
    ensures And(a, b) == a % 2 * (b % 2) + 2 * And(a / 2, b / 2)
  {
    if a == 0 || b == 0 {
      AndZero(a / 2);
      AndZero(b / 2);
    }
  }

  /** `n` one bits followed by `s` zero bits. */
  function Mask(n: nat, s: nat): nat
    decreases n + s
  {
    if s > 0 then 2 * Mask(n, s - 1) else if n > 0 then 2 * Mask(n - 1, 0) + 1 else 0
  }

  lemma {:induction false} MaskValue(n: nat, s: nat)
    ensures Mask(n, s) == Pow(2, n + s) - Pow(2, s)
    decreases n + s
  {
    if s > 0 {
      MaskValue(n, s - 1);
    } else if n > 0 {
      MaskValue(n - 1, 0);
    }
  }

  lemma {:induction false} AndOnes(a: nat, n: nat)
    ensures And(a, Mask(n, 0)) == a % Pow(2, n)
  {
    hide And;
    if n == 0 {
      AndZero(a);
    } else {
      AndHalf(a, Mask(n, 0));
      AndOnes(a / 2, n - 1);
      ModDouble(a, Pow(2, n - 1));
    }
  }

  lemma ModDouble(a: nat, p: nat)
    requires p > 0
    ensures a % (2 * p) == a % 2 + 2 * (a / 2 % p)
  {
    HalfThenDivide(a, p);
    var t := a % (2 * p);
    assert t == 2 * (t / 2) + t % 2;
  }

  /** Words agree under a mask exactly when they agree above its zeros. */
  lemma {:induction false} MaskComparesPrefix(a: nat, b: nat, n: nat, s: nat)
    ensures And(a, Mask(n, s)) == And(b, Mask(n, s)) <==> a / Pow(2, s) % Pow(2, n) == b / Pow(2, s) % Pow(2, n)
    decreases s
  {
    hide And;
    if s == 0 {
      AndOnes(a, n);
      AndOnes(b, n);
      assert a / 1 == a && b / 1 == b;
    } else {
      AndHalf(a, Mask(n, s));
      AndHalf(b, Mask(n, s));
      HalfThenDivide(a, Pow(2, s - 1));
      HalfThenDivide(b, Pow(2, s - 1));
      MaskComparesPrefix(a / 2, b / 2, n, s - 1);
    }
  }

  /** For words of exactly `n + s` bits, that is: when they agree after the shift. */
  lemma MaskIsShift(a: nat, b: nat, n: nat, s: nat)
    requires a < Pow(2, n + s) && b < Pow(2, n + s)
    ensures And(a, Mask(n, s)) == And(b, Mask(n, s)) <==> a / Pow(2, s) == b / Pow(2, s)
  {
    hide And, Mask, Pow;
    MaskComparesPrefix(a, b, n, s);
    QuotientBound(a, n, s);
    QuotientBound(b, n, s);
    DivIs(a / Pow(2, s), Pow(2, n), 0, a / Pow(2, s));
    DivIs(b / Pow(2, s), Pow(2, n), 0, b / Pow(2, s));
  }

  lemma {:induction false} V4Mask(prefix: nat)
    requires 0 < prefix < 32
    ensures U32_MAX - U32_MAX / Pow(2, prefix) == Mask(prefix, 32 - prefix)
  {
    PowersOfTwo();
    hide Pow, Mask;
    var p, q := Pow(2, prefix), Pow(2, 32 - prefix);
    Pow2Add(prefix, 32 - prefix);
    assert p * (q - 1) == p * q - p;
    DivIs(U32_MAX, p, q - 1, p - 1);
    MaskValue(prefix, 32 - prefix);
  }

  lemma V6Mask(take: nat)
    requires 0 < take <= 8
    ensures OctetMask(take) == Mask(take, 8 - take)
  {
    PowersOfTwo();
    MaskValue(take, 8 - take);
    hide Pow, Mask;
    if take < 8 {
      var p := Pow(2, 8 - take);
      assert p == 2 || p == 4 || p == 8 || p == 16 || p == 32 || p == 64 || p == 128;
      DivIs(0xff * p, 256, p - 1, 256 - p);
    }
  }

  lemma InRangeV4IsSamePrefix(a: seq<Byte>, b: seq<Byte>, prefix: Prefix)
    requires |a| == |b| == 4
    ensures InRangeV4(a, b, prefix) <==> SamePrefix(a, b, prefix)
  {
    WordBits(a);
    WordBits(b);
    PowersOfTwo();
    hide Bits, BitsOfBytes, Pow, BigEndian, And;
    if prefix > 0 {
      var n := if prefix <= 32 then prefix as int else 32;
      if n == 32 {
        FullMask();
      } else {
        V4Mask(n);
      }
      MaskIsShift(BigEndian(a), BigEndian(b), n, 32 - n);
      ShiftComparesPrefix(BigEndian(a), BigEndian(b), n, 32 - n);
    }
  }

  lemma FullMask()
    ensures Mask(32, 0) == U32_MAX
  {
    hide Mask, Pow;
    PowersOfTwo();
    MaskValue(32, 0);
  }

  /** One octet under its mask: the first `take` bits. */
  lemma OctetIsPrefix(x: Byte, y: Byte, take: nat)
    requires 0 < take <= 8
    ensures And(x, OctetMask(take)) == And(y, OctetMask(take)) <==> Bits(x, 8)[..take] == Bits(y, 8)[..take]
  {
    PowersOfTwo();
    hide Bits, Pow, And, OctetMask, Mask;
    V6Mask(take);
    MaskIsShift(x, y, take, 8 - take);
    ShiftComparesPrefix(x, y, take, 8 - take);
  }

  lemma {:induction false} InRangeV6IsSamePrefix(a: seq<Byte>, b: seq<Byte>, bits: int)
    requires |a| == |b|
    ensures InRangeV6(a, b, bits) <==> SamePrefix(a, b, if bits < 0 then 0 else bits)
    decreases |a|
  {
    hide Bits, And, OctetMask;
    if a != [] && bits > 0 {
      var take := if bits < 8 then bits else 8;
      OctetIsPrefix(a[0], b[0], take);
      InRangeV6IsSamePrefix(a[1..], b[1..], bits - 8);
      var n := if bits <= 8 * |a| then bits else 8 * |a|;
      HeadAndTail(Bits(a[0], 8), BitsOfBytes(a[1..]), Bits(b[0], 8), BitsOfBytes(b[1..]), n);
      if n <= 8 {
        assert BitsOfBytes(a[1..])[..0] == BitsOfBytes(b[1..])[..0];
      }
    }
  }

  lemma HeadAndTail(x: seq<bool>, xs: seq<bool>, y: seq<bool>, ys: seq<bool>, n: nat)
    requires |x| == |y| == 8 && |xs| == |ys| && n <= 8 + |xs|
    ensures (x + xs)[..n] == (y + ys)[..n] <==>
            if n <= 8 then x[..n] == y[..n] else x == y && xs[..n - 8] == ys[..n - 8]
  {
    if n <= 8 {
      assert (x + xs)[..n] == x[..n] && (y + ys)[..n] == y[..n];
    } else {
      assert (x + xs)[..n] == x + xs[..n - 8] && (y + ys)[..n] == y + ys[..n - 8];
      assert (x + xs[..n - 8])[..8] == x && (y + ys[..n - 8])[..8] == y;
      assert (x + xs[..n - 8])[8..] == xs[..n - 8] && (y + ys[..n - 8])[8..] == ys[..n - 8];
    }
  }

  // ---------- Agreement ----------

  /** The network layer's matcher is the plain reading for every prefix, and false across families. */
  lemma ContainsIsSamePrefix(base: Ip, prefix: Prefix, ip: Ip)
    requires base.Valid() && ip.Valid()
    ensures Contains(base, prefix, ip) <==> base.V4? == ip.V4? && SamePrefix(ip.octets, base.octets, prefix)
  {
    hide SamePrefix;
    if base.V4? && ip.V4? {
      InRangeV4IsSamePrefix(ip.octets, base.octets, prefix);
    } else if base.V6? && ip.V6? {
      InRangeV6IsSamePrefix(ip.octets, base.octets, prefix);
    }
  }

  /**
   The two matchers agree on every pair of addresses and every prefix but 0; at 0 the shift form traps
   in a checking build and otherwise compares whole addresses, so it agrees only when they are equal.
   */
  lemma MatchersAgreeIff(p: Profile, ip: Ip, net: Ip, prefix: Prefix)
    requires ip.Valid() && net.Valid()
    ensures IpInNet(p, ip, net, prefix) == Some(Contains(net, prefix, ip))
            <==> prefix > 0 || ip.V4? != net.V4? || (p == Release && ip == net)
  {
    ContainsIsSamePrefix(net, prefix, ip);
    if ip.V4? == net.V4? {
      var width := if ip.V4? then 32 else 128;
      if prefix > 0 {
        ShiftMatchIsSamePrefix(p, ip.octets, net.octets, prefix, width);
        hide ShiftMatch, SamePrefix, Contains;
      } else {
        assert SamePrefix(ip.octets, net.octets, 0);
        WholeWord(ip.octets, net.octets);
        hide BigEndian, Contains, BitsOfBytes;
        assert width % width == 0 && Pow(2, 0) == 1;
        assert BigEndian(ip.octets) / 1 == BigEndian(ip.octets) && BigEndian(net.octets) / 1 == BigEndian(net.octets);
      }
    }
  }

  /** Where they do not: prefix 0, which should match everything, and two different addresses. */
  lemma PrefixZeroDisagrees(p: Profile)
    ensures var ip, net := V4([192, 0, 2, 1]), V4([198, 51, 100, 1]);
            Contains(net, 0, ip) && IpInNet(p, ip, net, 0) != Some(true)
  {
    var ip, net := V4([192, 0, 2, 1]), V4([198, 51, 100, 1]);
    assert ip.octets[0] != net.octets[0];
    MatchersAgreeIff(p, ip, net, 0);
    hide IpInNet;
  }

  lemma {:induction false} WholeWord(a: seq<Byte>, b: seq<Byte>)
    requires |a| == |b|
    ensures BigEndian(a) == BigEndian(b) <==> a == b
  {
    if a != [] {
      WholeWord(a[..|a| - 1], b[..|b| - 1]);
      assert a == a[..|a| - 1] + [a[|a| - 1]] && b == b[..|b| - 1] + [b[|b| - 1]];
    }
  }

  // ---------- The octet loop ----------

  method MatchOctets(a: seq<Byte>, b: seq<Byte>, prefix: Prefix) returns (r: bool)
    requires |a| == |b| == 16
    ensures r <==> SamePrefix(a, b, prefix)
  {
    InRangeV6IsSamePrefix(a, b, prefix);
    hide SamePrefix, OctetMask, And;
    var bits: int := prefix;
    for i := 0 to 16
      invariant InRangeV6(a, b, prefix) == InRangeV6(a[i..], b[i..], bits)
    {
      if bits <= 0 {
        break;
      }
      var take := if bits < 8 then bits else 8;
      var mask := OctetMask(take);
      assert a[i..][1..] == a[i + 1..] && b[i..][1..] == b[i + 1..];
      if And(a[i], mask) != And(b[i], mask) {
        return false;
      }
      bits := bits - 8;
    }
    return true;
  }
}
