/** Numbers and byte strings as strings of bits, most significant first. */
module BitStrings {
  import opened Arithmetic
  import opened Wrappers

  /** The low `n` bits of `v`. */
  function Bits(v: int, n: nat): (bs: seq<bool>)
    ensures |bs| == n
    decreases n
  {
    if n == 0 then [] else Bits(v / 2, n - 1) + [v % 2 == 1]
  }

  function Value(bs: seq<bool>): nat {
    if bs == [] then 0 else 2 * Value(bs[..|bs| - 1]) + if bs[|bs| - 1] then 1 else 0
  }

  function BitsOfBytes(bytes: seq<Byte>): (bs: seq<bool>)
    ensures |bs| == 8 * |bytes|
  {
    if bytes == [] then [] else Bits(bytes[0], 8) + BitsOfBytes(bytes[1..])
  }

  /** The number some bytes spell, most significant first. */
  function BigEndian(bytes: seq<Byte>): nat {
    if bytes == [] then 0 else 256 * BigEndian(bytes[..|bytes| - 1]) + bytes[|bytes| - 1]
  }

  lemma {:induction false} ValueBound(bs: seq<bool>)
    ensures Value(bs) < Pow(2, |bs|)
  {
    if bs != [] {
      ValueBound(bs[..|bs| - 1]);
    }
  }

  lemma {:induction false} BitsOfValue(bs: seq<bool>)
    ensures Bits(Value(bs), |bs|) == bs
  {
    if bs != [] {
      var init := bs[..|bs| - 1];
      BitsOfValue(init);
      assert Value(bs) / 2 == Value(init);
      assert bs == init + [bs[|bs| - 1]];
    }
  }

  lemma {:induction false} ValueOfBits(v: nat, n: nat)
    requires v < Pow(2, n)
    ensures Value(Bits(v, n)) == v
  {
    if n > 0 {
      ValueOfBits(v / 2, n - 1);
      assert Bits(v, n)[..n - 1] == Bits(v / 2, n - 1);
    }
  }

  lemma BitsUnfold(v: int, n: nat)
    requires n > 0
    ensures Bits(v, n) == Bits(v / 2, n - 1) + [v % 2 == 1]
  {
  }

  /** The upper and lower parts of a word. */
  lemma {:induction false} BitsSplit(v: nat, a: nat, b: nat)
    ensures Bits(v, a + b) == Bits(v / Pow(2, b), a) + Bits(v, b)
  {
    hide Bits;
    if b == 0 {
      assert Pow(2, b) == 1 && v / 1 == v;
      assert Bits(v, a) + Bits(v, 0) == Bits(v, a);
    } else {
      HalfThenDivide(v, Pow(2, b - 1));
      BitsSplit(v / 2, a, b - 1);
      BitsUnfold(v, a + b);
      BitsUnfold(v, b);
      Regroup(Bits(v / Pow(2, b), a), Bits(v / 2, b - 1), [v % 2 == 1]);
    }
  }

  lemma Regroup(x: seq<bool>, y: seq<bool>, z: seq<bool>)
    ensures x + y + z == x + (y + z)
  {
  }

  /** Truncation to `k` bits keeps the bits below. */
  lemma {:induction false} BitsTruncate(v: nat, k: nat, n: nat)
    requires n <= k
    ensures Bits(v % Pow(2, k), n) == Bits(v, n)
    decreases n
  {
    if n > 0 {
      HalfThenDivide(v, Pow(2, k - 1));
      BitsTruncate(v / 2, k - 1, n - 1);
    }
  }

  lemma {:induction false} ByteBitsAppend(bytes: seq<Byte>, b: Byte)
    ensures BitsOfBytes(bytes + [b]) == BitsOfBytes(bytes) + Bits(b, 8)
  {
    hide Bits;
    if bytes == [] {
      assert [] + [b] == [b] && [b][1..] == [];
    } else {
      assert (bytes + [b])[1..] == bytes[1..] + [b];
      ByteBitsAppend(bytes[1..], b);
    }
  }
}
