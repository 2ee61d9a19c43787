/** What the reader takes for text: exactly the encodings of Unicode scalar values, in the shortest form. */
module Utf8 {
  import opened MessagePack
  import opened Wrappers

  /** A code point that is not a surrogate. */
  type Scalar = c: int | 0 <= c < 0x11_0000 && !(0xd800 <= c < 0xe000)

  function EncodeScalar(c: Scalar): (bs: seq<Byte>)
    ensures 1 <= |bs| <= 4
  {
    if c < 0x80 then [c]
    else if c < 0x800 then [0xc0 + c / 64, 0x80 + c % 64]
    else if c < 0x1_0000 then [0xe0 + c / 4096, 0x80 + c / 64 % 64, 0x80 + c % 64]
    else [0xf0 + c / 262144, 0x80 + c / 4096 % 64, 0x80 + c / 64 % 64, 0x80 + c % 64]
  }

  function EncodeScalars(cs: seq<Scalar>): Text {
    if cs == [] then [] else EncodeScalar(cs[0]) + EncodeScalars(cs[1..])
  }

  lemma ScalarWidth(c: Scalar, rest: Text)
    ensures Utf8Width(EncodeScalar(c) + rest) == |EncodeScalar(c)|
  {
    var e := EncodeScalar(c);
    var t := e + rest;
    assert forall k :: 0 <= k < |e| ==> t[k] == e[k];
  }

  /** The scalar a well-formed text starts with. */
  lemma FirstScalar(t: Text) returns (c: Scalar)
    requires Utf8Width(t) > 0
    ensures t == EncodeScalar(c) + t[Utf8Width(t)..] && |EncodeScalar(c)| == Utf8Width(t)
  {
    var w := Utf8Width(t);
    if w == 1 {
      c := t[0];
    } else if w == 2 {
      c := TwoBytes(t[0], t[1]);
    } else if w == 3 {
      c := ThreeBytes(t[0], t[1], t[2]);
    } else {
      c := FourBytes(t[0], t[1], t[2], t[3]);
    }
    assert EncodeScalar(c) == t[..w];
  }

  lemma TwoBytes(x: Byte, y: Byte) returns (c: Scalar)
    requires 0xc2 <= x <= 0xdf && IsTail(y)
    ensures EncodeScalar(c) == [x, y]
  {
    var a: int, b: int := x - 0xc0, y - 0x80;
    c := 64 * a + b;
  }

  lemma ThreeBytes(x: Byte, y: Byte, z: Byte) returns (c: Scalar)
    requires IsTail(z)
    requires if x == 0xe0 then 0xa0 <= y <= 0xbf else if x == 0xed then 0x80 <= y <= 0x9f else 0xe1 <= x <= 0xef && IsTail(y)
    ensures EncodeScalar(c) == [x, y, z]
  {
    var a: int, b: int, d: int := x - 0xe0, y - 0x80, z - 0x80;
    var n := 4096 * a + 64 * b + d;
    assert n / 4096 == a && n / 64 == 64 * a + b && n % 64 == d;
    assert (64 * a + b) % 64 == b;
    c := n;
  }

  lemma FourBytes(x: Byte, y: Byte, z: Byte, v: Byte) returns (c: Scalar)
    requires IsTail(z) && IsTail(v)
    requires if x == 0xf0 then 0x90 <= y <= 0xbf else if x == 0xf4 then 0x80 <= y <= 0x8f else 0xf1 <= x <= 0xf3 && IsTail(y)
    ensures EncodeScalar(c) == [x, y, z, v]
  {
    var a: int, b: int, d: int, e: int := x - 0xf0, y - 0x80, z - 0x80, v - 0x80;
    var n := 262144 * a + 4096 * b + 64 * d + e;
    assert n / 262144 == a && n / 4096 == 64 * a + b && n / 64 == 64 * (64 * a + b) + d && n % 64 == e;
    assert (64 * a + b) % 64 == b && (64 * (64 * a + b) + d) % 64 == d;
    c := n;
  }

  lemma {:induction false} EncodedIsValid(cs: seq<Scalar>)
    ensures ValidUtf8(EncodeScalars(cs))
  {
    if cs != [] {
      var rest := EncodeScalars(cs[1..]);
      ScalarWidth(cs[0], rest);
      EncodedIsValid(cs[1..]);
      assert (EncodeScalar(cs[0]) + rest)[|EncodeScalar(cs[0])|..] == rest;
    }
  }

  lemma {:induction false} ValidIsEncoded(t: Text) returns (cs: seq<Scalar>)
    requires ValidUtf8(t)
    ensures EncodeScalars(cs) == t
    decreases |t|
  {
    if t == [] {
      cs := [];
    } else {
      var c := FirstScalar(t);
      var rest := ValidIsEncoded(t[Utf8Width(t)..]);
      cs := [c] + rest;
      assert cs[1..] == rest;
    }
  }

  /** Text is valid exactly when it encodes some sequence of scalar values. */
  lemma ValidIff(t: Text)
    ensures ValidUtf8(t) <==> exists cs :: EncodeScalars(cs) == t
  {
    if ValidUtf8(t) {
      var cs := ValidIsEncoded(t);
    }
    if cs :| EncodeScalars(cs) == t {
      EncodedIsValid(cs);
    }
  }

  /** A double is finite exactly when its eleven exponent bits are not all ones. */
  lemma FiniteIff(bits: seq<Byte>)
    ensures IsFinite(bits) <==> |bits| == 8 && (bits[0] as int) % 128 * 16 + bits[1] as int / 16 != 2047
  {
  }
}
