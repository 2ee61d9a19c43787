/**
 Base32 text for authenticator secrets (section 6 of RFC 4648, without padding).

 Both directions are specified on the stream of bits: the encoder groups it by five and fills
 the last group with zeros, the decoder groups it by eight and drops what is left over.
 */
module Base32 {
  import opened Arithmetic
  import opened BitStrings
  import opened Wrappers

  type Group = g: int | 0 <= g < 32

  const U32: nat := 0x1_0000_0000

  // ---------- Bits, most significant first ----------

  function Zeros(n: nat): (bs: seq<bool>)
    ensures |bs| == n
  {
    seq(n, _ => false)
  }

  function BitsOfGroups(groups: seq<Group>): (bs: seq<bool>)
    ensures |bs| == 5 * |groups|
  {
    if groups == [] then [] else Bits(groups[0], 5) + BitsOfGroups(groups[1..])
  }

  /** Cut into groups of five, the last one filled with zeros. */
  function ToGroups(bs: seq<bool>): seq<Group> {
    if bs == [] then []
    else if |bs| < 5 then PaddedBound(bs); [Value(bs + Zeros(5 - |bs|))]
    else GroupBound(bs[..5]); [Value(bs[..5])] + ToGroups(bs[5..])
  }

  /** Cut into bytes, dropping an incomplete last one. */
  function ToBytes(bs: seq<bool>): seq<Byte> {
    if |bs| < 8 then [] else ByteBound(bs[..8]); [Value(bs[..8])] + ToBytes(bs[8..])
  }

  lemma GroupBound(bs: seq<bool>)
    requires |bs| == 5
    ensures Value(bs) < 32
  {
    ValueBound(bs);
    assert Pow(2, 1) == 2 && Pow(2, 2) == 4 && Pow(2, 3) == 8 && Pow(2, 4) == 16 && Pow(2, 5) == 32;
  }

  lemma {:induction false} PaddedBound(bs: seq<bool>)
    requires |bs| < 5
    ensures Value(bs + Zeros(5 - |bs|)) < 32
  {
    GroupBound(bs + Zeros(5 - |bs|));
  }

  lemma ByteBound(bs: seq<bool>)
    requires |bs| == 8
    ensures Value(bs) < 256
  {
    ValueBound(bs);
    assert Pow(2, 1) == 2 && Pow(2, 2) == 4 && Pow(2, 3) == 8 && Pow(2, 4) == 16 && Pow(2, 5) == 32;
    assert Pow(2, 6) == 64 && Pow(2, 7) == 128 && Pow(2, 8) == 256;
  }

  // ---------- Round trip on bits ----------

  /** Zero bits the last group of `n` bits takes. */
  function Fill(n: nat): (f: nat)
    ensures f < 5
  {
    (5 - n % 5) % 5
  }

  /** Regrouping by five only appends fewer than five zero bits. */
  lemma {:induction false} GroupsKeepBits(bs: seq<bool>)
    ensures BitsOfGroups(ToGroups(bs)) == bs + Zeros(Fill(|bs|))
  {
    if |bs| < 5 {
      LastGroup(bs);
    } else {
      hide Value, Bits, BitsOfGroups, Fill, Zeros;
      var head, tail := bs[..5], bs[5..];
      GroupBound(head);
      BitsOfValue(head);
      GroupsKeepBits(tail);
      FirstGroup(Value(head), ToGroups(tail));
      FillStep(|bs|);
      var zeros := Zeros(Fill(|bs|));
      assert ToGroups(bs) == [Value(head)] + ToGroups(tail);
      assert head + (tail + zeros) == bs + zeros;
    }
  }

  lemma {:induction false} LastGroup(bs: seq<bool>)
    requires |bs| < 5
    ensures BitsOfGroups(ToGroups(bs)) == bs + Zeros(Fill(|bs|))
  {
    hide Value, Bits, BitsOfGroups, Zeros, Fill, ToGroups;
    if bs == [] {
      NoGroups();
      FillIs(0, 0, 0);
      assert bs + Zeros(Fill(0)) == [];
    } else {
      FillIs(|bs|, 5 - |bs|, 1);
      ShortGroups(bs);
      var full := bs + Zeros(5 - |bs|);
      PaddedBound(bs);
      BitsOfValue(full);
      OneGroup(Value(full));
    }
  }

  lemma FillIs(n: nat, f: nat, k: nat)
    requires f < 5 && n + f == 5 * k
    ensures Fill(n) == f
  {
  }

  lemma {:induction false} ShortGroups(bs: seq<bool>)
    requires 0 < |bs| < 5
    ensures Value(bs + Zeros(5 - |bs|)) < 32
    ensures ToGroups(bs) == [Value(bs + Zeros(5 - |bs|))]
  {
    hide Value, Zeros;
    PaddedBound(bs);
  }

  lemma NoGroups()
    ensures ToGroups([]) == [] && BitsOfGroups([]) == []
  {
  }

  lemma FillStep(n: nat)
    requires n >= 5
    ensures Fill(n) == Fill(n - 5)
  {
  }

  lemma FirstGroup(g: Group, gs: seq<Group>)
    ensures BitsOfGroups([g] + gs) == Bits(g, 5) + BitsOfGroups(gs)
  {
    assert ([g] + gs)[1..] == gs;
  }

  lemma OneGroup(g: Group)
    ensures BitsOfGroups([g]) == Bits(g, 5)
  {
    assert [g][1..] == [];
  }

  /** Cutting the bits of some bytes, with a short tail, gives the bytes back. */
  lemma {:induction false} BytesBack(bytes: seq<Byte>, tail: seq<bool>)
    requires |tail| < 8
    ensures ToBytes(BitsOfBytes(bytes) + tail) == bytes
  {
    hide Bits, Value;
    if bytes == [] {
      assert BitsOfBytes(bytes) + tail == tail;
    } else {
      var bs := BitsOfBytes(bytes) + tail;
      assert bs[..8] == Bits(bytes[0], 8);
      assert bs[8..] == BitsOfBytes(bytes[1..]) + tail;
      ByteBack(bytes[0]);
      BytesBack(bytes[1..], tail);
      assert ToBytes(bs) == [bytes[0]] + bytes[1..];
    }
  }

  lemma ByteBack(b: Byte)
    ensures Value(Bits(b, 8)) == b
  {
    assert Pow(2, 1) == 2 && Pow(2, 2) == 4 && Pow(2, 3) == 8 && Pow(2, 4) == 16 && Pow(2, 5) == 32;
    assert Pow(2, 6) == 64 && Pow(2, 7) == 128 && Pow(2, 8) == 256;
    hide Pow;
    ValueOfBits(b, 8);
  }

  // ---------- The alphabet ----------

  const ALPHABET: string := "ABCDEFGHIJKLMNOPQRSTUVWXYZ234567"

  function GroupChar(g: Group): char {
    ALPHABET[g]
  }

  /** Position in the alphabet, if any. */
  function CharGroup(c: char): (r: Option<Group>)
    ensures r.Some? ==> GroupChar(r.value) == c
  {
    if 'A' <= c <= 'Z' then Some((c - 'A') as int)
    else if '2' <= c <= '7' then Some((c - '2') as int + 26)
    else None
  }

  lemma CharGroupBack(g: Group)
    ensures CharGroup(GroupChar(g)) == Some(g)
  {
    AlphabetAt(g);
    hide GroupChar;
  }

  /** The letters in order, then the digits from 2 on. */
  lemma AlphabetAt(g: Group)
    ensures GroupChar(g) == if g < 26 then 'A' + g as char else '2' + (g - 26) as char
  {
    if g < 13 {
      FirstLetters(g);
    } else if g < 26 {
      LastLetters(g);
    }
  }

  lemma FirstLetters(g: Group)
    requires g < 13
    ensures GroupChar(g) == 'A' + g as char
  {
  }

  lemma LastLetters(g: Group)
    requires 13 <= g < 26
    ensures GroupChar(g) == 'A' + g as char
  {
  }

  function AsciiUpper(c: char): char {
    if 'a' <= c <= 'z' then c - 'a' + 'A' else c
  }

  /** The characters with the Unicode White_Space property. */
  predicate IsWhitespace(c: char) {
    var n := c as int;
    9 <= n <= 13 || n == 32 || n == 0x85 || n == 0xa0 || n == 0x1680 || 0x2000 <= n <= 0x200a
    || n == 0x2028 || n == 0x2029 || n == 0x202f || n == 0x205f || n == 0x3000
  }

  predicate IsIgnored(c: char) {
    IsWhitespace(c) || c == '='
  }

  // ---------- Text ----------

  function ToText(groups: seq<Group>): (t: string)
    ensures |t| == |groups|
  {
    if groups == [] then [] else [GroupChar(groups[0])] + ToText(groups[1..])
  }

  /** The groups a text stands for, or nothing if some character is foreign. */
  function FromText(t: string): Option<seq<Group>> {
    if t == [] then Some([])
    else if IsIgnored(t[0]) then FromText(t[1..])
    else
      match CharGroup(AsciiUpper(t[0]))
      case None => None
      case Some(g) =>
        match FromText(t[1..])
        case None => None
        case Some(gs) => Some([g] + gs)
  }

  lemma {:induction false} FromTextBack(groups: seq<Group>)
    ensures FromText(ToText(groups)) == Some(groups)
  {
    if groups != [] {
      var c := GroupChar(groups[0]);
      AlphabetIsPlain(groups[0]);
      CharGroupBack(groups[0]);
      FromTextBack(groups[1..]);
      assert ToText(groups)[1..] == ToText(groups[1..]);
      assert groups == [groups[0]] + groups[1..];
    }
  }

  lemma AlphabetIsPlain(g: Group)
    ensures !IsIgnored(GroupChar(g)) && AsciiUpper(GroupChar(g)) == GroupChar(g)
  {
  }

  function Encode(bytes: seq<Byte>): string {
    ToText(ToGroups(BitsOfBytes(bytes)))
  }

  function Decode(t: string): Option<seq<Byte>> {
    match FromText(t)
    case None => None
    case Some(gs) => Some(ToBytes(BitsOfGroups(gs)))
  }

  /** Decoding an encoded byte sequence returns it, whatever its length. */
  lemma RoundTrip(bytes: seq<Byte>)
    ensures Decode(Encode(bytes)) == Some(bytes)
  {
    var bs := BitsOfBytes(bytes);
    FromTextBack(ToGroups(bs));
    GroupsKeepBits(bs);
    BytesBack(bytes, Zeros(Fill(|bs|)));
  }

  // ---------- What decoding does not mind ----------

  /** The code points with the Unicode White_Space property. */
  const WHITE_SPACE: set<int> :=
    {9, 10, 11, 12, 13, 32, 0x85, 0xa0, 0x1680, 0x2000, 0x2001, 0x2002, 0x2003, 0x2004, 0x2005, 0x2006, 0x2007, 0x2008,
     0x2009, 0x200a, 0x2028, 0x2029, 0x202f, 0x205f, 0x3000}

  /** White space and padding may stand anywhere. */
  predicate IsFiller(c: char) {
    c as int in WHITE_SPACE || c == '='
  }

  predicate IsSymbol(c: char) {
    'A' <= c <= 'Z' || 'a' <= c <= 'z' || '2' <= c <= '7'
  }

  lemma FillerIsIgnored(c: char)
    ensures IsFiller(c) <==> IsIgnored(c)
  {
  }

  lemma {:induction false} FillerDropsOut(t: string, c: char, u: string)
    requires IsFiller(c)
    ensures FromText(t + [c] + u) == FromText(t + u)
  {
    FillerIsIgnored(c);
    if t == [] {
      assert ([] + [c] + u)[1..] == u && [] + u == u && ([] + [c] + u)[0] == c;
    } else {
      assert (t + [c] + u)[1..] == t[1..] + [c] + u && (t + u)[1..] == t[1..] + u;
      FillerDropsOut(t[1..], c, u);
    }
  }

  /** Spaces, line breaks and padding anywhere leave the decoded bytes alone. */
  lemma FillerIsHarmless(t: string, c: char, u: string)
    requires IsFiller(c)
    ensures Decode(t + [c] + u) == Decode(t + u)
  {
    hide FromText;
    FillerDropsOut(t, c, u);
  }

  lemma {:induction false} CaseDropsOut(t: string, i: nat)
    requires i < |t| && 'a' <= t[i] <= 'z'
    ensures FromText(t[i := t[i] - 'a' + 'A']) == FromText(t)
  {
    var u := t[i := t[i] - 'a' + 'A'];
    if i == 0 {
      assert u[1..] == t[1..];
    } else {
      assert u[1..] == t[1..][i - 1 := t[1..][i - 1] - 'a' + 'A'] && u[0] == t[0];
      CaseDropsOut(t[1..], i - 1);
    }
  }

  /** So does the case of a letter. */
  lemma CaseIsHarmless(t: string, i: nat)
    requires i < |t| && 'a' <= t[i] <= 'z'
    ensures Decode(t[i := t[i] - 'a' + 'A']) == Decode(t)
  {
    hide FromText;
    CaseDropsOut(t, i);
  }

  lemma {:induction false} ReadsIff(t: string)
    ensures FromText(t).Some? <==> forall i :: 0 <= i < |t| ==> IsFiller(t[i]) || IsSymbol(t[i])
  {
    if t != [] {
      FillerIsIgnored(t[0]);
      ReadsIff(t[1..]);
      assert t == [t[0]] + t[1..];
      assert forall i :: 0 < i < |t| ==> t[i] == t[1..][i - 1];
      assert forall i :: 0 <= i < |t[1..]| ==> t[1..][i] == t[i + 1];
    }
  }

  /** A text decodes exactly when it holds nothing but letters, the digits 2 to 7, white space and padding. */
  lemma DecodesIff(t: string)
    ensures Decode(t).Some? <==> forall i :: 0 <= i < |t| ==> IsFiller(t[i]) || IsSymbol(t[i])
  {
    hide FromText;
    ReadsIff(t);
  }

  /** A known value: the byte "f", from the test vectors of section 10 of RFC 4648. */
  lemma KnownText()
    ensures Encode([102]) == "MY"
  {
    var f, t := false, true;
    var gs: seq<Group> := [12] + [24];
    KnownBits();
    FirstGroup(12, [24]);
    OneGroup(24);
    assert [102][1..] == [] && BitsOfBytes([102]) == Bits(102, 8) + BitsOfBytes([]) && BitsOfBytes([]) == [];
    hide Bits, BitsOfGroups, BitsOfBytes, Encode;
    assert Zeros(2) == [f, f];
    assert BitsOfGroups(gs) == BitsOfBytes([102]) + Zeros(2);
    EncodingIs([102], gs, 2);
    LettersMY();
    hide ToText;
  }

  lemma LettersMY()
    ensures ToText([12] + [24]) == "MY"
  {
    assert ([12] + [24])[1..] == [24] && [24][1..] == [];
    assert GroupChar(12) == 'M' && GroupChar(24) == 'Y';
    assert ToText([24]) == ['Y'] + [];
  }

  lemma KnownBits()
    ensures Bits(102, 8) == [false, true, true, false, false, true, true, false]
    ensures Bits(12, 5) == [false, true, true, false, false] && Bits(24, 5) == [true, true, false, false, false]
  {
    assert Bits(0, 0) == [] && Bits(0, 1) == [false] && Bits(1, 2) == [false, true] && Bits(3, 3) == [false, true, true];
    assert Bits(6, 4) == [false, true, true, false] && Bits(12, 5) == [false, true, true, false, false];
    assert Bits(25, 6) == [false, true, true, false, false, true];
    assert Bits(51, 7) == [false, true, true, false, false, true, true];
    assert Bits(1, 1) == [true] && Bits(3, 2) == [true, true] && Bits(6, 3) == [true, true, false];
    assert Bits(12, 4) == [true, true, false, false];
  }

  /** The bits a decode drops at the end. */
  function Leftover(gs: seq<Group>): seq<bool> {
    BitsOfGroups(gs)[|BitsOfGroups(gs)| / 8 * 8..]
  }

  /**
   The other way round: a plain text is what encoding its decoding gives exactly when the bits
   that decoding drops are zeros and fewer than a whole group.
   */
  lemma CanonicalIff(gs: seq<Group>)
    ensures Decode(ToText(gs)).Some?
    ensures Encode(Decode(ToText(gs)).value) == ToText(gs)
            <==> |Leftover(gs)| < 5 && Leftover(gs) == Zeros(|Leftover(gs)|)
  {
    hide Leftover, ToGroups, BitsOfBytes, ToBytes, ToText, FromText, BitsOfGroups;
    FromTextBack(gs);
    var gs' := ToGroups(BitsOfBytes(ToBytes(BitsOfGroups(gs))));
    FromTextBack(gs');
    CanonicalGroupsIff(gs);
  }

  lemma CanonicalGroupsIff(gs: seq<Group>)
    ensures ToGroups(BitsOfBytes(ToBytes(BitsOfGroups(gs)))) == gs
            <==> |Leftover(gs)| < 5 && Leftover(gs) == Zeros(|Leftover(gs)|)
  {
    hide ToGroups, BitsOfBytes, ToBytes, BitsOfGroups, Leftover, Fill;
    var bs, rest := BitsOfGroups(gs), Leftover(gs);
    var whole := BitsOfBytes(ToBytes(bs));
    LeftoverSplits(gs);
    GroupsKeepBits(whole);
    var gs', fill := ToGroups(whole), Zeros(Fill(|whole|));
    if gs' == gs {
      assert rest == (whole + rest)[|whole|..] == (whole + fill)[|whole|..] == fill;
    }
    if |rest| < 5 && rest == Zeros(|rest|) {
      assert |whole| + |rest| == 5 * |gs|;
      FillIs(|whole|, |rest|, |gs|);
      GroupsFromBits(gs, gs');
    }
  }

  lemma LeftoverSplits(gs: seq<Group>)
    ensures BitsOfGroups(gs) == BitsOfBytes(ToBytes(BitsOfGroups(gs))) + Leftover(gs)
  {
    BytesKeepBits(BitsOfGroups(gs));
  }

  lemma {:induction false} BytesKeepBits(bs: seq<bool>)
    ensures BitsOfBytes(ToBytes(bs)) == bs[..|bs| / 8 * 8]
  {
    hide Value, Bits;
    if |bs| >= 8 {
      ByteBound(bs[..8]);
      BitsOfValue(bs[..8]);
      BytesKeepBits(bs[8..]);
      var rest := ToBytes(bs[8..]);
      assert ([Value(bs[..8])] + rest)[1..] == rest;
      assert bs[..|bs| / 8 * 8] == bs[..8] + bs[8..][..|bs[8..]| / 8 * 8];
    }
  }

  lemma {:induction false} GroupsFromBits(xs: seq<Group>, ys: seq<Group>)
    requires BitsOfGroups(xs) == BitsOfGroups(ys)
    ensures xs == ys
  {
    if xs != [] {
      assert |ys| == |xs|;
      assert BitsOfGroups(xs)[..5] == Bits(xs[0], 5) && BitsOfGroups(xs)[5..] == BitsOfGroups(xs[1..]);
      assert BitsOfGroups(ys)[..5] == Bits(ys[0], 5) && BitsOfGroups(ys)[5..] == BitsOfGroups(ys[1..]);
      assert Pow(2, 1) == 2 && Pow(2, 2) == 4 && Pow(2, 3) == 8 && Pow(2, 4) == 16 && Pow(2, 5) == 32;
      ValueOfBits(xs[0], 5);
      ValueOfBits(ys[0], 5);
      GroupsFromBits(xs[1..], ys[1..]);
      assert xs == [xs[0]] + xs[1..] && ys == [ys[0]] + ys[1..];
    }
  }

  // ---------- Shifts of the 32-bit buffer ----------

  /** Shifting `w` bits into the buffer: the pending bits grow by them, whatever falls off the top. */
  lemma ShiftIn(buffer: nat, pending: nat, x: nat, w: nat, p: nat)
    requires (w == 8 && p == 256) || (w == 5 && p == 32)
    requires x < p && pending + w <= 32
    ensures Bits(buffer * p % U32 + x, pending + w) == Bits(buffer, pending) + Bits(x, w)
  {
    hide Bits, Pow;
    PowersOfTwo();
    var v := buffer * p + x;
    ShiftOr(buffer, x, w, p);
    BitsTruncate(v, 32, pending + w);
    BitsSplit(v, pending, w);
    DivIs(v, p, buffer, x);
    BitsTruncate(v, w, w);
  }

  lemma ShiftOr(buffer: nat, x: nat, w: nat, p: nat)
    requires (w == 8 && p == 256) || (w == 5 && p == 32)
    requires x < p
    ensures buffer * p % U32 + x == (buffer * p + x) % U32
  {
  }

  /** Taking `w` bits out above the lowest `pending`. */
  lemma ShiftOut(buffer: nat, pending: nat, w: nat)
    ensures Bits(buffer, pending + w) == Bits(buffer / Pow(2, pending) % Pow(2, w), w) + Bits(buffer, pending)
  {
    hide Bits, Pow;
    BitsSplit(buffer, w, pending);
    BitsTruncate(buffer / Pow(2, pending), w, w);
    assert w + pending == pending + w;
  }

  /** The last group: the pending bits moved up, zeros below. */
  lemma {:induction false} ShiftUp(buffer: nat, pending: nat)
    requires pending < 5
    ensures Bits(buffer * Pow(2, 5 - pending) % U32 % 32, 5) == Bits(buffer, pending) + Zeros(5 - pending)
  {
    hide Bits, Pow, Zeros;
    PowersOfTwo();
    var k := 5 - pending;
    var v := buffer * Pow(2, k);
    BitsTruncate(v % U32, 5, 5);
    BitsTruncate(v, 32, 5);
    BitsSplit(v, pending, k);
    Scaled(buffer, Pow(2, k));
    BitsTruncate(v, k, k);
    ZeroBits(k);
    assert 5 == pending + k;
  }

  lemma {:induction false} ZeroBits(n: nat)
    ensures Bits(0, n) == Zeros(n)
  {
    if n > 0 {
      ZeroBits(n - 1);
      assert 0 / 2 == 0 && 0 % 2 == 0;
    }
  }

  // ---------- The loops ----------

  lemma {:induction false} GroupBitsAppend(gs: seq<Group>, g: Group)
    ensures BitsOfGroups(gs + [g]) == BitsOfGroups(gs) + Bits(g, 5)
    ensures ToText(gs + [g]) == ToText(gs) + [GroupChar(g)]
  {
    hide Bits, GroupChar;
    if gs == [] {
      OneGroup(g);
      assert [] + [g] == [g] && [g][1..] == [];
    } else {
      assert (gs + [g])[1..] == gs[1..] + [g];
      GroupBitsAppend(gs[1..], g);
      Regroup(Bits(gs[0], 5), BitsOfGroups(gs[1..]), Bits(g, 5));
    }
  }

  /** The output so far and the pending bits are what was read: `out` spells the groups of `gs`. */
  ghost predicate EncodeInv(read: seq<Byte>, gs: seq<Group>, out: string, buffer: nat, pending: nat) {
    out == ToText(gs) && BitsOfBytes(read) == BitsOfGroups(gs) + Bits(buffer, pending)
  }

  lemma TakeByte(read: seq<Byte>, gs: seq<Group>, out: string, buffer: nat, pending: nat, b: Byte)
    requires EncodeInv(read, gs, out, buffer, pending) && pending < 5
    ensures EncodeInv(read + [b], gs, out, buffer * 256 % U32 + b, pending + 8)
  {
    hide Bits, BitsOfBytes, BitsOfGroups, Pow;
    PowersOfTwo();
    ShiftIn(buffer, pending, b, 8, 256);
    ByteBitsAppend(read, b);
    assert BitsOfGroups(gs) + (Bits(buffer, pending) + Bits(b, 8)) == BitsOfGroups(gs) + Bits(buffer, pending) + Bits(b, 8);
  }

  lemma PutGroup(read: seq<Byte>, gs: seq<Group>, out: string, buffer: nat, pending: nat)
    requires EncodeInv(read, gs, out, buffer, pending + 5)
    ensures var g := buffer / Pow(2, pending) % 32;
            EncodeInv(read, gs + [g], out + [GroupChar(g)], buffer, pending)
  {
    hide Bits, BitsOfBytes, BitsOfGroups, Pow;
    PowersOfTwo();
    var g := buffer / Pow(2, pending) % 32;
    ShiftOut(buffer, pending, 5);
    GroupBitsAppend(gs, g);
    assert BitsOfGroups(gs) + (Bits(g, 5) + Bits(buffer, pending)) == BitsOfGroups(gs) + Bits(g, 5) + Bits(buffer, pending);
  }

  /** Groups whose bits are the input's, filled up with zeros, are the encoding. */
  lemma EncodingIs(bytes: seq<Byte>, gs: seq<Group>, f: nat)
    requires f < 5 && BitsOfGroups(gs) == BitsOfBytes(bytes) + Zeros(f)
    ensures ToText(gs) == Encode(bytes)
  {
    hide BitsOfBytes, BitsOfGroups, ToGroups, Fill, Zeros;
    var bs := BitsOfBytes(bytes);
    GroupsKeepBits(bs);
    assert |bs + Zeros(f)| == |bs| + f;
    FillIs(|bs|, f, |gs|);
    GroupsFromBits(gs, ToGroups(bs));
  }

  lemma EncodeEnd(bytes: seq<Byte>, gs: seq<Group>, out: string, buffer: nat, pending: nat)
    requires EncodeInv(bytes, gs, out, buffer, pending) && pending < 5
    ensures pending == 0 ==> out == Encode(bytes)
    ensures pending > 0 ==> out + [GroupChar(buffer * Pow(2, 5 - pending) % U32 % 32)] == Encode(bytes)
  {
    hide Bits, BitsOfBytes, BitsOfGroups, Pow, Encode, GroupChar, Zeros;
    if pending == 0 {
      assert BitsOfBytes(bytes) + Zeros(0) == BitsOfGroups(gs);
      EncodingIs(bytes, gs, 0);
    } else {
      var g := buffer * Pow(2, 5 - pending) % U32 % 32;
      ShiftUp(buffer, pending);
      GroupBitsAppend(gs, g);
      Regroup(BitsOfGroups(gs), Bits(buffer, pending), Zeros(5 - pending));
      EncodingIs(bytes, gs + [g], 5 - pending);
    }
  }

  method EncodeBytes(bytes: seq<Byte>) returns (out: string)
    ensures out == Encode(bytes)
  {
    hide EncodeInv, Encode, BitsOfBytes, ToGroups;
    out := "";
    var buffer: nat, bits: nat := 0, 0;
    ghost var gs: seq<Group> := [];
    EncodeStart();
    for k := 0 to |bytes|
      invariant bits < 5
      invariant EncodeInv(bytes[..k], gs, out, buffer, bits)
    {
      TakeByte(bytes[..k], gs, out, buffer, bits, bytes[k]);
      assert bytes[..k + 1] == bytes[..k] + [bytes[k]];
      buffer := buffer * 256 % U32 + bytes[k];
      bits := bits + 8;
      while bits >= 5
        invariant EncodeInv(bytes[..k + 1], gs, out, buffer, bits)
      {
        bits := bits - 5;
        PutGroup(bytes[..k + 1], gs, out, buffer, bits);
        var g: Group := buffer / Pow(2, bits) % 32;
        out := out + [ALPHABET[g]];
        gs := gs + [g];
      }
    }
    assert bytes[..|bytes|] == bytes;
    EncodeEnd(bytes, gs, out, buffer, bits);
    if bits > 0 {
      var g: Group := buffer * Pow(2, 5 - bits) % U32 % 32;
      out := out + [ALPHABET[g]];
    }
  }

  lemma EncodeStart()
    ensures EncodeInv([], [], "", 0, 0)
  {
  }

  ghost predicate DecodeInv(gs: seq<Group>, out: seq<Byte>, buffer: nat, pending: nat) {
    BitsOfGroups(gs) == BitsOfBytes(out) + Bits(buffer, pending)
  }

  lemma TakeGroup(gs: seq<Group>, out: seq<Byte>, buffer: nat, pending: nat, g: Group)
    requires DecodeInv(gs, out, buffer, pending) && pending < 8
    ensures DecodeInv(gs + [g], out, buffer * 32 % U32 + g, pending + 5)
  {
    hide Bits, BitsOfBytes, BitsOfGroups, Pow;
    PowersOfTwo();
    ShiftIn(buffer, pending, g, 5, 32);
    GroupBitsAppend(gs, g);
    assert BitsOfBytes(out) + (Bits(buffer, pending) + Bits(g, 5)) == BitsOfBytes(out) + Bits(buffer, pending) + Bits(g, 5);
  }

  lemma PutByte(gs: seq<Group>, out: seq<Byte>, buffer: nat, pending: nat)
    requires DecodeInv(gs, out, buffer, pending + 8)
    ensures DecodeInv(gs, out + [buffer / Pow(2, pending) % 256], buffer, pending)
  {
    hide Bits, BitsOfBytes, BitsOfGroups, Pow;
    PowersOfTwo();
    var b := buffer / Pow(2, pending) % 256;
    ShiftOut(buffer, pending, 8);
    ByteBitsAppend(out, b);
    assert BitsOfBytes(out) + (Bits(b, 8) + Bits(buffer, pending)) == BitsOfBytes(out) + Bits(b, 8) + Bits(buffer, pending);
  }

  lemma DecodeEnd(t: string, gs: seq<Group>, out: seq<Byte>, buffer: nat, pending: nat)
    requires FromText(t) == Some(gs) && DecodeInv(gs, out, buffer, pending) && pending < 8
    ensures Decode(t) == Some(out)
  {
    BytesBack(out, Bits(buffer, pending));
  }

  /** Reading on from a prefix whose groups are known. */
  lemma {:induction false} FromTextAppend(t: string, c: char)
    ensures FromText(t + [c]) ==
      match FromText(t)
      case None => None
      case Some(gs) =>
        if IsIgnored(c) then Some(gs)
        else match CharGroup(AsciiUpper(c)) case None => None case Some(g) => Some(gs + [g])
  {
    hide IsIgnored, CharGroup, AsciiUpper;
    if t == [] {
      assert [] + [c] == [c] && [c][1..] == [];
      assert FromText([c][1..]) == Some([]);
      assert forall g: Group :: [g] + [] == [] + [g];
    } else {
      assert (t + [c])[1..] == t[1..] + [c];
      FromTextAppend(t[1..], c);
      if FromText(t).Some? && !IsIgnored(t[0]) && !IsIgnored(c) && CharGroup(AsciiUpper(c)).Some? {
        var g0, gs, g := CharGroup(AsciiUpper(t[0])).value, FromText(t[1..]).value, CharGroup(AsciiUpper(c)).value;
        assert [g0] + (gs + [g]) == [g0] + gs + [g];
      }
    }
  }

  lemma {:induction false} ForeignStays(t: string, k: nat)
    requires k <= |t| && FromText(t[..k]).None?
    ensures FromText(t).None?
    decreases |t| - k
  {
    if k == |t| {
      assert t[..k] == t;
    } else {
      assert t[..k + 1] == t[..k] + [t[k]];
      FromTextAppend(t[..k], t[k]);
      ForeignStays(t, k + 1);
    }
  }

  method DecodeText(t: string) returns (r: Option<seq<Byte>>)
    ensures r == Decode(t)
  {
    hide DecodeInv, IsIgnored, CharGroup, AsciiUpper, FromText, Decode;
    var out: seq<Byte> := [];
    var buffer: nat, bits: nat := 0, 0;
    ghost var gs: seq<Group> := [];
    DecodeStart();
    for k := 0 to |t|
      invariant bits < 8
      invariant FromText(t[..k]) == Some(gs)
      invariant DecodeInv(gs, out, buffer, bits)
    {
      assert t[..k + 1] == t[..k] + [t[k]];
      FromTextAppend(t[..k], t[k]);
      if !IsIgnored(t[k]) {
        var val := CharGroup(AsciiUpper(t[k]));
        if val.None? {
          ForeignStays(t, k + 1);
          ForeignMeansNone(t);
          return None;
        }
        TakeGroup(gs, out, buffer, bits, val.value);
        gs := gs + [val.value];
        buffer := buffer * 32 % U32 + val.value;
        bits := bits + 5;
        if bits >= 8 {
          bits := bits - 8;
          PutByte(gs, out, buffer, bits);
          out := out + [buffer / Pow(2, bits) % 256];
        }
      }
    }
    assert t[..|t|] == t;
    DecodeEnd(t, gs, out, buffer, bits);
    return Some(out);
  }

  lemma DecodeStart()
    ensures DecodeInv([], [], 0, 0) && FromText([]) == Some([])
  {
  }

  lemma ForeignMeansNone(t: string)
    requires FromText(t).None?
    ensures Decode(t).None?
  {
  }
}
