/**
 Migration planning: sorted, duplicate-free migrations against the recorded history, with drift
 detection by an FNV-1a checksum over version, description and SQL.
 */
module Migrations {
  import opened Arithmetic
  import opened Wrappers

  /** Text is kept as its bytes. */
  type Octets = seq<Byte>

  datatype Migration = Migration(version: nat, description: Octets, up: Octets)

  datatype AppliedMigration = AppliedMigration(version: nat, description: Octets, checksum: string)

  datatype Report = Report(applied: seq<nat>, skipped: seq<nat>, drift: seq<nat>)

  // ---------- Checksum ----------

  /** A 64-bit hash state. */
  type Word = n: int | 0 <= n < 0x1_0000_0000_0000_0000

  const M64: nat := 0x1_0000_0000_0000_0000
  const BASIS: Word := 0xcbf2_9ce4_8422_2325
  const PRIME: nat := 0x100_0000_01b3

  /** Exclusive or, bit by bit. */
  function Xor(a: nat, b: nat): nat {
    if a == 0 && b == 0 then 0 else (a + b) % 2 + 2 * Xor(a / 2, b / 2)
  }

  lemma {:induction false} XorBound(a: nat, b: nat, n: nat)
    requires a < Pow(2, n) && b < Pow(2, n)
    ensures Xor(a, b) < Pow(2, n)
  {
    if n > 0 {
      XorBound(a / 2, b / 2, n - 1);
    }
  }

  function Mix(h: Word, b: Byte): Word {
    assert Xor(h, b) < M64 by {
      PowersOfTwo();
      assert Pow(2, 64) == M64 by { Pow2Add(32, 32); }
      XorBound(h, b, 64);
    }
    Xor(h, b)
  }

  /** Multiplication by the FNV prime, modulo 2^64. */
  function Scramble(x: Word): Word {
    x * PRIME % M64
  }

  function FeedByte(h: Word, b: Byte): Word {
    Scramble(Mix(h, b))
  }

  function Feed(h: Word, bytes: Octets): Word {
    if bytes == [] then h else FeedByte(Feed(h, bytes[..|bytes| - 1]), bytes[|bytes| - 1])
  }

  /** Decimal digits as bytes. */
  function Decimal(n: nat): Octets {
    if n < 10 then [48 + n] else Decimal(n / 10) + [48 + n % 10]
  }

  function Hash(m: Migration): Word {
    var h := Feed(BASIS, Decimal(m.version));
    var h := Feed(h, [0]);
    var h := Feed(h, m.description);
    var h := Feed(h, [0]);
    Feed(h, m.up)
  }

  function HexDigit(d: nat): char
    requires d < 16
  {
    if d < 10 then '0' + d as char else 'a' + (d - 10) as char
  }

  /** The `k` lowest hexadecimal digits of a number. */
  function Hex(n: nat, k: nat): (t: string)
    ensures |t| == k
  {
    if k == 0 then "" else Hex(n / 16, k - 1) + [HexDigit(n % 16)]
  }

  function Checksum(m: Migration): string {
    Hex(Hash(m), 16)
  }

  method FeedBytes(h: Word, bytes: Octets) returns (r: Word)
    ensures r == Feed(h, bytes)
  {
    hide FeedByte;
    r := h;
    for i := 0 to |bytes|
      invariant r == Feed(h, bytes[..i])
    {
      assert bytes[..i + 1][..i] == bytes[..i];
      r := FeedByte(r, bytes[i]);
    }
    assert bytes[..|bytes|] == bytes;
  }

  method ComputeChecksum(m: Migration) returns (t: string)
    ensures t == Checksum(m)
  {
    hide Feed, Hex, Decimal;
    var h := FeedBytes(BASIS, Decimal(m.version));
    h := FeedBytes(h, [0]);
    h := FeedBytes(h, m.description);
    h := FeedBytes(h, [0]);
    h := FeedBytes(h, m.up);
    t := Hex(h, 16);
  }

  // ---------- A changed byte changes the checksum ----------

  /** The prime is odd, so it has an inverse modulo 2^64. */
  const INVERSE: nat := 0xce96_5057_aff6_957b

  lemma UnscrambleScramble(x: Word)
    ensures Scramble(x) * INVERSE % M64 == x
  {
    var q := x * PRIME / M64;
    assert Scramble(x) == x * PRIME - M64 * q;
    var w := PRIME * INVERSE / M64;
    assert PRIME * INVERSE == M64 * w + 1;
    assert Scramble(x) * INVERSE == M64 * (w * x - q * INVERSE) + x;
    DivIs(Scramble(x) * INVERSE, M64, w * x - q * INVERSE, x);
  }

  lemma ScrambleKeepsApart(x: Word, y: Word)
    requires Scramble(x) == Scramble(y)
    ensures x == y
  {
    hide Scramble;
    UnscrambleScramble(x);
    UnscrambleScramble(y);
  }

  lemma {:induction false} XorBack(a: nat, b: nat)
    ensures Xor(Xor(a, b), b) == a && Xor(a, Xor(a, b)) == b
    decreases a + b
  {
    hide Xor;
    var x := Xor(a, b);
    XorUnfolds(a, b);
    XorUnfolds(x, b);
    XorUnfolds(a, x);
    assert x / 2 == Xor(a / 2, b / 2) && x % 2 == (a + b) % 2;
    if a != 0 || b != 0 {
      XorBack(a / 2, b / 2);
      Parity(a, b);
      assert (x + b) % 2 == a % 2 && (a + x) % 2 == b % 2;
    } else {
      XorOfZero();
    }
  }

  lemma Parity(a: nat, b: nat)
    ensures ((a + b) % 2 + b) % 2 == a % 2 && (a + (a + b) % 2) % 2 == b % 2
  {
  }

  lemma XorOfZero()
    ensures Xor(0, 0) == 0
  {
  }

  lemma XorUnfolds(a: nat, b: nat)
    ensures Xor(a, b) == (a + b) % 2 + 2 * Xor(a / 2, b / 2)
  {
  }

  lemma MixKeepsApart(h: Word, k: Word, b: Byte, c: Byte)
    ensures Mix(h, b) == Mix(k, b) ==> h == k
    ensures Mix(h, b) == Mix(h, c) ==> b == c
  {
    hide Xor;
    XorBack(h, b);
    XorBack(k, b);
    XorBack(h, c);
  }

  /** A step of the hash is one-to-one on the state for a fixed byte, and on the byte for a fixed state. */
  lemma FeedByteKeepsApart(h: Word, k: Word, b: Byte, c: Byte)
    ensures FeedByte(h, b) == FeedByte(k, b) ==> h == k
    ensures FeedByte(h, b) == FeedByte(h, c) ==> b == c
  {
    hide Scramble, Mix;
    MixKeepsApart(h, k, b, c);
    if FeedByte(h, b) == FeedByte(k, b) {
      ScrambleKeepsApart(Mix(h, b), Mix(k, b));
    }
    if FeedByte(h, b) == FeedByte(h, c) {
      ScrambleKeepsApart(Mix(h, b), Mix(h, c));
    }
  }

  lemma {:induction false} FeedKeepsStatesApart(h: Word, k: Word, bytes: Octets)
    requires Feed(h, bytes) == Feed(k, bytes)
    ensures h == k
  {
    hide FeedByte;
    if bytes != [] {
      var init, last := bytes[..|bytes| - 1], bytes[|bytes| - 1];
      FeedByteKeepsApart(Feed(h, init), Feed(k, init), last, last);
      FeedKeepsStatesApart(h, k, init);
    }
  }

  lemma {:induction false} EditChangesFeed(h: Word, bytes: Octets, i: nat, x: Byte)
    requires i < |bytes| && bytes[i] != x
    ensures Feed(h, bytes) != Feed(h, bytes[i := x])
  {
    hide FeedByte;
    var n := |bytes| - 1;
    var other := bytes[i := x];
    if i == n {
      assert other[..n] == bytes[..n];
      var k := Feed(h, bytes[..n]);
      FeedByteKeepsApart(k, k, bytes[n], x);
    } else {
      assert other[..n] == bytes[..n][i := x];
      EditChangesFeed(h, bytes[..n], i, x);
      FeedByteKeepsApart(Feed(h, bytes[..n]), Feed(h, other[..n]), bytes[n], bytes[n]);
    }
  }

  lemma HexDigitApart(a: nat, b: nat)
    requires a < 16 && b < 16 && HexDigit(a) == HexDigit(b)
    ensures a == b
  {
  }

  /** A number below 16^k is determined by its k hexadecimal digits. */
  lemma {:induction false} HexApart(m: nat, n: nat, k: nat)
    requires m < Pow(16, k) && n < Pow(16, k) && Hex(m, k) == Hex(n, k)
    ensures m == n
  {
    hide HexDigit;
    if k > 0 {
      var x, y, a, b := Hex(m / 16, k - 1), Hex(n / 16, k - 1), HexDigit(m % 16), HexDigit(n % 16);
      assert (x + [a])[..k - 1] == x && (y + [b])[..k - 1] == y && (x + [a])[k - 1] == a && (y + [b])[k - 1] == b;
      HexApart(m / 16, n / 16, k - 1);
      HexDigitApart(m % 16, n % 16);
    }
  }

  lemma ChecksumsApart(m: Migration, n: Migration)
    ensures Hash(m) != Hash(n) ==> Checksum(m) != Checksum(n)
  {
    SixteenDigits();
    hide Hash, Hex, Pow;
    if Checksum(m) == Checksum(n) {
      HexApart(Hash(m), Hash(n), 16);
    }
  }

  ghost predicate DifferAt(a: Octets, b: Octets, i: nat) {
    i < |a| == |b| && a[i] != b[i] && b == a[i := b[i]]
  }

  /** Equal but for exactly one byte. */
  ghost predicate OneByteApart(a: Octets, b: Octets) {
    exists i: nat :: DifferAt(a, b, i)
  }

  /** Two texts of a migration that differ in one byte of description or SQL. */
  ghost predicate OneByteEdit(m: Migration, n: Migration) {
    && m.version == n.version
    && if m.description == n.description then OneByteApart(m.up, n.up)
       else m.up == n.up && OneByteApart(m.description, n.description)
  }

  /** A single-byte edit always changes the hash, and so the checksum. */
  lemma EditChangesChecksum(m: Migration, n: Migration)
    requires OneByteEdit(m, n)
    ensures Checksum(m) != Checksum(n)
  {
    hide Checksum, Feed;
    var h := Feed(Feed(BASIS, Decimal(m.version)), [0]);
    var hm, hn := Feed(h, m.description), Feed(h, n.description);
    if m.description == n.description {
      var i: nat :| DifferAt(m.up, n.up, i);
      EditChangesFeed(Feed(hm, [0]), m.up, i, n.up[i]);
    } else {
      var i: nat :| DifferAt(m.description, n.description, i);
      EditChangesFeed(h, m.description, i, n.description[i]);
      FeedKeepsApart(hm, hn, [0]);
      FeedKeepsApart(Feed(hm, [0]), Feed(hn, [0]), m.up);
    }
    assert Hash(m) != Hash(n);
    ChecksumsApart(m, n);
  }

  // ---------- Values of the checksum ----------

  predicate IsHexDigit(c: char) {
    '0' <= c <= '9' || 'a' <= c <= 'f'
  }

  function DigitValue(c: char): nat {
    if '0' <= c <= '9' then (c - '0') as nat else if 'a' <= c <= 'f' then (c - 'a') as nat + 10 else 0
  }

  /** The number some hexadecimal digits spell. */
  function HexValue(t: string): nat {
    if t == [] then 0 else 16 * HexValue(t[..|t| - 1]) + DigitValue(t[|t| - 1])
  }

  lemma DigitReads(d: nat)
    requires d < 16
    ensures DigitValue(HexDigit(d)) == d && IsHexDigit(HexDigit(d))
  {
  }

  lemma ModSixteen(n: nat, p: nat)
    requires p > 0
    ensures n % (16 * p) == 16 * (n / 16 % p) + n % 16
  {
    var q, r := n / 16, n % 16;
    var t, u := q / p, q % p;
    assert n == 16 * q + r && q == p * t + u;
    assert 16 * q == 16 * (p * t) + 16 * u;
    assert 16 * (p * t) == (16 * p) * t;
    DivIs(n, 16 * p, t, 16 * u + r);
  }

  /** The checksum text is lower-case hexadecimal digits that spell the number. */
  lemma {:induction false} HexReadsBack(n: nat, k: nat)
    ensures HexValue(Hex(n, k)) == n % Pow(16, k) && forall i :: 0 <= i < k ==> IsHexDigit(Hex(n, k)[i])
  {
    if k > 0 {
      var t := Hex(n, k);
      HexReadsBack(n / 16, k - 1);
      assert t[..|t| - 1] == Hex(n / 16, k - 1) && t[|t| - 1] == HexDigit(n % 16);
      DigitReads(n % 16);
      ModSixteen(n, Pow(16, k - 1));
      hide HexDigit, DigitValue, IsHexDigit;
    }
  }

  /** Bits above those of the second number stay as they are. */
  lemma {:induction false} XorSplit(q: nat, r: nat, b: nat, n: nat)
    requires r < Pow(2, n) && b < Pow(2, n)
    ensures Xor(q * Pow(2, n) + r, b) == q * Pow(2, n) + Xor(r, b)
    decreases n
  {
    hide Xor;
    if n == 0 {
      XorZero(q);
      XorOfZero();
    } else {
      var p := Pow(2, n - 1);
      var x := q * p;
      assert q * Pow(2, n) == 2 * x;
      XorUnfolds(2 * x + r, b);
      XorUnfolds(r, b);
      Halves(x, r, b);
      XorSplit(q, r / 2, b / 2, n - 1);
    }
  }

  lemma Halves(x: nat, r: nat, b: nat)
    ensures (2 * x + r) / 2 == x + r / 2 && (2 * x + r + b) % 2 == (r + b) % 2
  {
  }

  lemma {:induction false} XorZero(a: nat)
    ensures Xor(a, 0) == a
  {
    if a > 0 {
      XorZero(a / 2);
    }
  }

  /** One step of the hash, from the low byte of the state and what the input byte makes of it. */
  lemma StepIs(h: Word, b: Byte, q: nat, low: nat, mixed: nat)
    requires low < 256 && h == q * 256 + low && Xor(low, b) == mixed < 256
    ensures FeedByte(h, b) == (q * 256 + mixed) * PRIME % M64
  {
    PowersOfTwo();
    hide Pow, Xor;
    XorSplit(q, low, b, 8);
    assert Pow(2, 8) == 256;
  }

  /** A step with a zero byte only multiplies. */
  lemma ZeroStep(h: Word)
    ensures FeedByte(h, 0) == h * PRIME % M64
  {
    XorZero(h);
  }

  lemma LowBytesMixed()
    ensures Xor(37, 97) == 68 && Xor(37, 49) == 20
  {
    hide Xor;
    XorOfZero();
    XorUnfolds(37, 97);
    XorUnfolds(18, 48);
    XorUnfolds(9, 24);
    XorUnfolds(4, 12);
    XorUnfolds(2, 6);
    XorUnfolds(1, 3);
    XorUnfolds(0, 1);
    XorUnfolds(37, 49);
    XorUnfolds(18, 24);
    XorUnfolds(9, 12);
    XorUnfolds(4, 6);
    XorUnfolds(2, 3);
    XorUnfolds(1, 1);
  }

  /** Known values of the hash: of nothing and of the text "a", from the published test values of FNV-1a. */
  lemma KnownHash()
    ensures Feed(BASIS, []) == 0xcbf2_9ce4_8422_2325
    ensures Feed(BASIS, [97]) == 0xaf63_dc4c_8601_ec8c
  {
    hide Xor, FeedByte;
    LowBytesMixed();
    StepIs(BASIS, 97, 0xcb_f29c_e484_2223, 0x25, 0x44);
    FeedOne(BASIS, 97);
  }

  /** A known hash of a migration: version 1 with nothing in it. */
  lemma KnownMigration()
    ensures Hash(Migration(1, [], [])) == 0x460b_e718_18a7_465c
  {
    hide Xor, FeedByte, Feed, Decimal;
    OneAsText();
    FirstDigit();
    FeedOne(BASIS, 49);
    ThenZeros();
    FeedOne(0xaf63_ac4c_8601_9afc, 0);
    FeedOne(0x07f8_c207_b4ba_5a34, 0);
    FeedNone();
  }

  lemma OneAsText()
    ensures Decimal(1) == [49]
  {
  }

  lemma FirstDigit()
    ensures FeedByte(BASIS, 49) == 0xaf63_ac4c_8601_9afc
  {
    hide Xor, FeedByte;
    LowBytesMixed();
    StepIs(BASIS, 49, 0xcb_f29c_e484_2223, 0x25, 0x14);
  }

  lemma ThenZeros()
    ensures FeedByte(0xaf63_ac4c_8601_9afc, 0) == 0x07f8_c207_b4ba_5a34
    ensures FeedByte(0x07f8_c207_b4ba_5a34, 0) == 0x460b_e718_18a7_465c
  {
    hide FeedByte;
    ZeroStep(0xaf63_ac4c_8601_9afc);
    ZeroStep(0x07f8_c207_b4ba_5a34);
  }

  lemma FeedNone()
    ensures forall h: Word :: Feed(h, []) == h
  {
  }

  /** Decimal digits spell the version. */
  function DecimalValue(bytes: Octets): int {
    if bytes == [] then 0 else 10 * DecimalValue(bytes[..|bytes| - 1]) + bytes[|bytes| - 1] - 48
  }

  lemma {:induction false} DecimalReads(n: nat)
    ensures DecimalValue(Decimal(n)) == n && forall i :: 0 <= i < |Decimal(n)| ==> 48 <= Decimal(n)[i] <= 57
  {
    if n < 10 {
      assert DecimalValue([48 + n]) == 10 * DecimalValue([]) + n;
    } else {
      DecimalReads(n / 10);
      var t := Decimal(n);
      assert t[..|t| - 1] == Decimal(n / 10);
    }
  }

  /** The checksum is 16 hexadecimal digits that spell the hash. */
  lemma ChecksumSpells(m: Migration)
    ensures |Checksum(m)| == 16 && HexValue(Checksum(m)) == Hash(m)
    ensures forall i :: 0 <= i < 16 ==> IsHexDigit(Checksum(m)[i])
  {
    hide Hash, Hex, HexValue, IsHexDigit;
    SixteenDigits();
    hide Pow;
    HexReadsBack(Hash(m), 16);
  }

  lemma SixteenDigits()
    ensures Pow(16, 16) == M64
  {
    assert Pow(16, 4) == 0x1_0000 && Pow(16, 8) == 0x1_0000_0000 && Pow(16, 12) == 0x1_0000_0000_0000;
  }

  lemma FeedOne(h: Word, b: Byte)
    ensures Feed(h, [b]) == FeedByte(h, b)
  {
    hide FeedByte;
    assert [b][..0] == [];
  }

  // ---------- What the checksum does not see ----------

  /** The bytes that are hashed, one after the other. */
  function Stream(m: Migration): Octets {
    Decimal(m.version) + [0] + (m.description + [0] + m.up)
  }

  lemma {:induction false} FeedAppend(h: Word, xs: Octets, ys: Octets)
    ensures Feed(h, xs + ys) == Feed(Feed(h, xs), ys)
    decreases |ys|
  {
    hide FeedByte;
    if ys == [] {
      assert xs + ys == xs;
    } else {
      assert (xs + ys)[..|xs + ys| - 1] == xs + ys[..|ys| - 1];
      FeedAppend(h, xs, ys[..|ys| - 1]);
    }
  }

  /** The checksum is a function of the stream alone. */
  lemma HashOfStream(m: Migration)
    ensures Hash(m) == Feed(BASIS, Stream(m))
  {
    hide Feed, Decimal;
    var v := Decimal(m.version);
    FeedAppend(BASIS, v + [0], m.description + [0] + m.up);
    FeedAppend(BASIS, v, [0]);
    FeedAppend(Feed(BASIS, v + [0]), m.description + [0], m.up);
    FeedAppend(Feed(BASIS, v + [0]), m.description, [0]);
  }

  lemma {:induction false} DecimalHasNoZero(n: nat)
    ensures 0 !in Decimal(n)
  {
    if n >= 10 {
      DecimalHasNoZero(n / 10);
    }
  }

  lemma {:induction false} DecimalApart(m: nat, n: nat)
    ensures Decimal(m) == Decimal(n) ==> m == n
  {
    if Decimal(m) == Decimal(n) {
      var x, y := Decimal(m), Decimal(n);
      assert x[|x| - 1] == 48 + m % 10 && y[|y| - 1] == 48 + n % 10;
      if m >= 10 && n >= 10 {
        assert x[..|x| - 1] == Decimal(m / 10) && y[..|y| - 1] == Decimal(n / 10);
        DecimalApart(m / 10, n / 10);
      } else {
        DecimalLength(m);
        DecimalLength(n);
      }
    }
  }

  lemma DecimalLength(n: nat)
    ensures |Decimal(n)| == 1 <==> n < 10
  {
    if n >= 10 {
      assert |Decimal(n / 10)| >= 1;
    }
  }

  /** The first zero byte ends the first part, whatever follows. */
  lemma CutAtZero(a: Octets, x: Octets, b: Octets, y: Octets)
    requires 0 !in a && 0 !in b && a + [0] + x == b + [0] + y
    ensures a == b && x == y
  {
    var s, t := a + [0] + x, b + [0] + y;
    assert s[|a|] == 0 && t[|b|] == 0;
    assert forall k :: 0 <= k < |a| ==> s[k] == a[k] && a[k] != 0;
    assert forall k :: 0 <= k < |b| ==> t[k] == b[k] && b[k] != 0;
    assert a == s[..|a|] && b == t[..|b|] && x == s[|a| + 1..] && y == t[|b| + 1..];
  }

  lemma StreamSplits(m: Migration, n: Migration)
    ensures Stream(m) == Stream(n) <==>
            m.version == n.version && m.description + [0] + m.up == n.description + [0] + n.up
  {
    if Stream(m) == Stream(n) {
      DecimalHasNoZero(m.version);
      DecimalHasNoZero(n.version);
      CutAtZero(Decimal(m.version), m.description + [0] + m.up, Decimal(n.version), n.description + [0] + n.up);
      DecimalApart(m.version, n.version);
    }
  }

  /** The stream determines a migration among those whose descriptions hold no zero byte. */
  lemma StreamDetermines(m: Migration, n: Migration)
    requires 0 !in m.description && 0 !in n.description && Stream(m) == Stream(n)
    ensures m == n
  {
    hide Stream;
    StreamSplits(m, n);
    CutAtZero(m.description, m.up, n.description, n.up);
  }

  /** A migration shares its stream, and so its checksum, with no other exactly when it holds no zero byte. */
  lemma StreamIsItsOwnIff(m: Migration)
    ensures (forall n :: Stream(n) == Stream(m) ==> n == m) <==> 0 !in m.description && 0 !in m.up
  {
    if 0 !in m.description && 0 !in m.up {
      forall n | Stream(n) == Stream(m)
        ensures n == m
      {
        StreamSplits(m, n);
        OneZeroCut(m.description, m.up, n.description, n.up);
      }
    } else {
      var n := MovedSeparator(m);
      assert Stream(n) == Stream(m) && n != m;
    }
  }

  lemma OneZeroCut(a: Octets, x: Octets, b: Octets, y: Octets)
    requires 0 !in a && 0 !in x && a + [0] + x == b + [0] + y
    ensures a == b && x == y
  {
    var s, t := a + [0] + x, b + [0] + y;
    assert t[|b|] == 0 && s[|b|] == 0;
    assert forall k :: 0 <= k < |a| ==> s[k] == a[k] && a[k] != 0;
    assert forall k :: |a| < k < |s| ==> s[k] == x[k - |a| - 1] && x[k - |a| - 1] != 0;
    assert a == s[..|a|] && b == t[..|b|] && x == s[|a| + 1..] && y == t[|b| + 1..];
  }

  /** Another migration with the same stream: the separator taken for a byte of the text and the other way round. */
  lemma MovedSeparator(m: Migration) returns (n: Migration)
    requires 0 in m.description || 0 in m.up
    ensures n != m && Stream(n) == Stream(m)
  {
    var d, u := m.description, m.up;
    if 0 in d {
      var k :| 0 <= k < |d| && d[k] == 0;
      n := Migration(m.version, d[..k], d[k + 1..] + [0] + u);
      assert d == d[..k] + [0] + d[k + 1..];
      assert n.description + [0] + n.up == d + [0] + u;
    } else {
      var k :| 0 <= k < |u| && u[k] == 0;
      n := Migration(m.version, d + [0] + u[..k], u[k + 1..]);
      assert u == u[..k] + [0] + u[k + 1..];
      assert n.description + [0] + n.up == d + [0] + u;
    }
  }

  /** So an edit that only moves the separator goes unseen. */
  lemma SeparatorEditIsUnseen()
    ensures var m, n := Migration(1, [97, 0, 98], [99]), Migration(1, [97], [98, 0, 99]);
            m != n && Checksum(m) == Checksum(n)
  {
    hide Feed, Hex, Decimal;
    var m, n := Migration(1, [97, 0, 98], [99]), Migration(1, [97], [98, 0, 99]);
    HashOfStream(m);
    HashOfStream(n);
    assert m.description + [0] + m.up == n.description + [0] + n.up;
    assert Hash(m) == Hash(n);
    hide Hash;
  }

  lemma FeedKeepsApart(h: Word, k: Word, bytes: Octets)
    ensures h != k ==> Feed(h, bytes) != Feed(k, bytes)
  {
    hide Feed;
    if Feed(h, bytes) == Feed(k, bytes) {
      FeedKeepsStatesApart(h, k, bytes);
    }
  }

  // ---------- Building the migrator ----------

  predicate Ascending(vs: seq<nat>) {
    forall i, j :: 0 <= i < j < |vs| ==> vs[i] < vs[j]
  }

  function InsertByVersion(ms: seq<Migration>, m: Migration): seq<Migration> {
    if ms == [] || m.version < ms[0].version then [m] + ms else [ms[0]] + InsertByVersion(ms[1..], m)
  }

  /** A stable sort by version. */
  function SortByVersion(ms: seq<Migration>): seq<Migration> {
    if ms == [] then [] else InsertByVersion(SortByVersion(ms[..|ms| - 1]), ms[|ms| - 1])
  }

  predicate Distinct(ms: seq<Migration>) {
    forall i, j :: 0 <= i < j < |ms| ==> ms[i].version != ms[j].version
  }

  predicate Sorted(ms: seq<Migration>) {
    forall i, j :: 0 <= i < j < |ms| ==> ms[i].version < ms[j].version
  }

  lemma {:induction false} InsertMembers(ms: seq<Migration>, m: Migration)
    ensures multiset(InsertByVersion(ms, m)) == multiset(ms) + multiset{m}
    ensures forall x :: x in InsertByVersion(ms, m) <==> x == m || x in ms
  {
    if ms != [] {
      assert ms == [ms[0]] + ms[1..];
      InsertMembers(ms[1..], m);
    }
  }

  lemma {:induction false} InsertSorted(ms: seq<Migration>, m: Migration)
    requires Sorted(ms) && forall x :: x in ms ==> x.version != m.version
    ensures Sorted(InsertByVersion(ms, m))
  {
    if ms == [] {
    } else if m.version < ms[0].version {
      PrependSorted(m, ms);
    } else {
      assert ms[0] in ms;
      InsertSorted(ms[1..], m);
      InsertMembers(ms[1..], m);
      var r := InsertByVersion(ms[1..], m);
      assert forall k :: 0 <= k < |r| ==> r[k] in r;
      PrependSorted(ms[0], r);
    }
  }

  lemma PrependSorted(m: Migration, ms: seq<Migration>)
    requires Sorted(ms) && forall k :: 0 <= k < |ms| ==> m.version < ms[k].version
    ensures Sorted([m] + ms)
  {
  }

  /** Sorting distinct versions gives them in strictly ascending order, losing none. */
  lemma {:induction false} SortSorts(ms: seq<Migration>)
    requires Distinct(ms)
    ensures Sorted(SortByVersion(ms)) && multiset(SortByVersion(ms)) == multiset(ms)
  {
    if ms != [] {
      var init, last := ms[..|ms| - 1], ms[|ms| - 1];
      SortSorts(init);
      var s := SortByVersion(init);
      assert ms == init + [last];
      assert forall x :: x in init ==> x.version != last.version;
      SameMembers(s, init);
      hide InsertByVersion, Sorted, Distinct;
      InsertSorted(s, last);
      InsertMembers(s, last);
    }
  }

  lemma SameMembers(xs: seq<Migration>, ys: seq<Migration>)
    requires multiset(xs) == multiset(ys)
    ensures forall x :: x in xs <==> x in ys
  {
    assert forall x :: x in xs <==> x in multiset(xs);
    assert forall x :: x in ys <==> x in multiset(ys);
  }

  method NewMigrator(ms: seq<Migration>) returns (r: Result<seq<Migration>, nat>)
    ensures r.Ok? <==> Distinct(ms)
    ensures r.Ok? ==> Sorted(r.value) && multiset(r.value) == multiset(ms)
    ensures r.Err? ==>
              exists i, j :: 0 <= i < j < |ms| && ms[i].version == ms[j].version == r.error && Distinct(ms[..j])
  {
    var seen: set<nat> := {};
    for i := 0 to |ms|
      invariant seen == set k | 0 <= k < i :: ms[k].version
      invariant Distinct(ms[..i])
    {
      if ms[i].version in seen {
        var k :| 0 <= k < i && ms[k].version == ms[i].version;
        return Err(ms[i].version);
      }
      seen := seen + {ms[i].version};
    }
    assert ms[..|ms|] == ms;
    SortSorts(ms);
    return Ok(SortByVersion(ms));
  }

  // ---------- Planning ----------

  /** The recorded entry for a version; of several, the last. */
  function Recorded(history: seq<AppliedMigration>, v: nat): Option<AppliedMigration> {
    if history == [] then None
    else if history[|history| - 1].version == v then Some(history[|history| - 1])
    else Recorded(history[..|history| - 1], v)
  }

  datatype Fate = Apply | Skip | Drift

  function FateOf(history: seq<AppliedMigration>, m: Migration): Fate {
    match Recorded(history, m.version)
    case None => Apply
    case Some(record) => if record.checksum != Checksum(m) then Drift else Skip
  }

  /** The versions with a given fate, in the order of the migrations. */
  function WithFate(ms: seq<Migration>, history: seq<AppliedMigration>, f: Fate): seq<nat> {
    if ms == [] then []
    else WithFate(ms[..|ms| - 1], history, f)
         + if FateOf(history, ms[|ms| - 1]) == f then [ms[|ms| - 1].version] else []
  }

  function Plan(ms: seq<Migration>, history: seq<AppliedMigration>): Report {
    Report(WithFate(ms, history, Apply), WithFate(ms, history, Skip), WithFate(ms, history, Drift))
  }

  method ComputePlan(ms: seq<Migration>, history: seq<AppliedMigration>) returns (r: Report)
    ensures r == Plan(ms, history)
  {
    hide Checksum;
    r := Report([], [], []);
    for i := 0 to |ms|
      invariant r == Plan(ms[..i], history)
    {
      assert ms[..i + 1][..i] == ms[..i] && ms[..i + 1][i] == ms[i];
      match Recorded(history, ms[i].version)
      case None => r := r.(applied := r.applied + [ms[i].version]);
      case Some(record) =>
        if record.checksum != Checksum(ms[i]) {
          r := r.(drift := r.drift + [ms[i].version]);
        } else {
          r := r.(skipped := r.skipped + [ms[i].version]);
        }
    }
    assert ms[..|ms|] == ms;
  }

  ghost predicate HasFate(ms: seq<Migration>, history: seq<AppliedMigration>, f: Fate, v: nat) {
    exists m :: m in ms && m.version == v && FateOf(history, m) == f
  }

  lemma {:induction false} WithFateMembers(ms: seq<Migration>, history: seq<AppliedMigration>, f: Fate, v: nat)
    ensures v in WithFate(ms, history, f) <==> HasFate(ms, history, f, v)
  {
    hide FateOf;
    if ms != [] {
      var init, last := ms[..|ms| - 1], ms[|ms| - 1];
      WithFateMembers(init, history, f, v);
      assert ms == init + [last];
      if HasFate(init, history, f, v) {
        var m :| m in init && m.version == v && FateOf(history, m) == f;
        assert m in ms;
      }
      assert last in ms;
    }
  }

  lemma {:induction false} WithFateAscends(ms: seq<Migration>, history: seq<AppliedMigration>, f: Fate)
    requires Sorted(ms)
    ensures Ascending(WithFate(ms, history, f))
  {
    hide FateOf;
    if ms != [] {
      var init, last := ms[..|ms| - 1], ms[|ms| - 1];
      WithFateAscends(init, history, f);
      var vs := WithFate(init, history, f);
      forall i | 0 <= i < |vs|
        ensures vs[i] < last.version
      {
        WithFateMembers(init, history, f, vs[i]);
      }
    }
  }

  lemma {:induction false} HasFateIs(ms: seq<Migration>, history: seq<AppliedMigration>, f: Fate, m: Migration)
    requires Sorted(ms) && m in ms
    ensures m.version in WithFate(ms, history, f) <==> FateOf(history, m) == f
  {
    hide FateOf;
    WithFateMembers(ms, history, f, m.version);
    if HasFate(ms, history, f, m.version) {
      var x :| x in ms && x.version == m.version && FateOf(history, x) == f;
      SameVersion(ms, x, m);
    }
  }

  /**
   A plan splits the versions: each migration is in exactly one of the three lists, by what the history
   says about it, and each list is strictly ascending.
   */
  lemma PlanPartitions(ms: seq<Migration>, history: seq<AppliedMigration>, m: Migration)
    requires Sorted(ms) && m in ms
    ensures var r := Plan(ms, history);
            && Ascending(r.applied) && Ascending(r.skipped) && Ascending(r.drift)
            && (m.version in r.applied <==> Recorded(history, m.version).None?)
            && (m.version in r.drift <==>
                  Recorded(history, m.version).Some? && Recorded(history, m.version).value.checksum != Checksum(m))
            && (m.version in r.skipped <==>
                  Recorded(history, m.version).Some? && Recorded(history, m.version).value.checksum == Checksum(m))
  {
    hide Checksum, WithFate;
    WithFateAscends(ms, history, Apply);
    WithFateAscends(ms, history, Skip);
    WithFateAscends(ms, history, Drift);
    HasFateIs(ms, history, Apply, m);
    HasFateIs(ms, history, Skip, m);
    HasFateIs(ms, history, Drift, m);
  }

  /** Nothing but the available versions is ever planned. */
  lemma PlanListsOnlyVersions(ms: seq<Migration>, history: seq<AppliedMigration>, v: nat)
    requires Sorted(ms)
    ensures var r := Plan(ms, history);
            v in r.applied || v in r.skipped || v in r.drift <==> exists m :: m in ms && m.version == v
  {
    hide FateOf, WithFate;
    WithFateMembers(ms, history, Apply, v);
    WithFateMembers(ms, history, Skip, v);
    WithFateMembers(ms, history, Drift, v);
    if m :| m in ms && m.version == v {
      assert HasFate(ms, history, FateOf(history, m), v);
    }
  }

  lemma SameVersion(ms: seq<Migration>, x: Migration, y: Migration)
    requires Sorted(ms) && x in ms && y in ms && x.version == y.version
    ensures x == y
  {
  }

  /** An applied migration edited in one byte is always reported as drift; left alone, it is skipped. */
  lemma EditShowsAsDrift(ms: seq<Migration>, history: seq<AppliedMigration>, original: Migration, m: Migration)
    requires Sorted(ms) && m in ms && m.version == original.version
    requires Recorded(history, m.version) ==
             Some(AppliedMigration(original.version, original.description, Checksum(original)))
    ensures OneByteEdit(original, m) ==> m.version in Plan(ms, history).drift
    ensures m == original ==> m.version in Plan(ms, history).skipped
  {
    hide Checksum, WithFate, Plan;
    PlanPartitions(ms, history, m);
    if OneByteEdit(original, m) {
      EditChangesChecksum(original, m);
    }
  }

  // ---------- Order across runs ----------

  /** Nothing is applied below a version that is already in the history. */
  ghost predicate AppliesInOrder(ms: seq<Migration>, history: seq<AppliedMigration>) {
    forall v, a :: v in Plan(ms, history).applied && a in history ==> a.version < v
  }

  /** The history has exactly the first `n` of the migrations. */
  ghost predicate RecordedPrefix(ms: seq<Migration>, history: seq<AppliedMigration>, n: nat) {
    forall i :: 0 <= i < |ms| ==> (Recorded(history, ms[i].version).Some? <==> i < n)
  }

  /** How many of the migrations, from the first on, are in the history without a gap. */
  function LeadingRecorded(ms: seq<Migration>, history: seq<AppliedMigration>): (n: nat)
    ensures n <= |ms|
    ensures forall i :: 0 <= i < n ==> Recorded(history, ms[i].version).Some?
    ensures n < |ms| ==> Recorded(history, ms[n].version).None?
  {
    if ms == [] || Recorded(history, ms[0].version).None? then 0
    else
      assert forall i :: 0 < i < |ms| ==> ms[i] == ms[1..][i - 1];
      1 + LeadingRecorded(ms[1..], history)
  }

  /** The first migration that is not recorded, if there is one, is above everything that is. */
  ghost predicate HistoryIsBelow(ms: seq<Migration>, history: seq<AppliedMigration>) {
    var n := LeadingRecorded(ms, history);
    n == |ms| || forall a :: a in history ==> a.version < ms[n].version
  }

  /**
   A plan keeps to the ascending order across runs exactly when the first migration not on record is above the whole
   history, whether or not the recorded versions are still available; the available ones on record are then a prefix.
   */
  lemma AppliesInOrderIff(ms: seq<Migration>, history: seq<AppliedMigration>)
    requires Sorted(ms)
    ensures AppliesInOrder(ms, history) <==> HistoryIsBelow(ms, history)
    ensures AppliesInOrder(ms, history) ==> RecordedPrefix(ms, history, LeadingRecorded(ms, history))
  {
    if AppliesInOrder(ms, history) {
      FirstPendingIsApplied(ms, history);
      OrderMeansPrefix(ms, history);
    }
    if HistoryIsBelow(ms, history) {
      BelowMeansOrder(ms, history);
    }
  }

  lemma FirstPendingIsApplied(ms: seq<Migration>, history: seq<AppliedMigration>)
    requires Sorted(ms)
    ensures var n := LeadingRecorded(ms, history); n < |ms| ==> ms[n].version in Plan(ms, history).applied
  {
    var n := LeadingRecorded(ms, history);
    hide Recorded, Plan, Checksum;
    if n < |ms| {
      PlanPartitions(ms, history, ms[n]);
    }
  }

  lemma OrderMeansPrefix(ms: seq<Migration>, history: seq<AppliedMigration>)
    requires Sorted(ms) && HistoryIsBelow(ms, history)
    ensures RecordedPrefix(ms, history, LeadingRecorded(ms, history))
  {
    var n := LeadingRecorded(ms, history);
    hide Recorded, LeadingRecorded;
    forall i | n <= i < |ms|
      ensures Recorded(history, ms[i].version).None?
    {
      RecordedIsListed(history, ms[i].version);
      assert ms[n].version <= ms[i].version;
    }
  }

  lemma {:induction false} RecordedIsListed(history: seq<AppliedMigration>, v: nat)
    ensures Recorded(history, v).Some? <==> exists a :: a in history && a.version == v
  {
    if history != [] {
      var init, last := history[..|history| - 1], history[|history| - 1];
      assert history == init + [last];
      RecordedIsListed(init, v);
      if a :| a in history && a.version == v {
        assert a == last || a in init;
      }
    }
  }

  lemma BelowMeansOrder(ms: seq<Migration>, history: seq<AppliedMigration>)
    requires Sorted(ms) && HistoryIsBelow(ms, history)
    ensures AppliesInOrder(ms, history)
  {
    var n := LeadingRecorded(ms, history);
    hide Recorded, Checksum, WithFate, LeadingRecorded;
    forall v, a | v in Plan(ms, history).applied && a in history
      ensures a.version < v
    {
      WithFateMembers(ms, history, Apply, v);
      var x :| x in ms && x.version == v && FateOf(history, x) == Apply;
      var j :| 0 <= j < |ms| && ms[j] == x;
      assert n <= j && ms[n].version <= v;
    }
  }

  /** A gap is not refused: with only version 2 on record, version 1 is applied after it. */
  lemma GapIsFilledLate(one: Migration, two: Migration)
    requires one.version == 1 && two.version == 2
    ensures var history := [AppliedMigration(2, two.description, Checksum(two))];
            Plan([one, two], history) == Report([1], [2], []) && !AppliesInOrder([one, two], history)
  {
    hide Checksum;
    var history := [AppliedMigration(2, two.description, Checksum(two))];
    assert Recorded(history[..0], 1) == None;
    assert Recorded(history, 1) == None && Recorded(history, 2) == Some(history[0]);
    var ms := [one, two];
    assert ms[..1] == [one] && ms[..1][..0] == [];
    forall f: Fate
      ensures WithFate(ms, history, f) == WithFate([one], history, f) + (if FateOf(history, two) == f then [2] else [])
      ensures WithFate([one], history, f) == (if FateOf(history, one) == f then [1] else [])
    {
    }
    assert 1 in Plan(ms, history).applied && history[0] in history;
  }

  /** Nor is a history ahead of the migrations: with only version 5 on record, version 3 is applied after it. */
  lemma OlderBinaryAppliesBelow(three: Migration, five: AppliedMigration)
    requires three.version == 3 && five.version == 5
    ensures Plan([three], [five]).applied == [3] && !AppliesInOrder([three], [five])
    ensures RecordedPrefix([three], [five], 0)
  {
    hide Checksum;
    var ms, history := [three], [five];
    assert ms[..0] == [] && history[..0] == [];
    assert Recorded(history[..0], 3) == None && Recorded(history, 3) == None;
    assert WithFate(ms, history, Apply) == [] + [3];
    assert 3 in Plan(ms, history).applied && five in history;
  }

  // ---------- Applying a plan ----------

  /** The history entries written when the pending migrations run. */
  function Bookkeeping(ms: seq<Migration>, history: seq<AppliedMigration>): seq<AppliedMigration> {
    if ms == [] then []
    else
      var m := ms[|ms| - 1];
      Bookkeeping(ms[..|ms| - 1], history)
      + if FateOf(history, m) == Apply then [AppliedMigration(m.version, m.description, Checksum(m))] else []
  }

  lemma {:induction false} RecordedAppend(h: seq<AppliedMigration>, k: seq<AppliedMigration>, v: nat)
    ensures Recorded(h + k, v) == if Recorded(k, v).Some? then Recorded(k, v) else Recorded(h, v)
    decreases |k|
  {
    if k == [] {
      assert h + k == h;
    } else {
      assert (h + k)[..|h + k| - 1] == h + k[..|k| - 1];
      RecordedAppend(h, k[..|k| - 1], v);
    }
  }

  lemma {:induction false} BookkeepingRecords(ms: seq<Migration>, history: seq<AppliedMigration>, m: Migration)
    requires Sorted(ms) && m in ms
    ensures Recorded(Bookkeeping(ms, history), m.version) ==
            if FateOf(history, m) == Apply then Some(AppliedMigration(m.version, m.description, Checksum(m))) else None
  {
    hide Checksum, FateOf;
    var init, last := ms[..|ms| - 1], ms[|ms| - 1];
    assert ms == init + [last];
    var book, entry := Bookkeeping(init, history), AppliedMigration(last.version, last.description, Checksum(last));
    if m == last {
      NotRecorded(init, history, last.version);
    } else {
      assert m in init && m.version != last.version;
      BookkeepingRecords(init, history, m);
    }
    if FateOf(history, last) == Apply {
      assert (book + [entry])[..|book|] == book;
    } else {
      assert book + [] == book;
    }
  }

  lemma {:induction false} NotRecorded(ms: seq<Migration>, history: seq<AppliedMigration>, v: nat)
    requires forall m :: m in ms ==> m.version < v
    ensures Recorded(Bookkeeping(ms, history), v) == None
  {
    hide Checksum, FateOf;
    if ms != [] {
      var init, last := ms[..|ms| - 1], ms[|ms| - 1];
      assert last in ms;
      NotRecorded(init, history, v);
      var book, entry := Bookkeeping(init, history), AppliedMigration(last.version, last.description, Checksum(last));
      if FateOf(history, last) == Apply {
        assert (book + [entry])[..|book|] == book;
      } else {
        assert book + [] == book;
      }
    }
  }

  /**
   A run resumes where the last one stopped: once a plan's migrations are applied and recorded, planning again
   applies nothing, skips what was applied, and reports the same drift.
   */
  lemma PlanAfterApplying(ms: seq<Migration>, history: seq<AppliedMigration>, m: Migration)
    requires Sorted(ms) && m in ms
    ensures var after := history + Bookkeeping(ms, history);
            && FateOf(after, m) == (if FateOf(history, m) == Apply then Skip else FateOf(history, m))
            && m.version !in Plan(ms, after).applied
            && (m.version in Plan(ms, after).drift <==> m.version in Plan(ms, history).drift)
  {
    hide Checksum, WithFate, Plan;
    var book := Bookkeeping(ms, history);
    BookkeepingRecords(ms, history, m);
    RecordedAppend(history, book, m.version);
    PlanPartitions(ms, history, m);
    PlanPartitions(ms, history + book, m);
  }
}
