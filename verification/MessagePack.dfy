/**
 The MessagePack bridge between JSON values and the Citizen wire subset.

 `Encode` and `Read` say what the writer appends and what the reader returns; the methods
 `WriteValue` and `ReadValue` are the loops over a growing buffer and a shared cursor.
 */
module MessagePack {
  import opened Arithmetic
  import BitStrings
  import opened Wrappers

  /** Text is kept as its UTF-8 bytes, as the wire carries it. */
  type Text = seq<Byte>

  datatype Entry = Entry(key: Text, value: Value)

  /** A JSON value. An object's entries are in ascending key order; a float is its eight bytes. */
  datatype Value =
    | Null
    | Bool(b: bool)
    | Int(i: int)
    | Float(bits: seq<Byte>)
    | Str(s: Text)
    | Arr(items: seq<Value>)
    | Obj(entries: seq<Entry>)

  datatype ReadError = Truncated | BadUtf8 | BadKey | Unsupported(tag: Byte)

  /** Number formatting and float widening, which the reader delegates. */
  datatype Host = Host(numberText: Value -> Text, widen: seq<Byte> -> Value)

  // ---------- Big-endian words ----------

  function ToBytes(n: nat, width: nat): (bs: seq<Byte>)
    ensures |bs| == width
  {
    if width == 0 then [] else ToBytes(n / 256, width - 1) + [n % 256]
  }

  function TwosComplement(n: nat, half: nat): int {
    if n < half then n else n - 2 * half
  }

  // ---------- JSON values as the library holds them ----------

  const I64_MAX: int := 0x7fff_ffff_ffff_ffff
  const U64_MAX: int := 0xffff_ffff_ffff_ffff

  predicate IsFinite(bits: seq<Byte>) {
    |bits| == 8 && !(bits[0] % 128 == 127 && bits[1] >= 240)
  }

  /** Length of the UTF-8 sequence a text starts with, or 0 if it is malformed. */
  function Utf8Width(t: Text): (w: nat)
    ensures w <= |t|
  {
    if t == [] then 0
    else if t[0] < 0x80 then 1
    else if 0xc2 <= t[0] <= 0xdf && |t| >= 2 && IsTail(t[1]) then 2
    else if |t| >= 3 && IsTail(t[2]) &&
            (if t[0] == 0xe0 then 0xa0 <= t[1] <= 0xbf
             else if t[0] == 0xed then 0x80 <= t[1] <= 0x9f
             else 0xe1 <= t[0] <= 0xef && IsTail(t[1])) then 3
    else if |t| >= 4 && IsTail(t[2]) && IsTail(t[3]) &&
            (if t[0] == 0xf0 then 0x90 <= t[1] <= 0xbf
             else if t[0] == 0xf4 then 0x80 <= t[1] <= 0x8f
             else 0xf1 <= t[0] <= 0xf3 && IsTail(t[1])) then 4
    else 0
  }

  predicate IsTail(b: Byte) {
    0x80 <= b <= 0xbf
  }

  predicate ValidUtf8(t: Text) {
    t == [] || (Utf8Width(t) > 0 && ValidUtf8(t[Utf8Width(t)..]))
  }

  predicate KeyLess(a: Text, b: Text) {
    b != [] && (a == [] || a[0] < b[0] || (a[0] == b[0] && KeyLess(a[1..], b[1..])))
  }

  predicate Sorted(es: seq<Entry>) {
    forall i, j :: 0 <= i < j < |es| ==> KeyLess(es[i].key, es[j].key)
  }

  /** The values a JSON document can be: this is what the writer's argument type admits. */
  predicate IsJson(v: Value) {
    match v
    case Null => true
    case Bool(_) => true
    case Int(i) => -I64_MAX - 1 <= i <= U64_MAX
    case Float(bits) => IsFinite(bits)
    case Str(s) => ValidUtf8(s)
    case Arr(items) => forall k :: 0 <= k < |items| ==> IsJson(items[k])
    case Obj(es) => Sorted(es) && forall k :: 0 <= k < |es| ==> ValidUtf8(es[k].key) && IsJson(es[k].value)
  }

  // ---------- Writing ----------

  /** The double nearest to an integer from 2^63 up to 2^64 - 1, ties to even. */
  function NearestDouble(n: nat): nat
    requires I64_MAX < n <= U64_MAX
  {
    var q, r := n / 2048, n % 2048;
    var m := if r > 1024 || (r == 1024 && q % 2 == 1) then q + 1 else q;
    0x43e0_0000_0000_0000 + (m - 0x10_0000_0000_0000)
  }

  function EncodeInt(i: int): seq<Byte>
    requires -I64_MAX - 1 <= i <= U64_MAX
  {
    if i > I64_MAX then [0xcb] + ToBytes(NearestDouble(i), 8)
    else if 0 <= i <= 127 then [i]
    else if -32 <= i <= -1 then [i % 256]
    else if 0 <= i <= 0xff then [0xcc, i]
    else if i >= 0 then [0xcd, i / 256 % 256, i % 256]
    else [0xd0, i % 256]
  }

  function StrHeader(n: nat): seq<Byte> {
    if n <= 31 then [0xa0 + n]
    else if n <= 0xff then [0xd9, n]
    else [0xda, n / 256 % 256, n % 256]
  }

  function EncodeStr(s: Text): seq<Byte> {
    StrHeader(|s|) + s
  }

  function ArrHeader(n: nat): seq<Byte> {
    if n <= 15 then [0x90 + n] else [0xdc, n / 256 % 256, n % 256]
  }

  function ObjHeader(n: nat): seq<Byte> {
    if n <= 15 then [0x80 + n] else [0xde, n / 256 % 256, n % 256]
  }

  function Encode(v: Value): seq<Byte>
    requires IsJson(v)
    decreases v, 1
  {
    match v
    case Null => [0xc0]
    case Bool(b) => [if b then 0xc3 else 0xc2]
    case Int(i) => EncodeInt(i)
    case Float(bits) => [0xcb] + bits
    case Str(s) => EncodeStr(s)
    case Arr(items) => ArrHeader(|items|) + EncodeAll(items)
    case Obj(es) => ObjHeader(|es|) + EncodeEntries(es)
  }

  function EncodeAll(items: seq<Value>): seq<Byte>
    requires forall k :: 0 <= k < |items| ==> IsJson(items[k])
    decreases items, 0
  {
    if items == [] then [] else Encode(items[0]) + EncodeAll(items[1..])
  }

  function EncodeEntries(es: seq<Entry>): seq<Byte>
    requires forall k :: 0 <= k < |es| ==> IsJson(es[k].value)
    decreases es, 0
  {
    if es == [] then [] else EncodeStr(es[0].key) + Encode(es[0].value) + EncodeEntries(es[1..])
  }

  // ---------- Reading ----------

  type ReadResult = Result<(Value, nat), ReadError>

  function ReadStr(b: seq<Byte>, i: nat, len: nat): (r: ReadResult)
    requires i <= |b|
    ensures r.Ok? ==> i <= r.value.1 <= |b|
  {
    if i + len > |b| then Err(Truncated)
    else if !ValidUtf8(b[i..i + len]) then Err(BadUtf8)
    else Ok((Str(b[i..i + len]), i + len))
  }

  /** A big-endian word of `width` bytes at the cursor. */
  function ReadWord(b: seq<Byte>, i: nat, width: nat): (r: Result<(nat, nat), ReadError>)
    requires i <= |b|
    ensures r.Ok? ==> i <= r.value.1 <= |b|
  {
    if i + width > |b| then Err(Truncated) else Ok((BitStrings.BigEndian(b[i..i + width]), i + width))
  }

  function ReadUnsigned(b: seq<Byte>, i: nat, width: nat): (r: ReadResult)
    requires i <= |b|
    ensures r.Ok? ==> i <= r.value.1 <= |b|
  {
    match ReadWord(b, i, width)
    case Err(e) => Err(e)
    case Ok((n, j)) => Ok((Int(n), j))
  }

  function ReadSigned(b: seq<Byte>, i: nat, width: nat, half: nat): (r: ReadResult)
    requires i <= |b|
    ensures r.Ok? ==> i <= r.value.1 <= |b|
  {
    match ReadWord(b, i, width)
    case Err(e) => Err(e)
    case Ok((n, j)) => Ok((Int(TwosComplement(n, half)), j))
  }

  /** A float that is not finite becomes null. */
  function FloatOrNull(bits: seq<Byte>): Value {
    if IsFinite(bits) then Float(bits) else Null
  }

  /** What the leading bytes announce: a finished result, or elements still to be read. */
  datatype Head =
    | Done(result: ReadResult)
    | Items(len: nat, at: nat)
    | Members(len: nat, at: nat)

  datatype Body = StrBody | ArrBody | MapBody

  /** A length word followed by that many bytes or values. */
  function Sized(b: seq<Byte>, i: nat, width: nat, body: Body): (r: Head)
    requires i <= |b|
    ensures match r
            case Done(d) => d.Ok? ==> i <= d.value.1 <= |b|
            case _ => i <= r.at <= |b|
  {
    match ReadWord(b, i, width)
    case Err(e) => Done(Err(e))
    case Ok((len, j)) =>
      match body
      case StrBody => Done(ReadStr(b, j, len))
      case ArrBody => Items(len, j)
      case MapBody => Members(len, j)
  }

  function ReadHead(h: Host, b: seq<Byte>, i: nat): (r: Head)
    requires i <= |b|
    ensures match r
            case Done(d) => d.Ok? ==> i < d.value.1 <= |b|
            case _ => i < r.at <= |b|
  {
    if i >= |b| then Done(Err(Truncated))
    else
      var c: int := b[i];
      var j := i + 1;
      if c == 0xc0 then Done(Ok((Null, j)))
      else if c == 0xc2 then Done(Ok((Bool(false), j)))
      else if c == 0xc3 then Done(Ok((Bool(true), j)))
      else if c == 0xca then Done(if j + 4 > |b| then Err(Truncated) else Ok((h.widen(b[j..j + 4]), j + 4)))
      else if c == 0xcb then Done(if j + 8 > |b| then Err(Truncated) else Ok((FloatOrNull(b[j..j + 8]), j + 8)))
      else if c == 0xcc then Done(if j >= |b| then Err(Truncated) else Ok((Int(b[j]), j)))
      else if c == 0xcd then Done(ReadUnsigned(b, j, 2))
      else if c == 0xce then Done(ReadUnsigned(b, j, 4))
      else if c == 0xcf then Done(ReadUnsigned(b, j, 8))
      else if c == 0xd0 then Done(ReadSigned(b, j, 1, 0x80))
      else if c == 0xd1 then Done(ReadSigned(b, j, 2, 0x8000))
      else if c == 0xd2 then Done(ReadSigned(b, j, 4, 0x8000_0000))
      else if c == 0xd3 then Done(ReadSigned(b, j, 8, 0x8000_0000_0000_0000))
      else if c == 0xd9 then Done(if j >= |b| then Err(Truncated) else ReadStr(b, j + 1, b[j]))
      else if c == 0xda then Sized(b, j, 2, StrBody)
      else if c == 0xdb then Sized(b, j, 4, StrBody)
      else if c <= 0x7f then Done(Ok((Int(c), j)))
      else if c >= 0xe0 then Done(Ok((Int(c - 256), j)))
      else if 0xa0 <= c <= 0xbf then Done(ReadStr(b, j, c - 0xa0))
      else if 0x90 <= c <= 0x9f then Items(c - 0x90, j)
      else if 0x80 <= c <= 0x8f then Members(c - 0x80, j)
      else if c == 0xdc then Sized(b, j, 2, ArrBody)
      else if c == 0xdd then Sized(b, j, 4, ArrBody)
      else if c == 0xde then Sized(b, j, 2, MapBody)
      else if c == 0xdf then Sized(b, j, 4, MapBody)
      else Done(Err(Unsupported(c)))
  }

  /** One value at the cursor: the value and the cursor after it. */
  function Read(h: Host, b: seq<Byte>, i: nat): (r: ReadResult)
    requires i <= |b|
    ensures r.Ok? ==> i < r.value.1 <= |b|
    decreases |b| - i, 0, 0
  {
    match ReadHead(h, b, i)
    case Done(r) => r
    case Items(len, j) => ReadArr(h, b, j, len, [])
    case Members(len, j) => ReadMap(h, b, j, len, [])
  }

  function ReadArr(h: Host, b: seq<Byte>, i: nat, len: nat, out: seq<Value>): (r: ReadResult)
    requires i <= |b|
    ensures r.Ok? ==> i <= r.value.1 <= |b| && r.value.0.Arr? && |r.value.0.items| == |out| + len
    decreases |b| - i, 1, len
  {
    if len == 0 then Ok((Arr(out), i))
    else
      match Read(h, b, i)
      case Err(e) => Err(e)
      case Ok((v, j)) => ReadArr(h, b, j, len - 1, out + [v])
  }

  function ReadMap(h: Host, b: seq<Byte>, i: nat, len: nat, out: seq<Entry>): (r: ReadResult)
    requires i <= |b|
    ensures r.Ok? ==> i <= r.value.1 <= |b| && r.value.0.Obj? && |r.value.0.entries| <= |out| + len
    decreases |b| - i, 1, len
  {
    if len == 0 then Ok((Obj(out), i))
    else
      match Read(h, b, i)
      case Err(e) => Err(e)
      case Ok((k, j)) =>
        match Read(h, b, j)
        case Err(e) => Err(e)
        case Ok((v, j')) =>
          match KeyText(h, k)
          case None => Err(BadKey)
          case Some(key) => ReadMap(h, b, j', len - 1, Insert(out, key, v))
  }

  function KeyText(h: Host, k: Value): Option<Text> {
    match k
    case Str(s) => Some(s)
    case Int(_) => Some(h.numberText(k))
    case Float(_) => Some(h.numberText(k))
    case _ => None
  }

  /** Insertion into the ordered map; an existing key keeps its place and takes the new value. */
  function Insert(es: seq<Entry>, key: Text, value: Value): (r: seq<Entry>)
    ensures |es| <= |r| <= |es| + 1
  {
    if es == [] then [Entry(key, value)]
    else if es[0].key == key then [Entry(key, value)] + es[1..]
    else if KeyLess(key, es[0].key) then [Entry(key, value)] + es
    else [es[0]] + Insert(es[1..], key, value)
  }

  // ---------- Round trip ----------

  /** What the wire format carries faithfully, cursor included. */
  predicate Representable(v: Value) {
    && FitsHere(v)
    && match v
       case Arr(items) => forall k :: 0 <= k < |items| ==> Representable(items[k])
       case Obj(es) => forall k :: 0 <= k < |es| ==> |es[k].key| <= 65535 && Representable(es[k].value)
       case _ => true
  }

  /** The limit that applies to the value itself, leaving its parts aside. */
  predicate FitsHere(v: Value) {
    match v
    case Int(i) => -128 <= i <= 127 || 256 <= i <= 65535
    case Str(s) => |s| <= 65535
    case Arr(items) => |items| <= 65535
    case Obj(es) => |es| <= 65535
    case _ => true
  }

  /** `part` stands in `b` at `i`. */
  ghost predicate At(b: seq<Byte>, i: nat, part: seq<Byte>) {
    i + |part| <= |b| && b[i..i + |part|] == part
  }

  lemma AtSplit(b: seq<Byte>, i: nat, x: seq<Byte>, y: seq<Byte>)
    requires At(b, i, x + y)
    ensures At(b, i, x) && At(b, i + |x|, y)
  {
    assert (x + y)[..|x|] == x && (x + y)[|x|..] == y;
    assert b[i..i + |x + y|][..|x|] == b[i..i + |x|];
    assert b[i..i + |x + y|][|x|..] == b[i + |x|..i + |x| + |y|];
  }

  lemma WordOfTwo(b: seq<Byte>, i: nat, x: Byte, y: Byte)
    requires At(b, i, [x, y])
    ensures ReadWord(b, i, 2) == Ok((256 * x + y, i + 2))
  {
    var w := b[i..i + 2];
    assert w[..1] == [x] && [x][..0] == [];
    assert BitStrings.BigEndian([x]) == x;
  }

  lemma ReadStrBack(b: seq<Byte>, i: nat, s: Text)
    requires At(b, i, s) && ValidUtf8(s)
    ensures ReadStr(b, i, |s|) == Ok((Str(s), i + |s|))
  {
  }

  /** The reader's dispatch on the leading byte, for the forms the writer produces. */
  lemma Dispatch(h: Host, b: seq<Byte>, i: nat)
    requires i < |b|
    ensures var c, j, r := b[i], i + 1, Read(h, b, i);
            && (c == 0xc0 ==> r == Ok((Null, j)))
            && (c == 0xc2 ==> r == Ok((Bool(false), j)))
            && (c == 0xc3 ==> r == Ok((Bool(true), j)))
            && (c <= 0x7f ==> r == Ok((Int(c), j)))
            && (c >= 0xe0 ==> r == Ok((Int(c as int - 256), j)))
            && (c == 0xcb && j + 8 <= |b| ==> r == Ok((FloatOrNull(b[j..j + 8]), j + 8)))
            && (c == 0xcc && j < |b| ==> r == Ok((Int(b[j]), j)))
            && (c == 0xcd ==> r == ReadUnsigned(b, j, 2))
            && (c == 0xd0 ==> r == ReadSigned(b, j, 1, 0x80))
            && (0xa0 <= c <= 0xbf ==> r == ReadStr(b, j, c - 0xa0))
            && (c == 0xd9 && j < |b| ==> r == ReadStr(b, j + 1, b[j]))
            && (0x90 <= c <= 0x9f ==> r == ReadArr(h, b, j, c - 0x90, []))
            && (0x80 <= c <= 0x8f ==> r == ReadMap(h, b, j, c - 0x80, []))
  {
    hide ReadArr, ReadMap, Sized, ReadStr, ReadUnsigned, ReadSigned;
  }

  /** The dispatch for the three forms with a 16-bit length. */
  lemma DispatchSized(h: Host, b: seq<Byte>, i: nat, len: nat)
    requires i < |b| && ReadWord(b, i + 1, 2) == Ok((len, i + 3))
    ensures var c, r := b[i], Read(h, b, i);
            && i + 3 <= |b|
            && (c == 0xda ==> r == ReadStr(b, i + 3, len))
            && (c == 0xdc ==> r == ReadArr(h, b, i + 3, len, []))
            && (c == 0xde ==> r == ReadMap(h, b, i + 3, len, []))
  {
    hide ReadArr, ReadMap, ReadStr, ReadWord, ReadUnsigned, ReadSigned;
  }

  lemma StrBack(h: Host, b: seq<Byte>, i: nat, s: Text)
    requires At(b, i, EncodeStr(s)) && ValidUtf8(s) && |s| <= 65535
    ensures Read(h, b, i) == Ok((Str(s), i + |EncodeStr(s)|))
  {
    hide Read, ReadStr, ReadWord, ReadArr, ReadMap, ValidUtf8;
    var hd := StrHeader(|s|);
    AtSplit(b, i, hd, s);
    ReadStrBack(b, i + |hd|, s);
    assert b[i] == b[i..i + |hd|][0] == hd[0];
    Dispatch(h, b, i);
    if 31 < |s| <= 0xff {
      assert b[i + 1] == b[i..i + |hd|][1] == hd[1];
    } else if |s| > 0xff {
      HeaderWord(b, i, 0xda, |s|);
      DispatchSized(h, b, i, |s|);
    }
  }

  lemma LowBytes(n: nat)
    ensures n % 65536 == 256 * (n / 256 % 256) + n % 256
  {
    var q := n / 256;
    DivIs(n, 65536, q / 256, 256 * (q % 256) + n % 256);
  }

  /** A header byte and a length below 65536 read back as that length. */
  lemma HeaderWord(b: seq<Byte>, i: nat, tag: Byte, n: nat)
    requires At(b, i, [tag, n / 256 % 256, n % 256])
    ensures b[i] == tag && ReadWord(b, i + 1, 2) == Ok((n % 65536, i + 3))
  {
    hide ReadWord;
    var x, y := n / 256 % 256, n % 256;
    LowBytes(n);
    assert b[i] == b[i..i + 3][0];
    assert [tag, x, y] == [tag] + [x, y];
    AtSplit(b, i, [tag], [x, y]);
    WordOfTwo(b, i + 1, x, y);
  }

  lemma IntBack(h: Host, b: seq<Byte>, i: nat, n: int)
    requires -128 <= n <= 127 || 256 <= n <= 65535
    requires At(b, i, EncodeInt(n))
    ensures Read(h, b, i) == Ok((Int(n), i + |EncodeInt(n)|))
  {
    hide Read, ReadArr, ReadMap, ReadWord;
    var e := EncodeInt(n);
    assert b[i] == b[i..i + |e|][0] == e[0];
    Dispatch(h, b, i);
    if n > 255 {
      HeaderWord(b, i, 0xcd, n);
    } else if n < -32 {
      ByteWord(b, i, 0xd0, n % 256);
    }
  }

  lemma ByteWord(b: seq<Byte>, i: nat, tag: Byte, x: Byte)
    requires At(b, i, [tag, x])
    ensures i + 2 <= |b| && ReadWord(b, i + 1, 1) == Ok((x as nat, i + 2))
  {
    assert [tag, x] == [tag] + [x];
    AtSplit(b, i, [tag], [x]);
    assert [x][..0] == [];
    assert BitStrings.BigEndian([x]) == x;
  }

  /** A header and its elements read back. */
  lemma ArrHeaderBack(h: Host, b: seq<Byte>, i: nat, n: nat)
    requires At(b, i, ArrHeader(n)) && n <= 65535
    ensures Read(h, b, i) == ReadArr(h, b, i + |ArrHeader(n)|, n, [])
  {
    hide Read, ReadArr, ReadMap, ReadWord;
    assert b[i] == b[i..i + |ArrHeader(n)|][0];
    Dispatch(h, b, i);
    if n > 15 {
      HeaderWord(b, i, 0xdc, n);
      DispatchSized(h, b, i, n);
    }
  }

  lemma ObjHeaderBack(h: Host, b: seq<Byte>, i: nat, n: nat)
    requires At(b, i, ObjHeader(n)) && n <= 65535
    ensures Read(h, b, i) == ReadMap(h, b, i + |ObjHeader(n)|, n, [])
  {
    hide Read, ReadArr, ReadMap, ReadWord;
    assert b[i] == b[i..i + |ObjHeader(n)|][0];
    Dispatch(h, b, i);
    if n > 15 {
      HeaderWord(b, i, 0xde, n);
      DispatchSized(h, b, i, n);
    }
  }

  lemma KeyLessAsymmetric(a: Text, b: Text)
    requires KeyLess(a, b)
    ensures a != b && !KeyLess(b, a)
  {
  }

  /** A key above all others goes to the end. */
  lemma {:induction false} InsertLast(es: seq<Entry>, key: Text, value: Value)
    requires forall k :: 0 <= k < |es| ==> KeyLess(es[k].key, key)
    ensures Insert(es, key, value) == es + [Entry(key, value)]
  {
    if es != [] {
      KeyLessAsymmetric(es[0].key, key);
      InsertLast(es[1..], key, value);
    }
  }

  lemma ScalarBack(h: Host, b: seq<Byte>, i: nat, v: Value)
    requires v.Null? || v.Bool? || (v.Float? && IsFinite(v.bits))
    requires At(b, i, Encode(v))
    ensures Read(h, b, i) == Ok((v, i + |Encode(v)|))
  {
    hide Read, ReadArr, ReadMap;
    if v.Float? {
      AtSplit(b, i, [0xcb], v.bits);
    }
    assert b[i] == b[i..i + |Encode(v)|][0];
    Dispatch(h, b, i);
  }

  /** Written bytes, wherever they stand and whatever surrounds them, read back as the value, to the byte. */
  lemma {:induction false} ReadBack(h: Host, b: seq<Byte>, i: nat, v: Value)
    requires IsJson(v) && Representable(v) && At(b, i, Encode(v))
    ensures Read(h, b, i) == Ok((v, i + |Encode(v)|))
    decreases v, 1
  {
    hide Read, EncodeAll, EncodeEntries, ValidUtf8, Sorted;
    match v
    case Int(n) => IntBack(h, b, i, n);
    case Str(s) => StrBack(h, b, i, s);
    case Arr(items) => ArrBack(h, b, i, items);
    case Obj(es) => ObjBack(h, b, i, es);
    case _ => ScalarBack(h, b, i, v);
  }

  lemma {:induction false} ArrBack(h: Host, b: seq<Byte>, i: nat, items: seq<Value>)
    requires forall k :: 0 <= k < |items| ==> IsJson(items[k]) && Representable(items[k])
    requires |items| <= 65535 && At(b, i, ArrHeader(|items|) + EncodeAll(items))
    ensures Read(h, b, i) == Ok((Arr(items), i + |ArrHeader(|items|) + EncodeAll(items)|))
    decreases items, 1
  {
    hide Read, ReadArr, EncodeAll, ArrHeader;
    AtSplit(b, i, ArrHeader(|items|), EncodeAll(items));
    ArrHeaderBack(h, b, i, |items|);
    ReadBackAll(h, b, i + |ArrHeader(|items|)|, items, []);
    assert [] + items == items;
  }

  lemma {:induction false} ObjBack(h: Host, b: seq<Byte>, i: nat, es: seq<Entry>)
    requires forall k :: 0 <= k < |es| ==> IsJson(es[k].value) && Representable(es[k].value)
    requires forall k :: 0 <= k < |es| ==> ValidUtf8(es[k].key) && |es[k].key| <= 65535
    requires Sorted(es) && |es| <= 65535 && At(b, i, ObjHeader(|es|) + EncodeEntries(es))
    ensures Read(h, b, i) == Ok((Obj(es), i + |ObjHeader(|es|) + EncodeEntries(es)|))
    decreases es, 2
  {
    hide Read, ReadMap, EncodeEntries, ObjHeader;
    AtSplit(b, i, ObjHeader(|es|), EncodeEntries(es));
    ObjHeaderBack(h, b, i, |es|);
    assert [] + es == es;
    ReadBackEntries(h, b, i + |ObjHeader(|es|)|, es, []);
  }

  lemma {:induction false} ReadBackAll(h: Host, b: seq<Byte>, i: nat, items: seq<Value>, out: seq<Value>)
    requires forall k :: 0 <= k < |items| ==> IsJson(items[k]) && Representable(items[k])
    requires At(b, i, EncodeAll(items))
    ensures ReadArr(h, b, i, |items|, out) == Ok((Arr(out + items), i + |EncodeAll(items)|))
    decreases items, 0
  {
    hide Read, Encode, IsJson, Representable;
    if items == [] {
      assert out + items == out;
    } else {
      AtSplit(b, i, Encode(items[0]), EncodeAll(items[1..]));
      ReadBack(h, b, i, items[0]);
      ReadBackAll(h, b, i + |Encode(items[0])|, items[1..], out + [items[0]]);
      assert out + [items[0]] + items[1..] == out + items;
    }
  }

  lemma {:induction false} ReadBackEntries(h: Host, b: seq<Byte>, i: nat, es: seq<Entry>, out: seq<Entry>)
    requires forall k :: 0 <= k < |es| ==> IsJson(es[k].value) && Representable(es[k].value)
    requires forall k :: 0 <= k < |es| ==> ValidUtf8(es[k].key) && |es[k].key| <= 65535
    requires Sorted(out + es)
    requires At(b, i, EncodeEntries(es))
    ensures ReadMap(h, b, i, |es|, out) == Ok((Obj(out + es), i + |EncodeEntries(es)|))
    decreases es, 1
  {
    hide Read, ReadMap, Sorted, Insert, Encode, EncodeStr, IsJson, Representable, ValidUtf8;
    if es == [] {
      assert out + es == out;
      ReadMapDone(h, b, i, out);
    } else {
      var e := es[0];
      var j, j' := EntryBack(h, b, i, es);
      ReadMapStep(h, b, i, |es|, out, Str(e.key), j, e.value, j', e.key);
      InsertNext(out, es);
      ReadBackEntries(h, b, j', es[1..], out + [e]);
    }
  }

  lemma InsertNext(out: seq<Entry>, es: seq<Entry>)
    requires es != [] && Sorted(out + es)
    ensures Insert(out, es[0].key, es[0].value) == out + [es[0]]
    ensures out + [es[0]] + es[1..] == out + es
  {
    hide KeyLess;
    var all := out + es;
    assert all[|out|] == es[0] && forall k :: 0 <= k < |out| ==> all[k] == out[k];
    InsertLast(out, es[0].key, es[0].value);
  }

  lemma ReadMapDone(h: Host, b: seq<Byte>, i: nat, out: seq<Entry>)
    requires i <= |b|
    ensures ReadMap(h, b, i, 0, out) == Ok((Obj(out), i))
  {
  }

  lemma ReadMapStep(h: Host, b: seq<Byte>, i: nat, len: nat, out: seq<Entry>,
                    k: Value, j: nat, v: Value, j': nat, key: Text)
    requires i <= |b| && j <= |b| && len > 0
    requires Read(h, b, i) == Ok((k, j)) && Read(h, b, j) == Ok((v, j')) && KeyText(h, k) == Some(key)
    ensures j' <= |b| && ReadMap(h, b, i, len, out) == ReadMap(h, b, j', len - 1, Insert(out, key, v))
  {
    hide Read, Insert;
  }

  /** The first entry's key and value, and where they end. */
  lemma {:induction false} EntryBack(h: Host, b: seq<Byte>, i: nat, es: seq<Entry>) returns (j: nat, j': nat)
    requires es != []
    requires forall k :: 0 <= k < |es| ==> IsJson(es[k].value) && Representable(es[k].value)
    requires ValidUtf8(es[0].key) && |es[0].key| <= 65535
    requires At(b, i, EncodeEntries(es))
    ensures j <= |b| && Read(h, b, i) == Ok((Str(es[0].key), j))
    ensures Read(h, b, j) == Ok((es[0].value, j'))
    ensures At(b, j', EncodeEntries(es[1..])) && j' + |EncodeEntries(es[1..])| == i + |EncodeEntries(es)|
    decreases es, 0
  {
    hide Read, Encode, EncodeStr, ValidUtf8;
    var e := es[0];
    var tail := Encode(e.value) + EncodeEntries(es[1..]);
    assert EncodeEntries(es) == EncodeStr(e.key) + tail;
    AtSplit(b, i, EncodeStr(e.key), tail);
    StrBack(h, b, i, e.key);
    j := i + |EncodeStr(e.key)|;
    AtSplit(b, j, Encode(e.value), EncodeEntries(es[1..]));
    ReadBack(h, b, j, e.value);
    j' := j + |Encode(e.value)|;
  }

  /** The round trip: reading what was written, followed by anything, gives the value and stops where it ends. */
  lemma RoundTrip(h: Host, v: Value, suffix: seq<Byte>)
    requires IsJson(v) && Representable(v)
    ensures Read(h, Encode(v) + suffix, 0) == Ok((v, |Encode(v)|))
  {
    hide Read, Encode, Representable, IsJson;
    assert (Encode(v) + suffix)[0..|Encode(v)|] == Encode(v);
    ReadBack(h, Encode(v) + suffix, 0, v);
  }

  // ---------- Exactly what round-trips ----------

  ghost predicate RoundTrips(h: Host, v: Value)
    requires IsJson(v)
  {
    forall suffix :: Read(h, Encode(v) + suffix, 0) == Ok((v, |Encode(v)|))
  }

  /** `v` and everything the writer writes on the way: elements, keys and member values. */
  ghost predicate AllRoundTrip(h: Host, v: Value)
    requires IsJson(v)
  {
    && RoundTrips(h, v)
    && match v
       case Arr(items) => forall k :: 0 <= k < |items| ==> AllRoundTrip(h, items[k])
       case Obj(es) => forall k :: 0 <= k < |es| ==> RoundTrips(h, Str(es[k].key)) && AllRoundTrip(h, es[k].value)
       case _ => true
  }

  /** The public round trip, which forgets where the reader stopped: the bytes written for `v` decode to `v`. */
  ghost predicate Survives(h: Host, v: Value)
    requires IsJson(v)
  {
    var r := Read(h, Encode(v), 0); r.Ok? && r.value.0 == v
  }

  /** An integer that is written in two bytes and read from the first of them. */
  predicate ReadShort(v: Value) {
    v.Int? && 128 <= v.i <= 255
  }

  /**
   A value over its own limit never reads back with the right cursor, whatever its parts are; and of such values only
   the integers from 128 to 255 read back at all.
   */
  lemma LimitIsSharp(h: Host, v: Value)
    requires IsJson(v) && !FitsHere(v)
    ensures Read(h, Encode(v), 0) != Ok((v, |Encode(v)|))
    ensures Survives(h, v) <==> ReadShort(v)
  {
    hide Read, ReadArr, ReadMap, ReadWord, EncodeAll, EncodeEntries, EncodeInt, ValidUtf8, Sorted;
    var e := Encode(v);
    match v
    case Int(n) => IntLimitIsSharp(h, n);
    case Str(s) =>
      HeaderWord(e, 0, 0xda, |s|);
      DispatchSized(h, e, 0, |s| % 65536);
    case Arr(items) =>
      HeaderWord(e, 0, 0xdc, |items|);
      DispatchSized(h, e, 0, |items| % 65536);
    case Obj(es) =>
      HeaderWord(e, 0, 0xde, |es|);
      DispatchSized(h, e, 0, |es| % 65536);
  }

  lemma IntLimitIsSharp(h: Host, n: int)
    requires -I64_MAX - 1 <= n <= U64_MAX && !(-128 <= n <= 127 || 256 <= n <= 65535)
    ensures var r := Read(h, EncodeInt(n), 0);
            r != Ok((Int(n), |EncodeInt(n)|)) && (r.Ok? && r.value.0 == Int(n) <==> 128 <= n <= 255)
  {
    hide Read, ReadArr, ReadMap, ReadWord;
    var e := EncodeInt(n);
    Dispatch(h, e, 0);
    if 65535 < n <= I64_MAX {
      HeaderWord(e, 0, 0xcd, n);
    } else if n < 0 {
      ByteWord(e, 0, 0xd0, n % 256);
    }
  }

  lemma OverLimitFails(h: Host, v: Value)
    requires IsJson(v) && !FitsHere(v)
    ensures !RoundTrips(h, v)
  {
    hide Read, Encode;
    assert Encode(v) + [] == Encode(v);
    LimitIsSharp(h, v);
  }

  /** The format carries a JSON value and all its parts faithfully exactly when every part is within its limit. */
  lemma {:induction false} RoundTripsIffRepresentable(h: Host, v: Value)
    requires IsJson(v)
    ensures AllRoundTrip(h, v) <==> Representable(v)
  {
    if Representable(v) {
      forall suffix
        ensures Read(h, Encode(v) + suffix, 0) == Ok((v, |Encode(v)|))
      {
        RoundTrip(h, v, suffix);
      }
    }
    if !FitsHere(v) {
      OverLimitFails(h, v);
    }
    hide RoundTrips, FitsHere, Encode, Read;
    match v
    case Arr(items) =>
      forall k | 0 <= k < |items|
        ensures AllRoundTrip(h, items[k]) <==> Representable(items[k])
      {
        RoundTripsIffRepresentable(h, items[k]);
      }
    case Obj(es) =>
      forall k | 0 <= k < |es|
        ensures RoundTrips(h, Str(es[k].key)) <==> |es[k].key| <= 65535
        ensures AllRoundTrip(h, es[k].value) <==> Representable(es[k].value)
      {
        KeyRoundTripsIff(h, es[k].key);
        RoundTripsIffRepresentable(h, es[k].value);
      }
    case _ =>
  }

  /**
   A value alone can round-trip although a part of it does not: reading 208 leaves its byte 0xd0 behind, which happens
   to announce a one-byte integer, and the 5 that follows is read as that integer.
   */
  lemma LuckyRoundTrip(h: Host)
    ensures var v := Arr([Int(208), Int(5)]);
            && IsJson(v) && !Representable(v)
            && Encode(v) == [0x92, 0xcc, 208, 5]
            && RoundTrips(h, v) && !RoundTrips(h, Int(208))
  {
    var v := Arr([Int(208), Int(5)]);
    assert !Representable(v) by {
      assert v.items[0] == Int(208);
    }
    assert EncodeAll([Int(208), Int(5)][1..]) == [5] by {
      assert [Int(208), Int(5)][1..] == [Int(5)] && [Int(5)][1..] == [];
    }
    assert Encode(v) == [0x92] + ([0xcc, 208] + [5]);
    OverLimitFails(h, Int(208));
    forall suffix: seq<Byte>
      ensures Read(h, Encode(v) + suffix, 0) == Ok((v, 4))
    {
      LuckyRead(h, Encode(v) + suffix);
    }
  }

  lemma {:induction false} LuckyRead(h: Host, b: seq<Byte>)
    requires |b| >= 4 && b[..4] == [0x92, 0xcc, 208, 5]
    ensures Read(h, b, 0) == Ok((Arr([Int(208), Int(5)]), 4))
  {
    assert b[0] == 0x92 && b[1] == 0xcc && b[2] == 208 && b[3] == 5;
    Dispatch(h, b, 0);
    Dispatch(h, b, 1);
    Dispatch(h, b, 2);
    ByteWord(b, 2, 208, 5);
    hide ReadHead, Read;
    assert [] + [Int(208)] == [Int(208)] && [Int(208)] + [Int(5)] == [Int(208), Int(5)];
    assert Read(h, b, 1) == Ok((Int(208), 2)) && Read(h, b, 2) == Ok((Int(5), 4));
    assert ReadArr(h, b, 4, 0, [Int(208), Int(5)]) == Ok((Arr([Int(208), Int(5)]), 4));
    assert ReadArr(h, b, 2, 1, [Int(208)]) == Ok((Arr([Int(208), Int(5)]), 4));
  }

  // ---------- The public round trip ----------

  /** All parts are representable, except that the last one written may be an integer from 128 to 255. */
  predicate RepresentableButLast(v: Value) {
    || Representable(v)
    || ReadShort(v)
    || (&& FitsHere(v)
        && match v
           case Arr(items) =>
             && items != []
             && (forall k :: 0 <= k < |items| - 1 ==> Representable(items[k]))
             && RepresentableButLast(items[|items| - 1])
           case Obj(es) =>
             && es != []
             && (forall k :: 0 <= k < |es| ==> |es[k].key| <= 65535)
             && (forall k :: 0 <= k < |es| - 1 ==> Representable(es[k].value))
             && RepresentableButLast(es[|es| - 1].value)
           case _ => false)
  }

  /** Written bytes, wherever they stand, read as the value, though the cursor may end a byte early. */
  lemma {:induction false} ValueBack(h: Host, b: seq<Byte>, i: nat, v: Value)
    requires IsJson(v) && RepresentableButLast(v) && At(b, i, Encode(v))
    ensures Read(h, b, i).Ok? && Read(h, b, i).value.0 == v
    decreases v, 1
  {
    hide Read, EncodeAll, EncodeEntries, ArrHeader, ObjHeader, Sorted, ValidUtf8, At;
    if Representable(v) {
      ReadBack(h, b, i, v);
    } else {
      match v
      case Int(n) => ShortBack(h, b, i, n);
      case Arr(items) => ArrValueBack(h, b, i, items);
      case Obj(es) => ObjValueBack(h, b, i, es);
    }
  }

  lemma {:induction false} ArrValueBack(h: Host, b: seq<Byte>, i: nat, items: seq<Value>)
    requires 0 < |items| <= 65535 && forall k :: 0 <= k < |items| ==> IsJson(items[k])
    requires forall k :: 0 <= k < |items| - 1 ==> Representable(items[k])
    requires RepresentableButLast(items[|items| - 1]) && At(b, i, ArrHeader(|items|) + EncodeAll(items))
    ensures Read(h, b, i).Ok? && Read(h, b, i).value.0 == Arr(items)
    decreases items, 1
  {
    hide Read, ReadArr, EncodeAll, ArrHeader, IsJson, Representable, RepresentableButLast;
    AtSplit(b, i, ArrHeader(|items|), EncodeAll(items));
    ArrHeaderBack(h, b, i, |items|);
    ItemsBack(h, b, i + |ArrHeader(|items|)|, items, []);
    assert [] + items == items;
  }

  lemma {:induction false} ObjValueBack(h: Host, b: seq<Byte>, i: nat, es: seq<Entry>)
    requires 0 < |es| <= 65535 && forall k :: 0 <= k < |es| ==> IsJson(es[k].value)
    requires forall k :: 0 <= k < |es| ==> ValidUtf8(es[k].key) && |es[k].key| <= 65535
    requires forall k :: 0 <= k < |es| - 1 ==> Representable(es[k].value)
    requires RepresentableButLast(es[|es| - 1].value) && Sorted(es) && At(b, i, ObjHeader(|es|) + EncodeEntries(es))
    ensures Read(h, b, i).Ok? && Read(h, b, i).value.0 == Obj(es)
    decreases es, 1
  {
    hide Read, ReadMap, EncodeEntries, ObjHeader, IsJson, Representable, RepresentableButLast, ValidUtf8, Sorted;
    AtSplit(b, i, ObjHeader(|es|), EncodeEntries(es));
    ObjHeaderBack(h, b, i, |es|);
    assert [] + es == es;
    MembersBack(h, b, i + |ObjHeader(|es|)|, es, []);
  }

  lemma ShortBack(h: Host, b: seq<Byte>, i: nat, n: int)
    requires 128 <= n <= 255 && At(b, i, EncodeInt(n))
    ensures Read(h, b, i) == Ok((Int(n), i + 1))
  {
    hide Read, ReadArr, ReadMap, ReadWord;
    var e := EncodeInt(n);
    assert b[i] == b[i..i + |e|][0] == e[0] && b[i + 1] == b[i..i + |e|][1] == e[1];
    Dispatch(h, b, i);
  }

  lemma {:induction false} ItemsBack(h: Host, b: seq<Byte>, i: nat, items: seq<Value>, out: seq<Value>)
    requires items != [] && forall k :: 0 <= k < |items| ==> IsJson(items[k])
    requires forall k :: 0 <= k < |items| - 1 ==> Representable(items[k])
    requires RepresentableButLast(items[|items| - 1]) && At(b, i, EncodeAll(items))
    ensures var r := ReadArr(h, b, i, |items|, out); r.Ok? && r.value.0 == Arr(out + items)
    decreases items, 0
  {
    hide Read, Encode, IsJson, Representable, RepresentableButLast;
    AtSplit(b, i, Encode(items[0]), EncodeAll(items[1..]));
    assert out + [items[0]] + items[1..] == out + items;
    if |items| == 1 {
      ValueBack(h, b, i, items[0]);
      var j := Read(h, b, i).value.1;
      assert ReadArr(h, b, j, 0, out + [items[0]]) == Ok((Arr(out + [items[0]]), j));
    } else {
      ReadBack(h, b, i, items[0]);
      ItemsBack(h, b, i + |Encode(items[0])|, items[1..], out + [items[0]]);
    }
  }

  lemma {:induction false} MembersBack(h: Host, b: seq<Byte>, i: nat, es: seq<Entry>, out: seq<Entry>)
    requires es != [] && forall k :: 0 <= k < |es| ==> IsJson(es[k].value)
    requires forall k :: 0 <= k < |es| ==> ValidUtf8(es[k].key) && |es[k].key| <= 65535
    requires forall k :: 0 <= k < |es| - 1 ==> Representable(es[k].value)
    requires RepresentableButLast(es[|es| - 1].value) && Sorted(out + es) && At(b, i, EncodeEntries(es))
    ensures var r := ReadMap(h, b, i, |es|, out); r.Ok? && r.value.0 == Obj(out + es)
    decreases es, 0
  {
    hide Read, ReadMap, Sorted, Insert, Encode, EncodeStr, IsJson, Representable, RepresentableButLast, ValidUtf8;
    var e, rest := es[0], es[1..];
    AtSplit(b, i, EncodeStr(e.key) + Encode(e.value), EncodeEntries(rest));
    AtSplit(b, i, EncodeStr(e.key), Encode(e.value));
    StrBack(h, b, i, e.key);
    var j := i + |EncodeStr(e.key)|;
    InsertNext(out, es);
    if |es| == 1 {
      ValueBack(h, b, j, e.value);
      var j' := Read(h, b, j).value.1;
      ReadMapStep(h, b, i, 1, out, Str(e.key), j, e.value, j', e.key);
      ReadMapDone(h, b, j', out + [e]);
    } else {
      ReadBack(h, b, j, e.value);
      var j' := j + |Encode(e.value)|;
      ReadMapStep(h, b, i, |es|, out, Str(e.key), j, e.value, j', e.key);
      MembersBack(h, b, j', rest, out + [e]);
    }
  }

  /** What is written decodes to the value when only the last leaf may be an integer that is read short. */
  lemma PublicRoundTrip(h: Host, v: Value)
    requires IsJson(v) && RepresentableButLast(v)
    ensures Survives(h, v)
  {
    hide Read, Encode, RepresentableButLast, IsJson;
    assert Encode(v)[0..|Encode(v)|] == Encode(v);
    ValueBack(h, Encode(v), 0, v);
  }

  lemma KeyRoundTripsIff(h: Host, key: Text)
    requires ValidUtf8(key)
    ensures RoundTrips(h, Str(key)) <==> |key| <= 65535
  {
    if |key| <= 65535 {
      forall suffix
        ensures Read(h, Encode(Str(key)) + suffix, 0) == Ok((Str(key), |Encode(Str(key))|))
      {
        RoundTrip(h, Str(key), suffix);
      }
    } else {
      OverLimitFails(h, Str(key));
    }
  }

  // ---------- What the reader can return ----------

  lemma {:induction false} KeyLessTransitive(a: Text, b: Text, c: Text)
    requires KeyLess(a, b) && KeyLess(b, c)
    ensures KeyLess(a, c)
    decreases |a|
  {
    if a != [] && a[0] == b[0] && b[0] == c[0] {
      KeyLessTransitive(a[1..], b[1..], c[1..]);
    }
  }

  lemma {:induction false} KeyLessTotal(a: Text, b: Text)
    ensures a == b || KeyLess(a, b) || KeyLess(b, a)
    decreases |a|
  {
    if a != [] && b != [] && a[0] == b[0] {
      KeyLessTotal(a[1..], b[1..]);
      assert a == [a[0]] + a[1..] && b == [b[0]] + b[1..];
    }
  }

  /** Insertion is map update: the list stays sorted and only the entry of that key changes. */
  lemma {:induction false} InsertIsUpdate(es: seq<Entry>, key: Text, value: Value)
    requires Sorted(es)
    ensures Sorted(Insert(es, key, value))
    ensures forall e :: e in Insert(es, key, value) <==> e == Entry(key, value) || (e in es && e.key != key)
  {
    if es != [] {
      var first, rest := es[0], es[1..];
      SortedTail(es);
      hide KeyLess, Sorted;
      if first.key == key {
        FirstIsLeast(key, rest);
        SortedPrepend(Entry(key, value), rest);
      } else if KeyLess(key, first.key) {
        forall e | e in es
          ensures KeyLess(key, e.key)
        {
          if e != first {
            KeyLessTransitive(key, first.key, e.key);
          }
        }
        FirstIsLeast(key, es);
        SortedPrepend(Entry(key, value), es);
      } else {
        KeyLessTotal(key, first.key);
        InsertIsUpdate(rest, key, value);
        SortedPrepend(first, Insert(rest, key, value));
      }
    } else {
      assert Insert(es, key, value) == [Entry(key, value)];
    }
  }

  lemma SortedTail(es: seq<Entry>)
    requires Sorted(es) && es != []
    ensures es == [es[0]] + es[1..] && Sorted(es[1..])
    ensures forall e :: e in es[1..] ==> KeyLess(es[0].key, e.key)
  {
    hide KeyLess;
    forall i, j | 0 <= i < j < |es[1..]|
      ensures KeyLess(es[1..][i].key, es[1..][j].key)
    {
      assert es[1..][i] == es[i + 1] && es[1..][j] == es[j + 1];
    }
  }

  lemma SortedPrepend(first: Entry, rest: seq<Entry>)
    requires Sorted(rest) && forall e :: e in rest ==> KeyLess(first.key, e.key)
    ensures Sorted([first] + rest)
  {
    hide KeyLess;
  }

  lemma FirstIsLeast(key: Text, es: seq<Entry>)
    requires forall e :: e in es ==> KeyLess(key, e.key)
    ensures forall e :: e in es ==> e.key != key
  {
    forall e | e in es
      ensures e.key != key
    {
      KeyLessAsymmetric(key, e.key);
    }
  }

  lemma {:induction false} BigEndianBound(bs: seq<Byte>)
    ensures BitStrings.BigEndian(bs) < Pow(256, |bs|)
  {
    if bs != [] {
      BigEndianBound(bs[..|bs| - 1]);
    }
  }

  /** The delegated conversions produce text and JSON numbers. */
  ghost predicate HostOk(h: Host) {
    && (forall v :: ValidUtf8(h.numberText(v)))
    && (forall bs :: IsJson(h.widen(bs)))
  }

  lemma WordRange(b: seq<Byte>, i: nat, width: nat)
    requires i <= |b| && width <= 8
    ensures var r := ReadWord(b, i, width);
            r.Ok? ==> r.value.0 <= U64_MAX && (width <= 4 ==> r.value.0 < 0x1_0000_0000)
                      && (width <= 2 ==> r.value.0 < 0x1_0000) && (width <= 1 ==> r.value.0 < 0x100)
  {
    if i + width <= |b| {
      BigEndianBound(b[i..i + width]);
      assert Pow(256, 0) == 1 && Pow(256, 1) == 0x100 && Pow(256, 2) == 0x1_0000 && Pow(256, 3) == 0x100_0000;
      assert Pow(256, 4) == 0x1_0000_0000 && Pow(256, 5) == 0x100_0000_0000 && Pow(256, 6) == 0x1_0000_0000_0000;
      assert Pow(256, 7) == 0x100_0000_0000_0000 && Pow(256, 8) == 0x1_0000_0000_0000_0000;
    }
  }

  ghost predicate JsonOrError(r: ReadResult) {
    r.Ok? ==> IsJson(r.value.0)
  }

  lemma WordIsJson(b: seq<Byte>, i: nat, width: nat, half: nat)
    requires i <= |b|
    requires (width, half) in {(1, 0x80), (2, 0x8000), (4, 0x8000_0000), (8, 0x8000_0000_0000_0000)}
    ensures JsonOrError(ReadUnsigned(b, i, width)) && JsonOrError(ReadSigned(b, i, width, half))
  {
    WordRange(b, i, width);
    hide ReadWord;
  }

  lemma StrIsJson(b: seq<Byte>)
    ensures forall i: nat, len: nat :: i <= |b| ==> JsonOrError(ReadStr(b, i, len))
    ensures forall i: nat, width: nat, body :: i <= |b| && Sized(b, i, width, body).Done? ==>
              JsonOrError(Sized(b, i, width, body).result)
  {
    hide ReadWord, ValidUtf8;
  }

  lemma ScalarsAreJson(h: Host)
    requires HostOk(h)
    ensures IsJson(Null) && IsJson(Bool(true)) && IsJson(Bool(false))
    ensures forall i :: -128 <= i <= 255 ==> IsJson(Int(i))
    ensures forall bs: seq<Byte> :: IsJson(h.widen(bs)) && IsJson(FloatOrNull(bs))
  {
    hide ValidUtf8;
  }

  lemma HeadIsJson(h: Host, b: seq<Byte>, i: nat)
    requires i <= |b| && HostOk(h)
    ensures var r := ReadHead(h, b, i); r.Done? ==> JsonOrError(r.result)
  {
    if i < |b| && 0xc0 <= b[i] <= 0xd3 {
      FixedHeadIsJson(h, b, i);
    } else if i < |b| {
      OtherHeadIsJson(h, b, i);
    }
    hide HostOk, IsJson;
  }

  lemma FixedHeadIsJson(h: Host, b: seq<Byte>, i: nat)
    requires i < |b| && HostOk(h) && 0xc0 <= b[i] <= 0xd3
    ensures var r := ReadHead(h, b, i); r.Done? ==> JsonOrError(r.result)
  {
    hide HostOk, IsJson, ReadUnsigned, ReadSigned, ReadStr, Sized, FloatOrNull;
    WordIsJson(b, i + 1, 1, 0x80);
    WordIsJson(b, i + 1, 2, 0x8000);
    WordIsJson(b, i + 1, 4, 0x8000_0000);
    WordIsJson(b, i + 1, 8, 0x8000_0000_0000_0000);
    ScalarsAreJson(h);
  }

  lemma OtherHeadIsJson(h: Host, b: seq<Byte>, i: nat)
    requires i < |b| && HostOk(h) && !(0xc0 <= b[i] <= 0xd3)
    ensures var r := ReadHead(h, b, i); r.Done? ==> JsonOrError(r.result)
  {
    hide HostOk, IsJson, ReadUnsigned, ReadSigned, ReadStr, Sized, FloatOrNull;
    StrIsJson(b);
    ScalarsAreJson(h);
  }

  /** Whatever bytes it is given, the reader fails or returns a JSON value, which the writer accepts. */
  lemma {:induction false} ReadIsJson(h: Host, b: seq<Byte>, i: nat)
    requires i <= |b| && HostOk(h)
    ensures Read(h, b, i).Ok? ==> IsJson(Read(h, b, i).value.0)
    decreases |b| - i, 0, 0
  {
    HeadIsJson(h, b, i);
    hide ReadHead, ReadArr, ReadMap, HostOk, IsJson;
    NothingIsJson();
    match ReadHead(h, b, i)
    case Done(_) =>
    case Items(len, j) => ReadArrIsJson(h, b, j, len, []);
    case Members(len, j) => ReadMapIsJson(h, b, j, len, []);
  }

  lemma NothingIsJson()
    ensures IsJson(Arr([])) && IsJson(Obj([]))
  {
  }

  lemma {:induction false} ReadArrIsJson(h: Host, b: seq<Byte>, i: nat, len: nat, out: seq<Value>)
    requires i <= |b| && HostOk(h) && IsJson(Arr(out))
    ensures var r := ReadArr(h, b, i, len, out); r.Ok? ==> IsJson(r.value.0)
    decreases |b| - i, 1, len
  {
    hide Read, HostOk;
    if len > 0 {
      ReadIsJson(h, b, i);
      match Read(h, b, i)
      case Err(_) =>
      case Ok((v, j)) => ReadArrIsJson(h, b, j, len - 1, out + [v]);
    }
  }

  lemma {:induction false} ReadMapIsJson(h: Host, b: seq<Byte>, i: nat, len: nat, out: seq<Entry>)
    requires i <= |b| && HostOk(h) && IsJson(Obj(out))
    ensures var r := ReadMap(h, b, i, len, out); r.Ok? ==> IsJson(r.value.0)
    decreases |b| - i, 1, len
  {
    hide Read, HostOk, IsJson, Insert, KeyText;
    if len > 0 {
      ReadIsJson(h, b, i);
      match Read(h, b, i)
      case Err(_) =>
      case Ok((k, j)) =>
        ReadIsJson(h, b, j);
        match Read(h, b, j)
        case Err(_) =>
        case Ok((v, j')) =>
          match KeyText(h, k)
          case None =>
          case Some(key) =>
            InsertIsJson(h, out, k, key, v);
            ReadMapIsJson(h, b, j', len - 1, Insert(out, key, v));
    }
  }

  lemma {:induction false} InsertIsJson(h: Host, out: seq<Entry>, k: Value, key: Text, v: Value)
    requires HostOk(h) && IsJson(Obj(out)) && IsJson(k) && IsJson(v) && KeyText(h, k) == Some(key)
    ensures IsJson(Obj(Insert(out, key, v)))
  {
    hide Sorted;
    InsertIsUpdate(out, key, v);
    var r := Insert(out, key, v);
    forall n | 0 <= n < |r|
      ensures ValidUtf8(r[n].key) && IsJson(r[n].value)
    {
      assert r[n] in r;
    }
  }

  // ---------- The loops ----------

  lemma {:induction false} EncodeAllAppend(items: seq<Value>, v: Value)
    requires forall k :: 0 <= k < |items| ==> IsJson(items[k])
    requires IsJson(v)
    ensures EncodeAll(items + [v]) == EncodeAll(items) + Encode(v)
  {
    hide Encode, IsJson;
    if items == [] {
      assert ([] + [v])[1..] == [];
    } else {
      assert (items + [v])[1..] == items[1..] + [v];
      EncodeAllAppend(items[1..], v);
    }
  }

  lemma {:induction false} EncodeEntriesAppend(es: seq<Entry>, e: Entry)
    requires forall k :: 0 <= k < |es| ==> IsJson(es[k].value)
    requires IsJson(e.value)
    ensures EncodeEntries(es + [e]) == EncodeEntries(es) + (EncodeStr(e.key) + Encode(e.value))
  {
    hide Encode, EncodeStr, IsJson;
    if es == [] {
      assert ([] + [e])[1..] == [];
    } else {
      assert (es + [e])[1..] == es[1..] + [e];
      EncodeEntriesAppend(es[1..], e);
    }
  }

  method WriteValue(out: seq<Byte>, v: Value) returns (out': seq<Byte>)
    requires IsJson(v)
    ensures out' == out + Encode(v)
    decreases v, 1
  {
    match v
    case Null => out' := out + [0xc0];
    case Bool(b) => out' := out + [if b then 0xc3 else 0xc2];
    case Int(i) => out' := out + EncodeInt(i);
    case Float(bits) => out' := out + [0xcb] + bits;
    case Str(s) => out' := WriteStr(out, s);
    case Arr(items) =>
      out' := WriteItems(out + ArrHeader(|items|), items);
    case Obj(es) =>
      out' := WriteEntries(out + ObjHeader(|es|), es);
  }

  method WriteStr(out: seq<Byte>, s: Text) returns (out': seq<Byte>)
    ensures out' == out + EncodeStr(s)
  {
    out' := out + StrHeader(|s|) + s;
  }

  method WriteItems(out: seq<Byte>, items: seq<Value>) returns (out': seq<Byte>)
    requires forall k :: 0 <= k < |items| ==> IsJson(items[k])
    ensures out' == out + EncodeAll(items)
    decreases items, 0
  {
    hide IsJson, Encode;
    out' := out;
    for k := 0 to |items|
      invariant out' == out + EncodeAll(items[..k])
    {
      out' := WriteValue(out', items[k]);
      assert items[..k + 1] == items[..k] + [items[k]];
      EncodeAllAppend(items[..k], items[k]);
    }
    assert items[..|items|] == items;
  }

  method WriteEntries(out: seq<Byte>, es: seq<Entry>) returns (out': seq<Byte>)
    requires forall k :: 0 <= k < |es| ==> IsJson(es[k].value)
    ensures out' == out + EncodeEntries(es)
    decreases es, 0
  {
    hide IsJson, Encode, EncodeStr;
    out' := out;
    for k := 0 to |es|
      invariant out' == out + EncodeEntries(es[..k])
    {
      out' := WriteStr(out', es[k].key);
      out' := WriteValue(out', es[k].value);
      assert es[..k + 1] == es[..k] + [es[k]];
      EncodeEntriesAppend(es[..k], es[k]);
    }
    assert es[..|es|] == es;
  }

  method ReadValue(h: Host, b: seq<Byte>, i: nat) returns (r: ReadResult)
    requires i <= |b|
    ensures r == Read(h, b, i)
    decreases |b| - i, 0
  {
    hide ReadArr, ReadMap, ReadHead;
    match ReadHead(h, b, i)
    case Done(d) => r := d;
    case Items(len, j) => r := ReadItems(h, b, j, len);
    case Members(len, j) => r := ReadMembers(h, b, j, len);
  }

  method ReadItems(h: Host, b: seq<Byte>, i: nat, len: nat) returns (r: ReadResult)
    requires i <= |b|
    ensures r == ReadArr(h, b, i, len, [])
    decreases |b| - i, 1
  {
    hide Read;
    var out: seq<Value>, cursor := [], i;
    for k := 0 to len
      invariant i <= cursor <= |b|
      invariant ReadArr(h, b, i, len, []) == ReadArr(h, b, cursor, len - k, out)
    {
      var item := ReadValue(h, b, cursor);
      match item
      case Err(e) => return Err(e);
      case Ok((v, j)) => out, cursor := out + [v], j;
    }
    return Ok((Arr(out), cursor));
  }

  method ReadMembers(h: Host, b: seq<Byte>, i: nat, len: nat) returns (r: ReadResult)
    requires i <= |b|
    ensures r == ReadMap(h, b, i, len, [])
    decreases |b| - i, 1
  {
    hide Read, Insert;
    var out: seq<Entry>, cursor := [], i;
    for k := 0 to len
      invariant i <= cursor <= |b|
      invariant ReadMap(h, b, i, len, []) == ReadMap(h, b, cursor, len - k, out)
    {
      var key := ReadValue(h, b, cursor);
      if key.Err? {
        return Err(key.error);
      }
      var value := ReadValue(h, b, key.value.1);
      if value.Err? {
        return Err(value.error);
      }
      var text := KeyText(h, key.value.0);
      if text.None? {
        return Err(BadKey);
      }
      out, cursor := Insert(out, text.value, value.value.0), value.value.1;
    }
    return Ok((Obj(out), cursor));
  }
}
