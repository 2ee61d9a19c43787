/**
 The wire forms of the MessagePack subset, as a grammar of its own: every form a peer may choose for a value, not only
 those the writer chooses. The reader is proved against it. The 8-bit unsigned form, after which the cursor is one byte
 short, is treated apart.
 */
module WireForms {
  import opened Arithmetic
  import opened MessagePack
  import opened Wrappers

  datatype Row = Row(key: Wire, value: Wire)

  /** A form: `form` 0 keeps the length in the tag, otherwise it follows in that many bytes. */
  datatype Wire =
    | Nil
    | Truth(b: bool)
    | Small(n: int)
    | Unsigned(width: nat, u: nat)
    | Signed(width: nat, n: int)
    | Single(bits: seq<Byte>)
    | Double(bits: seq<Byte>)
    | Words(form: nat, s: Text)
    | List(form: nat, items: seq<Wire>)
    | Table(form: nat, rows: seq<Row>)

  // ---------- Bytes ----------

  /** The tags of the three kinds with a length: base and reach of the short form, and the longer forms by width. */
  predicate LengthOk(short: nat, form: nat, n: nat) {
    (form == 0 && n < short) || (form in {1, 2, 4} && n < Pow(256, form))
  }

  function WordsHead(form: nat, n: nat): seq<Byte>
    requires LengthOk(32, form, n)
  {
    if form == 0 then [0xa0 + n] else [if form == 1 then 0xd9 else if form == 2 then 0xda else 0xdb] + ToBytes(n, form)
  }

  function ListHead(form: nat, n: nat): seq<Byte>
    requires LengthOk(16, form, n) && form != 1
  {
    if form == 0 then [0x90 + n] else [if form == 2 then 0xdc else 0xdd] + ToBytes(n, form)
  }

  function TableHead(form: nat, n: nat): seq<Byte>
    requires LengthOk(16, form, n) && form != 1
  {
    if form == 0 then [0x80 + n] else [if form == 2 then 0xde else 0xdf] + ToBytes(n, form)
  }

  function UnsignedTag(width: nat): Byte {
    if width == 2 then 0xcd else if width == 4 then 0xce else 0xcf
  }

  function SignedTag(width: nat): Byte {
    if width == 1 then 0xd0 else if width == 2 then 0xd1 else if width == 4 then 0xd2 else 0xd3
  }

  /** The form is well made: numbers and lengths fit, text is UTF-8, keys are text or numbers. */
  predicate WellFormed(h: Host, w: Wire)
    decreases w, 1
  {
    match w
    case Nil => true
    case Truth(_) => true
    case Small(n) => -32 <= n <= 127
    case Unsigned(width, u) => width in {2, 4, 8} && u < Pow(256, width)
    case Signed(width, n) => width in {1, 2, 4, 8} && -2 * n <= Pow(256, width) && 2 * n < Pow(256, width)
    case Single(bits) => |bits| == 4
    case Double(bits) => |bits| == 8
    case Words(form, s) => LengthOk(32, form, |s|) && ValidUtf8(s)
    case List(form, items) =>
      LengthOk(16, form, |items|) && form != 1 && forall k :: 0 <= k < |items| ==> WellFormed(h, items[k])
    case Table(form, rows) =>
      && LengthOk(16, form, |rows|) && form != 1
      && forall k :: 0 <= k < |rows| ==>
           WellFormed(h, rows[k].key) && WellFormed(h, rows[k].value) && KeyText(h, Meaning(h, rows[k].key)).Some?
  }

  function Bytes(h: Host, w: Wire): seq<Byte>
    requires WellFormed(h, w)
    decreases w, 1
  {
    match w
    case Nil => [0xc0]
    case Truth(b) => [if b then 0xc3 else 0xc2]
    case Small(n) => [if n < 0 then n + 256 else n]
    case Unsigned(width, u) => [UnsignedTag(width)] + ToBytes(u, width)
    case Signed(width, n) => [SignedTag(width)] + ToBytes(if n < 0 then n + Pow(256, width) else n, width)
    case Single(bits) => [0xca] + bits
    case Double(bits) => [0xcb] + bits
    case Words(form, s) => WordsHead(form, |s|) + s
    case List(form, items) => ListHead(form, |items|) + AllBytes(h, items)
    case Table(form, rows) => TableHead(form, |rows|) + RowBytes(h, rows)
  }

  function AllBytes(h: Host, items: seq<Wire>): seq<Byte>
    requires forall k :: 0 <= k < |items| ==> WellFormed(h, items[k])
    decreases items, 0
  {
    if items == [] then [] else Bytes(h, items[0]) + AllBytes(h, items[1..])
  }

  function RowBytes(h: Host, rows: seq<Row>): seq<Byte>
    requires forall k :: 0 <= k < |rows| ==> WellFormed(h, rows[k].key) && WellFormed(h, rows[k].value)
    decreases rows, 0
  {
    if rows == [] then []
    else
      assert rows[0].key < rows[0] && rows[0].value < rows[0];
      Bytes(h, rows[0].key) + (Bytes(h, rows[0].value) + RowBytes(h, rows[1..]))
  }

  // ---------- Meaning ----------

  /** The JSON value a form stands for. */
  function Meaning(h: Host, w: Wire): Value
    decreases w, 0
  {
    match w
    case Nil => Null
    case Truth(b) => Bool(b)
    case Small(n) => Int(n)
    case Unsigned(_, u) => Int(u)
    case Signed(_, n) => Int(n)
    case Single(bits) => h.widen(bits)
    case Double(bits) => FloatOrNull(bits)
    case Words(_, s) => Str(s)
    case List(_, items) => Arr(Meanings(h, items))
    case Table(_, rows) => Obj(RowsInto(h, rows, []))
  }

  function Meanings(h: Host, items: seq<Wire>): seq<Value>
    decreases items
  {
    if items == [] then [] else [Meaning(h, items[0])] + Meanings(h, items[1..])
  }

  /** Rows put into a map one after the other; a repeated key takes the later value. */
  function RowsInto(h: Host, rows: seq<Row>, out: seq<Entry>): seq<Entry>
    decreases rows
  {
    if rows == [] then out
    else
      assert rows[0].key < rows[0] && rows[0].value < rows[0];
      match KeyText(h, Meaning(h, rows[0].key))
      case None => out
      case Some(key) => RowsInto(h, rows[1..], Insert(out, key, Meaning(h, rows[0].value)))
  }

  // ---------- Words ----------

  /** Bytes of a number, most significant first. */
  lemma {:induction false} ByteAt(n: nat, width: nat, k: nat)
    requires k < width
    ensures ToBytes(n, width)[k] as nat == n / Pow(256, width - 1 - k) % 256
  {
    if k < width - 1 {
      ByteAt(n / 256, width - 1, k);
      DivideTwice(n, 256, Pow(256, width - 2 - k));
    }
  }

  lemma DivideTwice(n: nat, a: nat, b: nat)
    requires a > 0 && b > 0
    ensures a * b > 0 && n / (a * b) == n / a / b
  {
    MulMono(1, b, a);
    var q, r := n / a, n % a;
    var t, u := q / b, q % b;
    assert n == a * q + r && q == b * t + u;
    assert a * q == a * (b * t) + a * u;
    assert a * (b * t) == (a * b) * t;
    MulMono(u + 1, b, a);
    assert a * (u + 1) == a * u + a;
    DivIs(n, a * b, t, a * u + r);
  }

  lemma {:induction false} WordBack(n: nat, width: nat)
    requires n < Pow(256, width)
    ensures BitStrings.BigEndian(ToBytes(n, width)) == n
  {
    if width > 0 {
      WordBack(n / 256, width - 1);
      var bs := ToBytes(n, width);
      assert bs[..|bs| - 1] == ToBytes(n / 256, width - 1);
    }
  }

  lemma WordAt(b: seq<Byte>, i: nat, tag: Byte, n: nat, width: nat)
    requires n < Pow(256, width) && At(b, i, [tag] + ToBytes(n, width))
    ensures i < |b| && b[i] == tag && ReadWord(b, i + 1, width) == Ok((n, i + 1 + width))
  {
    hide ToBytes;
    AtSplit(b, i, [tag], ToBytes(n, width));
    assert b[i] == b[i..i + 1][0];
    WordBack(n, width);
  }

  lemma Widths()
    ensures Pow(256, 0) == 1 && Pow(256, 1) == 0x100 && Pow(256, 2) == 0x1_0000 && Pow(256, 4) == 0x1_0000_0000
    ensures Pow(256, 8) == 0x1_0000_0000_0000_0000
  {
    assert Pow(256, 3) == 0x100_0000 && Pow(256, 5) == 0x100_0000_0000;
    assert Pow(256, 6) == 0x1_0000_0000_0000 && Pow(256, 7) == 0x100_0000_0000_0000;
  }

  // ---------- The reader on one form ----------

  /** The reader's dispatch on every tag with a word, a float or a longer length behind it. */
  lemma DispatchWords(h: Host, b: seq<Byte>, i: nat)
    requires i < |b|
    ensures var c, j, r := b[i], i + 1, Read(h, b, i);
            && (c == 0xca && j + 4 <= |b| ==> r == Ok((h.widen(b[j..j + 4]), j + 4)))
            && (c == 0xcd ==> r == ReadUnsigned(b, j, 2))
            && (c == 0xce ==> r == ReadUnsigned(b, j, 4))
            && (c == 0xcf ==> r == ReadUnsigned(b, j, 8))
            && (c == 0xd0 ==> r == ReadSigned(b, j, 1, 0x80))
            && (c == 0xd1 ==> r == ReadSigned(b, j, 2, 0x8000))
            && (c == 0xd2 ==> r == ReadSigned(b, j, 4, 0x8000_0000))
            && (c == 0xd3 ==> r == ReadSigned(b, j, 8, 0x8000_0000_0000_0000))
  {
    hide ReadArr, ReadMap, ReadStr, ReadUnsigned, ReadSigned;
  }

  lemma DispatchLength(h: Host, b: seq<Byte>, i: nat, width: nat, len: nat)
    requires i < |b| && width in {1, 2, 4} && ReadWord(b, i + 1, width) == Ok((len, i + 1 + width))
    ensures var c, r, j := b[i], Read(h, b, i), i + 1 + width;
            && j <= |b|
            && (width == 1 && c == 0xd9 ==> r == ReadStr(b, j, len))
            && (width == 2 && c == 0xda ==> r == ReadStr(b, j, len))
            && (width == 4 && c == 0xdb ==> r == ReadStr(b, j, len))
            && (width == 2 && c == 0xdc ==> r == ReadArr(h, b, j, len, []))
            && (width == 4 && c == 0xdd ==> r == ReadArr(h, b, j, len, []))
            && (width == 2 && c == 0xde ==> r == ReadMap(h, b, j, len, []))
            && (width == 4 && c == 0xdf ==> r == ReadMap(h, b, j, len, []))
  {
    if width == 1 {
      assert b[i + 1..i + 2] == [b[i + 1]] && [b[i + 1]][..0] == [];
      assert BitStrings.BigEndian([b[i + 1]]) == b[i + 1];
    }
    hide ReadArr, ReadMap, ReadStr, ReadWord, ReadUnsigned, ReadSigned;
  }

  /** Every unsigned form reads back by its number. */
  lemma UnsignedReads(h: Host, b: seq<Byte>, i: nat, width: nat, u: nat)
    requires width in {2, 4, 8} && u < Pow(256, width) && At(b, i, [UnsignedTag(width)] + ToBytes(u, width))
    ensures Read(h, b, i) == Ok((Int(u), i + 1 + width))
  {
    hide Read, ReadWord, ToBytes, Pow;
    WordAt(b, i, UnsignedTag(width), u, width);
    DispatchWords(h, b, i);
  }

  /** Every signed form reads back by its number, in two's complement. */
  lemma SignedReads(h: Host, b: seq<Byte>, i: nat, width: nat, n: int)
    requires width in {1, 2, 4, 8} && -2 * n <= Pow(256, width) && 2 * n < Pow(256, width)
    requires At(b, i, [SignedTag(width)] + ToBytes(if n < 0 then n + Pow(256, width) else n, width))
    ensures Read(h, b, i) == Ok((Int(n), i + 1 + width))
  {
    Widths();
    hide Read, ReadWord, ToBytes, Pow;
    WordAt(b, i, SignedTag(width), if n < 0 then n + Pow(256, width) else n, width);
    DispatchWords(h, b, i);
  }

  /** Both float forms take the bytes as they stand: four of them to the widening, eight as a double if it is finite. */
  lemma FloatReads(h: Host, b: seq<Byte>, i: nat, bits: seq<Byte>)
    ensures |bits| == 4 && At(b, i, [0xca] + bits) ==> Read(h, b, i) == Ok((h.widen(bits), i + 5))
    ensures |bits| == 8 && At(b, i, [0xcb] + bits) ==> Read(h, b, i) == Ok((FloatOrNull(bits), i + 9))
  {
    hide Read, ReadArr, ReadMap;
    if |bits| == 4 && At(b, i, [0xca] + bits) {
      AtSplit(b, i, [0xca], bits);
      assert b[i] == b[i..i + 1][0];
      DispatchWords(h, b, i);
    }
    if |bits| == 8 && At(b, i, [0xcb] + bits) {
      AtSplit(b, i, [0xcb], bits);
      assert b[i] == b[i..i + 1][0];
      Dispatch(h, b, i);
    }
  }

  /** The 8-bit unsigned form reads back by its number too, but the cursor stays on its byte. */
  lemma ByteReadsShort(h: Host, b: seq<Byte>, i: nat, x: Byte)
    requires At(b, i, [0xcc, x])
    ensures Read(h, b, i) == Ok((Int(x), i + 1))
  {
    hide Read, ReadArr, ReadMap;
    assert b[i] == b[i..i + 2][0] && b[i + 1] == b[i..i + 2][1];
    Dispatch(h, b, i);
  }

  /** The tags outside the subset are refused by name. */
  lemma UnsupportedTags(h: Host, b: seq<Byte>, i: nat)
    requires i < |b| && (b[i] == 0xc1 || 0xc4 <= b[i] <= 0xc9 || 0xd4 <= b[i] <= 0xd8)
    ensures Read(h, b, i) == Err(Unsupported(b[i]))
  {
  }

  lemma TinyReads(h: Host, b: seq<Byte>, i: nat, w: Wire)
    requires w.Nil? || w.Truth? || w.Small?
    requires WellFormed(h, w) && At(b, i, Bytes(h, w))
    ensures Read(h, b, i) == Ok((Meaning(h, w), i + 1)) && |Bytes(h, w)| == 1
  {
    hide Read, ReadArr, ReadMap;
    assert b[i] == b[i..i + 1][0];
    Dispatch(h, b, i);
  }

  lemma WordsRead(h: Host, b: seq<Byte>, i: nat, form: nat, s: Text)
    requires LengthOk(32, form, |s|) && ValidUtf8(s) && At(b, i, WordsHead(form, |s|) + s)
    ensures Read(h, b, i) == Ok((Str(s), i + |WordsHead(form, |s|)| + |s|))
  {
    hide Read, ReadStr, ReadWord, ToBytes, Pow, ValidUtf8;
    var hd := WordsHead(form, |s|);
    AtSplit(b, i, hd, s);
    ReadStrBack(b, i + |hd|, s);
    if form == 0 {
      assert b[i] == b[i..i + 1][0];
      Dispatch(h, b, i);
    } else {
      WordAt(b, i, hd[0], |s|, form);
      DispatchLength(h, b, i, form, |s|);
    }
  }

  lemma ListHeadReads(h: Host, b: seq<Byte>, i: nat, form: nat, n: nat)
    requires LengthOk(16, form, n) && form != 1 && At(b, i, ListHead(form, n))
    ensures Read(h, b, i) == ReadArr(h, b, i + |ListHead(form, n)|, n, [])
  {
    hide Read, ReadArr, ReadMap, ReadStr, ReadWord, ToBytes, Pow;
    var hd := ListHead(form, n);
    if form == 0 {
      assert b[i] == b[i..i + 1][0];
      Dispatch(h, b, i);
    } else {
      WordAt(b, i, hd[0], n, form);
      DispatchLength(h, b, i, form, n);
    }
  }

  lemma TableHeadReads(h: Host, b: seq<Byte>, i: nat, form: nat, n: nat)
    requires LengthOk(16, form, n) && form != 1 && At(b, i, TableHead(form, n))
    ensures Read(h, b, i) == ReadMap(h, b, i + |TableHead(form, n)|, n, [])
  {
    hide Read, ReadArr, ReadMap, ReadStr, ReadWord, ToBytes, Pow;
    var hd := TableHead(form, n);
    if form == 0 {
      assert b[i] == b[i..i + 1][0];
      Dispatch(h, b, i);
    } else {
      WordAt(b, i, hd[0], n, form);
      DispatchLength(h, b, i, form, n);
    }
  }

  // ---------- The reader on every form ----------

  /** Whatever forms a peer chooses, wherever they stand, the reader returns what they mean and stops where they end. */
  lemma {:induction false} FormReads(h: Host, b: seq<Byte>, i: nat, w: Wire)
    requires WellFormed(h, w) && At(b, i, Bytes(h, w))
    ensures Read(h, b, i) == Ok((Meaning(h, w), i + |Bytes(h, w)|))
    decreases w, 1
  {
    hide Read, ReadArr, ReadMap, AllBytes, RowBytes, ToBytes, Pow, ValidUtf8, WordsHead, ListHead, TableHead, Meanings,
      RowsInto;
    match w
    case Unsigned(width, u) => UnsignedReads(h, b, i, width, u);
    case Signed(width, n) => SignedReads(h, b, i, width, n);
    case Single(bits) => FloatReads(h, b, i, bits);
    case Double(bits) => FloatReads(h, b, i, bits);
    case Words(form, s) => WordsRead(h, b, i, form, s);
    case List(form, items) => ListReads(h, b, i, form, items);
    case Table(form, rows) => TableReads(h, b, i, form, rows);
    case _ => TinyReads(h, b, i, w);
  }

  lemma {:induction false} ListReads(h: Host, b: seq<Byte>, i: nat, form: nat, items: seq<Wire>)
    requires LengthOk(16, form, |items|) && form != 1 && forall k :: 0 <= k < |items| ==> WellFormed(h, items[k])
    requires At(b, i, ListHead(form, |items|) + AllBytes(h, items))
    ensures Read(h, b, i) == Ok((Arr(Meanings(h, items)), i + |ListHead(form, |items|) + AllBytes(h, items)|))
    decreases items, 1
  {
    hide Read, ReadArr, AllBytes, ListHead, WellFormed, Meanings, LengthOk;
    AtSplit(b, i, ListHead(form, |items|), AllBytes(h, items));
    ListHeadReads(h, b, i, form, |items|);
    ItemsRead(h, b, i + |ListHead(form, |items|)|, items, []);
    assert [] + Meanings(h, items) == Meanings(h, items);
  }

  lemma {:induction false} ItemsRead(h: Host, b: seq<Byte>, i: nat, items: seq<Wire>, out: seq<Value>)
    requires (forall k :: 0 <= k < |items| ==> WellFormed(h, items[k])) && At(b, i, AllBytes(h, items))
    ensures ReadArr(h, b, i, |items|, out) == Ok((Arr(out + Meanings(h, items)), i + |AllBytes(h, items)|))
    decreases items, 0
  {
    hide Read, Bytes, WellFormed, Meaning;
    if items == [] {
      assert out + [] == out;
    } else {
      var v := Meaning(h, items[0]);
      AtSplit(b, i, Bytes(h, items[0]), AllBytes(h, items[1..]));
      FormReads(h, b, i, items[0]);
      ItemsRead(h, b, i + |Bytes(h, items[0])|, items[1..], out + [v]);
      assert out + [v] + Meanings(h, items[1..]) == out + ([v] + Meanings(h, items[1..]));
    }
  }

  lemma {:induction false} TableReads(h: Host, b: seq<Byte>, i: nat, form: nat, rows: seq<Row>)
    requires LengthOk(16, form, |rows|) && form != 1
    requires forall k :: 0 <= k < |rows| ==>
               WellFormed(h, rows[k].key) && WellFormed(h, rows[k].value) && KeyText(h, Meaning(h, rows[k].key)).Some?
    requires At(b, i, TableHead(form, |rows|) + RowBytes(h, rows))
    ensures Read(h, b, i) == Ok((Obj(RowsInto(h, rows, [])), i + |TableHead(form, |rows|) + RowBytes(h, rows)|))
    decreases rows, 1
  {
    hide Read, ReadMap, RowBytes, TableHead, WellFormed, RowsInto, LengthOk, KeyText, Meaning;
    AtSplit(b, i, TableHead(form, |rows|), RowBytes(h, rows));
    TableHeadReads(h, b, i, form, |rows|);
    RowsRead(h, b, i + |TableHead(form, |rows|)|, rows, []);
  }

  lemma {:induction false} RowsRead(h: Host, b: seq<Byte>, i: nat, rows: seq<Row>, out: seq<Entry>)
    requires forall k :: 0 <= k < |rows| ==>
               WellFormed(h, rows[k].key) && WellFormed(h, rows[k].value) && KeyText(h, Meaning(h, rows[k].key)).Some?
    requires At(b, i, RowBytes(h, rows))
    ensures ReadMap(h, b, i, |rows|, out) == Ok((Obj(RowsInto(h, rows, out)), i + |RowBytes(h, rows)|))
    decreases rows, 0
  {
    hide Read, ReadMap, Bytes, WellFormed, Meaning, KeyText, Insert;
    if rows == [] {
      ReadMapDone(h, b, i, out);
    } else {
      assert rows[0].key < rows[0] && rows[0].value < rows[0];
      var k, v := Meaning(h, rows[0].key), Meaning(h, rows[0].value);
      var key := KeyText(h, k).value;
      var tail := Bytes(h, rows[0].value) + RowBytes(h, rows[1..]);
      AtSplit(b, i, Bytes(h, rows[0].key), tail);
      FormReads(h, b, i, rows[0].key);
      var j := i + |Bytes(h, rows[0].key)|;
      AtSplit(b, j, Bytes(h, rows[0].value), RowBytes(h, rows[1..]));
      FormReads(h, b, j, rows[0].value);
      var j' := j + |Bytes(h, rows[0].value)|;
      ReadMapStep(h, b, i, |rows|, out, k, j, v, j', key);
      RowsRead(h, b, j', rows[1..], Insert(out, key, v));
    }
  }

  /** Keys that are text stand for themselves, numbers for their text; anything else is refused. */
  lemma KeyForms(h: Host, b: seq<Byte>, i: nat, k: Value, j: nat, v: Value, j': nat, len: nat, out: seq<Entry>)
    requires i <= |b| && j <= |b| && len > 0 && Read(h, b, i) == Ok((k, j)) && Read(h, b, j) == Ok((v, j'))
    ensures k.Str? ==> ReadMap(h, b, i, len, out) == ReadMap(h, b, j', len - 1, Insert(out, k.s, v))
    ensures k.Int? || k.Float? ==> ReadMap(h, b, i, len, out) == ReadMap(h, b, j', len - 1, Insert(out, h.numberText(k), v))
    ensures k.Null? || k.Bool? || k.Arr? || k.Obj? ==> ReadMap(h, b, i, len, out) == Err(BadKey)
  {
    hide Read, Insert;
  }

  /** A string of the right length that is not UTF-8 is refused. */
  lemma BadTextIsRefused(h: Host, b: seq<Byte>, i: nat, form: nat, s: Text)
    requires LengthOk(32, form, |s|) && !ValidUtf8(s) && At(b, i, WordsHead(form, |s|) + s)
    ensures Read(h, b, i) == Err(BadUtf8)
  {
    hide Read, ReadWord, ToBytes, Pow, ValidUtf8, ReadArr, ReadMap;
    var hd := WordsHead(form, |s|);
    AtSplit(b, i, hd, s);
    if form == 0 {
      assert b[i] == b[i..i + 1][0];
      Dispatch(h, b, i);
    } else {
      WordAt(b, i, hd[0], |s|, form);
      DispatchLength(h, b, i, form, |s|);
    }
  }

  // ---------- Forms cut short ----------

  /** The buffer ends within `part`, which starts at `i`. */
  ghost predicate Cut(b: seq<Byte>, i: nat, part: seq<Byte>) {
    i <= |b| && |b| - i < |part| && b[i..] == part[..|b| - i]
  }

  lemma CutSplit(b: seq<Byte>, i: nat, x: seq<Byte>, y: seq<Byte>)
    requires Cut(b, i, x + y)
    ensures Cut(b, i, x) || (At(b, i, x) && Cut(b, i + |x|, y))
  {
    var n := |b| - i;
    if n < |x| {
      assert (x + y)[..n] == x[..n];
    } else {
      assert (x + y)[..n] == x + y[..n - |x|];
      assert b[i..][..|x|] == b[i..i + |x|] && b[i..][|x|..] == b[i + |x|..];
      assert (x + y[..n - |x|])[..|x|] == x && (x + y[..n - |x|])[|x|..] == y[..n - |x|];
    }
  }

  /** A tag whose word, float or length is not all there. */
  lemma ShortTail(h: Host, b: seq<Byte>, i: nat, width: nat)
    requires i < |b| < i + 1 + width
    ensures var c, r := b[i], Read(h, b, i);
            && (width == 1 && c in {0xd0, 0xd9} ==> r == Err(Truncated))
            && (width == 2 && c in {0xcd, 0xd1, 0xda, 0xdc, 0xde} ==> r == Err(Truncated))
            && (width == 4 && c in {0xca, 0xce, 0xd2, 0xdb, 0xdd, 0xdf} ==> r == Err(Truncated))
            && (width == 8 && c in {0xcb, 0xcf, 0xd3} ==> r == Err(Truncated))
  {
    hide ReadArr, ReadMap, ReadStr;
  }

  lemma CutTail(h: Host, b: seq<Byte>, i: nat, tag: Byte, tail: seq<Byte>)
    requires Cut(b, i, [tag] + tail)
    requires tag in (match |tail|
                     case 1 => {0xd0, 0xd9}
                     case 2 => {0xcd, 0xd1, 0xda, 0xdc, 0xde}
                     case 4 => {0xca, 0xce, 0xd2, 0xdb, 0xdd, 0xdf}
                     case 8 => {0xcb, 0xcf, 0xd3}
                     case _ => {})
    ensures Read(h, b, i) == Err(Truncated)
  {
    if i < |b| {
      assert b[i] == b[i..][0] == ([tag] + tail)[..|b| - i][0] == tag;
      ShortTail(h, b, i, |tail|);
    }
    hide ReadHead;
  }

  lemma HeadCut(h: Host, b: seq<Byte>, i: nat, one: Byte)
    requires Cut(b, i, [one])
    ensures Read(h, b, i) == Err(Truncated)
  {
  }

  lemma CutWords(h: Host, b: seq<Byte>, i: nat, form: nat, s: Text)
    requires LengthOk(32, form, |s|) && Cut(b, i, WordsHead(form, |s|) + s)
    ensures Read(h, b, i) == Err(Truncated)
  {
    hide Read, ReadWord, ToBytes, Pow, ReadArr, ReadMap;
    var hd := WordsHead(form, |s|);
    CutSplit(b, i, hd, s);
    if Cut(b, i, hd) {
      if form == 0 {
        HeadCut(h, b, i, hd[0]);
      } else {
        CutTail(h, b, i, hd[0], ToBytes(|s|, form));
      }
    } else if form == 0 {
      assert b[i] == b[i..i + 1][0];
      Dispatch(h, b, i);
    } else {
      WordAt(b, i, hd[0], |s|, form);
      DispatchLength(h, b, i, form, |s|);
    }
  }

  /** A form that is not all there is always reported as truncated, wherever the buffer ends. */
  lemma {:induction false} CutIsTruncated(h: Host, b: seq<Byte>, i: nat, w: Wire)
    requires WellFormed(h, w) && Cut(b, i, Bytes(h, w))
    ensures Read(h, b, i) == Err(Truncated)
    decreases w, 1
  {
    hide Read, AllBytes, RowBytes, ToBytes, Pow, ValidUtf8, WordsHead, ListHead, TableHead, Cut, Meaning;
    match w
    case Unsigned(width, u) => CutTail(h, b, i, UnsignedTag(width), ToBytes(u, width));
    case Signed(width, n) => CutTail(h, b, i, SignedTag(width), ToBytes(if n < 0 then n + Pow(256, width) else n, width));
    case Single(bits) => CutTail(h, b, i, 0xca, bits);
    case Double(bits) => CutTail(h, b, i, 0xcb, bits);
    case Words(form, s) => CutWords(h, b, i, form, s);
    case List(form, items) => CutList(h, b, i, form, items);
    case Table(form, rows) => CutTable(h, b, i, form, rows);
    case _ => HeadCut(h, b, i, Bytes(h, w)[0]);
  }

  lemma {:induction false} CutList(h: Host, b: seq<Byte>, i: nat, form: nat, items: seq<Wire>)
    requires LengthOk(16, form, |items|) && form != 1 && forall k :: 0 <= k < |items| ==> WellFormed(h, items[k])
    requires Cut(b, i, ListHead(form, |items|) + AllBytes(h, items))
    ensures Read(h, b, i) == Err(Truncated)
    decreases items, 1
  {
    hide Read, ReadArr, AllBytes, WellFormed, ToBytes, Pow, Cut;
    var hd := ListHead(form, |items|);
    CutSplit(b, i, hd, AllBytes(h, items));
    if Cut(b, i, hd) {
      if form == 0 {
        HeadCut(h, b, i, hd[0]);
      } else {
        CutTail(h, b, i, hd[0], ToBytes(|items|, form));
      }
    } else {
      ListHeadReads(h, b, i, form, |items|);
      CutItems(h, b, i + |hd|, items, []);
    }
  }

  lemma {:induction false} CutItems(h: Host, b: seq<Byte>, i: nat, items: seq<Wire>, out: seq<Value>)
    requires (forall k :: 0 <= k < |items| ==> WellFormed(h, items[k])) && Cut(b, i, AllBytes(h, items))
    ensures i <= |b| && ReadArr(h, b, i, |items|, out) == Err(Truncated)
    decreases items, 0
  {
    hide Read, Bytes, WellFormed, Meaning;
    CutSplit(b, i, Bytes(h, items[0]), AllBytes(h, items[1..]));
    if Cut(b, i, Bytes(h, items[0])) {
      CutIsTruncated(h, b, i, items[0]);
    } else {
      FormReads(h, b, i, items[0]);
      CutItems(h, b, i + |Bytes(h, items[0])|, items[1..], out + [Meaning(h, items[0])]);
    }
  }

  lemma {:induction false} CutTable(h: Host, b: seq<Byte>, i: nat, form: nat, rows: seq<Row>)
    requires LengthOk(16, form, |rows|) && form != 1
    requires forall k :: 0 <= k < |rows| ==>
               WellFormed(h, rows[k].key) && WellFormed(h, rows[k].value) && KeyText(h, Meaning(h, rows[k].key)).Some?
    requires Cut(b, i, TableHead(form, |rows|) + RowBytes(h, rows))
    ensures Read(h, b, i) == Err(Truncated)
    decreases rows, 1
  {
    hide Read, ReadMap, RowBytes, WellFormed, ToBytes, Pow, Cut, KeyText, Meaning;
    var hd := TableHead(form, |rows|);
    CutSplit(b, i, hd, RowBytes(h, rows));
    if Cut(b, i, hd) {
      if form == 0 {
        HeadCut(h, b, i, hd[0]);
      } else {
        CutTail(h, b, i, hd[0], ToBytes(|rows|, form));
      }
    } else {
      TableHeadReads(h, b, i, form, |rows|);
      CutRows(h, b, i + |hd|, rows, []);
    }
  }

  lemma {:induction false} CutRows(h: Host, b: seq<Byte>, i: nat, rows: seq<Row>, out: seq<Entry>)
    requires forall k :: 0 <= k < |rows| ==>
               WellFormed(h, rows[k].key) && WellFormed(h, rows[k].value) && KeyText(h, Meaning(h, rows[k].key)).Some?
    requires Cut(b, i, RowBytes(h, rows))
    ensures i <= |b| && ReadMap(h, b, i, |rows|, out) == Err(Truncated)
    decreases rows, 0
  {
    hide Read, Bytes, WellFormed, Meaning, KeyText, Insert;
    assert rows[0].key < rows[0] && rows[0].value < rows[0];
    var key, value := Bytes(h, rows[0].key), Bytes(h, rows[0].value);
    CutSplit(b, i, key, value + RowBytes(h, rows[1..]));
    if Cut(b, i, key) {
      CutIsTruncated(h, b, i, rows[0].key);
    } else {
      FormReads(h, b, i, rows[0].key);
      var j := i + |key|;
      CutSplit(b, j, value, RowBytes(h, rows[1..]));
      if Cut(b, j, value) {
        CutIsTruncated(h, b, j, rows[0].value);
      } else {
        FormReads(h, b, j, rows[0].value);
        var k, v := Meaning(h, rows[0].key), Meaning(h, rows[0].value);
        CutRows(h, b, j + |value|, rows[1..], Insert(out, KeyText(h, k).value, v));
      }
    }
  }

  // ---------- Integers too large for the signed range ----------

  const M52: nat := 0x10_0000_0000_0000

  /** The value of a positive double whose value is a whole number: exponent and fraction as IEEE 754 lays them out. */
  function DoubleValue(bits: nat): nat
    requires 1075 <= bits / M52 <= 2046
  {
    (M52 + bits % M52) * Pow(2, bits / M52 - 1075)
  }

  function Off(a: nat, b: nat): nat {
    if a <= b then b - a else a - b
  }

  lemma PowersAtEleven()
    ensures Pow(2, 10) == 1024 && Pow(2, 11) == 2048 && Pow(2, 12) == 4096
  {
    PowersOfTwo();
    assert Pow(2, 9) == 512;
  }

  /** The multiple of 2048 the writer chooses. */
  function Chosen(n: nat): nat {
    var q, r := n / 2048, n % 2048;
    if r > 1024 || (r == 1024 && q % 2 == 1) then q + 1 else q
  }

  lemma ChosenIsNearest(n: nat, k: nat)
    ensures Off(2048 * Chosen(n), n) <= Off(2048 * k, n)
    ensures k != Chosen(n) && Off(2048 * Chosen(n), n) == Off(2048 * k, n) ==> Chosen(n) % 2 == 0
  {
    ChosenIs(n);
    hide Chosen;
    NearestOfTwo(n / 2048, n % 2048, Chosen(n), k);
  }

  lemma ChosenIs(n: nat)
    ensures var q, r, m := n / 2048, n % 2048, Chosen(n);
            && n == 2048 * q + r && r < 2048
            && (m == q || m == q + 1)
            && (m == q ==> r < 1024 || (r == 1024 && m % 2 == 0))
            && (m == q + 1 ==> r > 1024 || (r == 1024 && m % 2 == 0))
  {
    var q := n / 2048;
    assert q % 2 == 1 ==> (q + 1) % 2 == 0;
  }

  lemma NearestOfTwo(q: nat, r: nat, m: nat, k: nat)
    requires r < 2048 && (m == q || m == q + 1)
    requires m == q ==> r < 1024 || (r == 1024 && m % 2 == 0)
    requires m == q + 1 ==> r > 1024 || (r == 1024 && m % 2 == 0)
    ensures var n := 2048 * q + r;
            Off(2048 * m, n) <= Off(2048 * k, n)
            && (k != m && Off(2048 * m, n) == Off(2048 * k, n) ==> m % 2 == 0)
  {
  }

  lemma DoubleOfChosen(n: nat)
    requires I64_MAX < n <= U64_MAX
    ensures M52 <= Chosen(n) <= 2 * M52 && NearestDouble(n) % 2 == Chosen(n) % 2
    ensures 1075 <= NearestDouble(n) / M52 <= 2046 && DoubleValue(NearestDouble(n)) == 2048 * Chosen(n)
  {
    var m, bits := Chosen(n), NearestDouble(n);
    assert bits == 1086 * M52 + (m - M52);
    PowersAtEleven();
    hide Pow, NearestDouble, Chosen;
    if m < 2 * M52 {
      DivIs(bits, M52, 1086, m - M52);
    } else {
      DivIs(bits, M52, 1087, 0);
    }
  }

  /** Among all doubles that are whole numbers, none is nearer; of two as near, the one with the even fraction is chosen. */
  lemma NearestDoubleIsNearest(n: nat, bits: nat)
    requires I64_MAX < n <= U64_MAX && 1075 <= bits / M52 <= 2046
    ensures 1075 <= NearestDouble(n) / M52 <= 2046
    ensures var d, e := DoubleValue(NearestDouble(n)), DoubleValue(bits);
            Off(d, n) <= Off(e, n) && (Off(d, n) == Off(e, n) && d != e ==> NearestDouble(n) % 2 == 0)
  {
    var e, f := bits / M52, bits % M52;
    DoubleOfChosen(n);
    hide NearestDouble, Chosen;
    if e >= 1086 {
      var k := (M52 + f) * Pow(2, e - 1086);
      PowersAtEleven();
      Pow2Add(11, e - 1086);
      assert 11 + (e - 1086) == e - 1075;
      Reassociate(M52 + f, 2048, Pow(2, e - 1086));
      assert DoubleValue(bits) == 2048 * k;
      ChosenIsNearest(n, k);
    } else {
      SmallDouble(bits);
      ChosenIsNearest(n, M52);
    }
  }

  lemma SmallDouble(bits: nat)
    requires 1075 <= bits / M52 <= 1085
    ensures DoubleValue(bits) < 2048 * M52
  {
    var e, f := bits / M52, bits % M52;
    PowersAtEleven();
    PowMono(e - 1075, 10);
    MulMono(Pow(2, e - 1075), 1024, M52 + f);
  }

  lemma Reassociate(a: nat, b: nat, c: nat)
    ensures a * (b * c) == b * (a * c)
  {
  }

  lemma {:induction false} PowMono(a: nat, b: nat)
    requires a <= b
    ensures Pow(2, a) <= Pow(2, b)
  {
    if a < b {
      PowMono(a, b - 1);
    }
  }

  /** An integer above the signed range is written as that double, and reads back as it. */
  lemma LargeIntegerReads(h: Host, n: nat)
    requires I64_MAX < n <= U64_MAX
    ensures Read(h, EncodeInt(n), 0) == Ok((Float(ToBytes(NearestDouble(n), 8)), 9))
  {
    var bits := ToBytes(NearestDouble(n), 8);
    var e := EncodeInt(n);
    assert e[0..9] == e;
    FloatReads(h, e, 0, bits);
    ByteAt(NearestDouble(n), 8, 0);
    Widths();
    assert Pow(256, 7) == 0x100_0000_0000_0000;
    hide Pow, ToBytes, Read;
    assert NearestDouble(n) / 0x100_0000_0000_0000 == 0x43;
  }
}
