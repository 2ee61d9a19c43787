/** The log timestamp `YYYY-MM-DD HH:MM:SS.mmm UTC` and its order as text. */
module Timestamp {
  import opened Arithmetic
  import opened Calendar

  // ---------- Decimal fields ----------

  function Digit(n: nat): (c: char)
    requires n < 10
  {
    '0' + n as char
  }

  function Decimal(n: nat): string {
    if n < 10 then [Digit(n)] else Decimal(n / 10) + [Digit(n % 10)]
  }

  /** Zero-padded to at least `w` digits. */
  function Pad(n: nat, w: nat): string {
    if w <= 1 then Decimal(n) else Pad(n / 10, w - 1) + [Digit(n % 10)]
  }

  // ---------- The timestamp ----------

  const SECOND: nat := 1_000_000_000
  const MILLI: nat := 1_000_000
  const DAY: nat := 86400 * SECOND

  /** The numbers a timestamp shows, from the year down to the milliseconds. */
  function Fields(duration: nat): seq<nat> {
    var totalSecs := duration / SECOND;
    var millis := duration % SECOND / MILLI;
    var secs := totalSecs % 60;
    var mins := totalSecs / 60 % 60;
    var hours := totalSecs / 3600 % 24;
    var date := DaysToYmd(totalSecs / 86400);
    [date.year, date.month, date.day, hours, mins, secs, millis]
  }

  /** The format: minimal width of each field and the character after it. */
  const LAYOUT: seq<(nat, char)> :=
    [(4, '-'), (2, '-'), (2, ' '), (2, ':'), (2, ':'), (2, '.'), (3, ' ')]

  function Render(fields: seq<nat>, layout: seq<(nat, char)>): string
    requires |fields| == |layout|
  {
    if fields == [] then "UTC"
    else Pad(fields[0], layout[0].0) + ([layout[0].1] + Render(fields[1..], layout[1..]))
  }

  /** A time is in nanoseconds since the epoch; a time before the epoch counts as the epoch. */
  function FormatTimestamp(now: int): string {
    Render(Fields(if now < 0 then 0 else now), LAYOUT)
  }

  // ---------- Text order ----------

  /** Lexicographic order on text. */
  predicate TextLess(a: string, b: string) {
    if b == [] then false
    else if a == [] then true
    else a[0] < b[0] || (a[0] == b[0] && TextLess(a[1..], b[1..]))
  }

  /** Fields of equal width compare left to right. */
  lemma {:induction false} TextLessAppend(a: string, b: string, x: string, y: string)
    requires |a| == |b|
    ensures TextLess(a + x, b + y) <==> TextLess(a, b) || (a == b && TextLess(x, y))
    decreases |a|
  {
    if a == [] {
      assert a + x == x && b + y == y;
    } else {
      assert (a + x)[1..] == a[1..] + x && (b + y)[1..] == b[1..] + y;
      TextLessAppend(a[1..], b[1..], x, y);
      assert a == b <==> a[0] == b[0] && a[1..] == b[1..];
    }
  }

  lemma {:induction false} PadOrder(m: nat, n: nat, w: nat)
    requires w > 0 && m < Pow(10, w) && n < Pow(10, w)
    ensures |Pad(m, w)| == |Pad(n, w)| == w
    ensures TextLess(Pad(m, w), Pad(n, w)) <==> m < n
    ensures Pad(m, w) == Pad(n, w) <==> m == n
  {
    DigitOrder(m % 10, n % 10);
    if w == 1 {
      assert Pow(10, 1) == 10 * Pow(10, 0);
      assert Pad(m, 1) == [Digit(m)] && Pad(n, 1) == [Digit(n)];
    } else {
      PadOrder(m / 10, n / 10, w - 1);
      SplitAtTen(m, n);
      var a, b, x, y := Pad(m / 10, w - 1), Pad(n / 10, w - 1), [Digit(m % 10)], [Digit(n % 10)];
      TextLessAppend(a, b, x, y);
      SameAppend(a, b, x, y);
    }
  }

  lemma SplitAtTen(m: nat, n: nat)
    ensures m < n <==> m / 10 < n / 10 || (m / 10 == n / 10 && m % 10 < n % 10)
    ensures m == n <==> m / 10 == n / 10 && m % 10 == n % 10
  {
  }

  lemma DigitOrder(m: nat, n: nat)
    requires m < 10 && n < 10
    ensures TextLess([Digit(m)], [Digit(n)]) <==> m < n
    ensures [Digit(m)] == [Digit(n)] <==> m == n
  {
    assert [Digit(m)][1..] == [] == [Digit(n)][1..];
    assert [Digit(m)][0] == Digit(m) && [Digit(n)][0] == Digit(n);
  }

  lemma SameAppend(a: string, b: string, x: string, y: string)
    requires |a| == |b|
    ensures a + x == b + y <==> a == b && x == y
  {
    assert a + x == b + y ==> (a + x)[..|a|] == (b + y)[..|a|] && (a + x)[|a|..] == (b + y)[|a|..];
    assert (a + x)[..|a|] == a && (a + x)[|a|..] == x && (b + y)[..|a|] == b && (b + y)[|a|..] == y;
  }

  predicate FieldsLess(a: seq<nat>, b: seq<nat>)
    requires |a| == |b|
  {
    a != [] && (a[0] < b[0] || (a[0] == b[0] && FieldsLess(a[1..], b[1..])))
  }

  ghost predicate Fits(fields: seq<nat>, layout: seq<(nat, char)>) {
    |fields| == |layout| && forall i :: 0 <= i < |layout| ==> layout[i].0 > 0 && fields[i] < Pow(10, layout[i].0)
  }

  /** While every field fits its width, texts order as their fields do. */
  lemma {:induction false} RenderOrder(a: seq<nat>, b: seq<nat>, layout: seq<(nat, char)>)
    requires Fits(a, layout) && Fits(b, layout)
    ensures TextLess(Render(a, layout), Render(b, layout)) <==> FieldsLess(a, b)
    decreases |a|
  {
    if a == [] {
      TextIrreflexive("UTC");
    } else {
      var x, y := Render(a[1..], layout[1..]), Render(b[1..], layout[1..]);
      RenderOrder(a[1..], b[1..], layout[1..]);
      PadOrder(a[0], b[0], layout[0].0);
      TextLessAppend(Pad(a[0], layout[0].0), Pad(b[0], layout[0].0), [layout[0].1] + x, [layout[0].1] + y);
      assert ([layout[0].1] + x)[1..] == x && ([layout[0].1] + y)[1..] == y;
    }
  }

  lemma TextIrreflexive(a: string)
    ensures !TextLess(a, a)
  {
  }

  // ---------- Timestamps order as the times do ----------

  /** Clock fields of a second of the day. */
  lemma ClockOrder(s: nat, t: nat)
    requires s < 86400 && t < 86400
    ensures s < t <==> (s / 3600 < t / 3600 || (s / 3600 == t / 3600 &&
                       (s / 60 % 60 < t / 60 % 60 || (s / 60 % 60 == t / 60 % 60 && s % 60 < t % 60))))
  {
    assert s == 3600 * (s / 3600) + 60 * (s / 60 % 60) + s % 60 by { ClockSplits(s); }
    assert t == 3600 * (t / 3600) + 60 * (t / 60 % 60) + t % 60 by { ClockSplits(t); }
  }

  lemma ClockSplits(s: nat)
    ensures s == 3600 * (s / 3600) + 60 * (s / 60 % 60) + s % 60
  {
    assert s / 60 / 60 == s / 3600;
  }

  lemma SecondSplits(s: nat)
    ensures s / 3600 % 24 == s % 86400 / 3600
    ensures s / 60 % 60 == s % 86400 / 60 % 60
    ensures s % 60 == s % 86400 % 60
  {
    var d, r := s / 86400, s % 86400;
    assert s == 86400 * d + r;
    UnitSplits(d, r, 3600, 24);
    UnitSplits(d, r, 60, 1440);
    UnitSplits(d, r, 1, 86400);
    DivIs(r / 3600, 24, 0, r / 3600);
    ModShift(24 * d, r / 60, 60);
    ModShift(1440 * d, r, 60);
  }

  /** A unit of which a day has `n`: days shift the quotient by whole days. */
  lemma UnitSplits(d: nat, r: nat, unit: nat, n: nat)
    requires unit > 0 && unit * n == 86400
    ensures (86400 * d + r) / unit == n * d + r / unit
    ensures n > 0 && (n * d + r / unit) % n == r / unit % n
  {
    assert 86400 * d == unit * (n * d);
    assert r == unit * (r / unit) + r % unit;
    assert unit * (n * d + r / unit) == unit * (n * d) + unit * (r / unit);
    DivIs(86400 * d + r, unit, n * d + r / unit, r % unit);
    ModShift(d, r / unit, n);
  }

  lemma DateOrder(d: nat, e: nat)
    requires d < YEAR_WRAP_DAY && e < YEAR_WRAP_DAY
    ensures d < e <==> Earlier(DaysToYmd(d), DaysToYmd(e))
    ensures d == e ==> DaysToYmd(d) == DaysToYmd(e)
  {
    DaysToYmdIsTheCalendar(d);
    DaysToYmdIsTheCalendar(e);
    CivilIsTheCalendar(d);
    CivilIsTheCalendar(e);
    hide Civil, DayByDay;
    CivilOrder(d, e);
  }

  lemma FieldsOrder(a: nat, b: nat)
    requires a / SECOND / 86400 < YEAR_WRAP_DAY && b / SECOND / 86400 < YEAR_WRAP_DAY
    ensures FieldsLess(Fields(a), Fields(b)) <==> a / MILLI < b / MILLI
  {
    hide FieldsLess, DaysToYmd;
    var s, t := a / SECOND, b / SECOND;
    DateOrder(s / 86400, t / 86400);
    DateOrder(t / 86400, s / 86400);
    SecondSplits(s);
    SecondSplits(t);
    FieldsLessUnrolls(Fields(a), Fields(b));
    MillisSplit(a);
    MillisSplit(b);
    SecondOrder(s, t);
    SecondOrder(t, s);
  }

  lemma MillisSplit(a: nat)
    ensures a / MILLI == 1000 * (a / SECOND) + a % SECOND / MILLI
    ensures a % SECOND / MILLI < 1000
  {
  }

  /** Seconds order by day, hour, minute and second. */
  lemma SecondOrder(s: nat, t: nat)
    ensures s < t <==> (s / 86400 < t / 86400 || (s / 86400 == t / 86400 &&
                       (s / 3600 % 24 < t / 3600 % 24 || (s / 3600 % 24 == t / 3600 % 24 &&
                       (s / 60 % 60 < t / 60 % 60 || (s / 60 % 60 == t / 60 % 60 && s % 60 < t % 60))))))
  {
    SecondSplits(s);
    SecondSplits(t);
    ClockOrder(s % 86400, t % 86400);
  }

  predicate LessFrom(a: seq<nat>, b: seq<nat>, i: nat)
    requires |a| == |b| && i <= |a|
  {
    FieldsLess(a[i..], b[i..])
  }

  lemma LessFromEnds(a: seq<nat>, b: seq<nat>)
    requires |a| == |b|
    ensures (LessFrom(a, b, 0) <==> FieldsLess(a, b)) && !LessFrom(a, b, |a|)
  {
    assert a[0..] == a && b[0..] == b;
  }

  lemma FieldsLessUnrolls(a: seq<nat>, b: seq<nat>)
    requires |a| == |b| == 7
    ensures FieldsLess(a, b) <==>
      (a[0] < b[0] || (a[0] == b[0] && (a[1] < b[1] || (a[1] == b[1] && (a[2] < b[2] || (a[2] == b[2] &&
      (a[3] < b[3] || (a[3] == b[3] && (a[4] < b[4] || (a[4] == b[4] && (a[5] < b[5] || (a[5] == b[5] &&
      a[6] < b[6]))))))))))))
  {
    hide FieldsLess, LessFrom;
    FieldsLessAt(a, b, 0);
    FieldsLessAt(a, b, 1);
    FieldsLessAt(a, b, 2);
    FieldsLessAt(a, b, 3);
    FieldsLessAt(a, b, 4);
    FieldsLessAt(a, b, 5);
    FieldsLessAt(a, b, 6);
    LessFromEnds(a, b);
  }

  lemma FieldsLessAt(a: seq<nat>, b: seq<nat>, i: nat)
    requires |a| == |b| && i < |a|
    ensures LessFrom(a, b, i) <==> a[i] < b[i] || (a[i] == b[i] && LessFrom(a, b, i + 1))
  {
    assert a[i..][1..] == a[i + 1..] && b[i..][1..] == b[i + 1..];
  }

  lemma FieldsFit(a: nat)
    requires a / SECOND / 86400 < YEAR_10000_DAY
    ensures Fits(Fields(a), LAYOUT)
  {
    var d := a / SECOND / 86400;
    Year10000Day();
    CivilOrder(d, YEAR_10000_DAY);
    DaysToYmdIsTheCalendar(d);
    CivilIsTheCalendar(d);
    hide Civil, DayByDay;
    assert Pow(10, 0) == 1 && Pow(10, 1) == 10 && Pow(10, 2) == 100 && Pow(10, 3) == 1000 && Pow(10, 4) == 10000;
  }

  /** First nanosecond of the year 10000. */
  const YEAR_10000: nat := YEAR_10000_DAY * DAY

  /** Before the year 10000, timestamps order as text exactly as the times do to the millisecond. */
  lemma TimestampsOrder(a: nat, b: nat)
    requires a < YEAR_10000 && b < YEAR_10000
    ensures TextLess(FormatTimestamp(a), FormatTimestamp(b)) <==> a / MILLI < b / MILLI
  {
    FieldsFit(a);
    FieldsFit(b);
    FieldsOrder(a, b);
    RenderOrder(Fields(a), Fields(b), LAYOUT);
  }

  /** ... and from there on they do not: the five-digit year sorts before the last millisecond of 9999. */
  lemma Year10000SortsEarly()
    ensures !TextLess(FormatTimestamp(YEAR_10000 - 1), FormatTimestamp(YEAR_10000))
  {
    var a, b := YEAR_10000 - 1, YEAR_10000;
    Year10000Day();
    LastDayOf9999();
    assert a / SECOND / 86400 == YEAR_10000_DAY - 1 && b / SECOND / 86400 == YEAR_10000_DAY;
    assert Fields(a)[0] == 9999 && Fields(b)[0] == 10000 by {
      hide Civil;
    }
    YearDigits();
    RenderStarts(Fields(a), LAYOUT);
    RenderStarts(Fields(b), LAYOUT);
    hide Render, Fields, Pad;
  }

  lemma YearDigits()
    ensures Pad(9999, 4) == "9999" && Pad(10000, 4) == "10000"
  {
    assert Pad(9, 1) == "9" && Pad(99, 2) == "99" && Pad(999, 3) == "999";
    assert Decimal(10) == "10" && Pad(10, 1) == "10" && Pad(100, 2) == "100" && Pad(1000, 3) == "1000";
  }

  lemma RenderStarts(fields: seq<nat>, layout: seq<(nat, char)>)
    requires |fields| == |layout| > 0 && Pad(fields[0], layout[0].0) != []
    ensures Render(fields, layout) != [] && Render(fields, layout)[0] == Pad(fields[0], layout[0].0)[0]
  {
  }

  lemma LastDayOf9999()
    ensures Civil(YEAR_10000_DAY - 1) == Date(9999, 12, 31)
  {
    assert YearStart(399) == 145731 && YearStart(400) == ERA_DAYS;
    CivilAt(YEAR_10000_DAY - 1, 24, 399, 305);
    hide Civil;
  }

  /** The times below a limit all order as their texts exactly when the limit is within the year 9999. */
  lemma TimestampsOrderIff(limit: nat)
    ensures (forall a: nat, b: nat :: a < limit && b < limit ==>
               (TextLess(FormatTimestamp(a), FormatTimestamp(b)) <==> a / MILLI < b / MILLI))
            <==> limit <= YEAR_10000
  {
    hide FormatTimestamp, TextLess;
    if limit <= YEAR_10000 {
      forall a: nat, b: nat | a < limit && b < limit
        ensures TextLess(FormatTimestamp(a), FormatTimestamp(b)) <==> a / MILLI < b / MILLI
      {
        TimestampsOrder(a, b);
      }
    } else {
      Year10000SortsEarly();
    }
  }

  // ---------- The text reads back as the time ----------

  predicate IsDigits(t: string) {
    forall i :: 0 <= i < |t| ==> '0' <= t[i] <= '9'
  }

  /** The number some decimal digits spell. */
  function Number(t: string): nat {
    if t == [] then 0
    else 10 * Number(t[..|t| - 1]) + if '0' <= t[|t| - 1] <= '9' then (t[|t| - 1] - '0') as nat else 0
  }

  predicate Spells(t: string, n: nat) {
    IsDigits(t) && Number(t) == n
  }

  lemma SpellsMore(t: string, n: nat, d: nat)
    requires Spells(t, n) && d < 10
    ensures Spells(t + [Digit(d)], 10 * n + d)
  {
    var u := t + [Digit(d)];
    assert u[..|u| - 1] == t;
    assert IsDigits(u);
  }

  lemma NothingSpells()
    ensures Spells([], 0)
  {
  }

  lemma {:induction false} DecimalReads(n: nat)
    ensures Spells(Decimal(n), n) && |Decimal(n)| >= 1
  {
    hide Spells;
    if n < 10 {
      assert [] + [Digit(n)] == [Digit(n)];
      NothingSpells();
      SpellsMore([], 0, n);
    } else {
      DecimalReads(n / 10);
      SpellsMore(Decimal(n / 10), n / 10, n % 10);
    }
  }

  lemma {:induction false} PadReads(n: nat, w: nat)
    requires w > 0
    ensures Spells(Pad(n, w), n) && |Pad(n, w)| >= w
    ensures n < Pow(10, w) ==> |Pad(n, w)| == w
  {
    hide Spells;
    if w == 1 {
      DecimalReads(n);
      assert Pow(10, 1) == 10 * Pow(10, 0);
    } else {
      PadReads(n / 10, w - 1);
      SpellsMore(Pad(n / 10, w - 1), n / 10, n % 10);
    }
  }

  /** What stands at a place of a text, and what follows it. */
  lemma Piece(t: string, p: nat, a: string, b: string)
    requires p <= |t| && t[p..] == a + b
    ensures |t| == p + |a| + |b| && t[p..p + |a|] == a && t[p + |a|..] == b
  {
    assert (a + b)[..|a|] == a && (a + b)[|a|..] == b;
    assert t[p..p + |a|] == t[p..][..|a|] && t[p + |a|..] == t[p..][|a|..];
  }

  /** The text from a field on. */
  function From(f: seq<nat>, i: nat): string
    requires |f| == 7 && i <= 7
  {
    Render(f[i..], LAYOUT[i..])
  }

  lemma FromEnds(f: seq<nat>)
    requires |f| == 7
    ensures From(f, 0) == Render(f, LAYOUT) && From(f, 7) == "UTC"
  {
    assert f[0..] == f && LAYOUT[0..] == LAYOUT;
  }

  lemma FromNext(f: seq<nat>, i: nat)
    requires |f| == 7 && i < 7
    ensures From(f, i) == Pad(f[i], LAYOUT[i].0) + ([LAYOUT[i].1] + From(f, i + 1))
  {
    hide Pad;
    assert f[i..][1..] == f[i + 1..] && LAYOUT[i..][1..] == LAYOUT[i + 1..];
  }

  predicate EndsWith(t: string, p: nat, rest: string) {
    p <= |t| && t[p..] == rest
  }

  /** Where a field stands, and what follows it. */
  lemma RenderPlaces(t: string, p: nat, f: seq<nat>, i: nat)
    requires |f| == 7 && i < 7 && EndsWith(t, p, From(f, i))
    ensures var q := p + |Pad(f[i], LAYOUT[i].0)|;
            q < |t| && t[p..q] == Pad(f[i], LAYOUT[i].0) && t[q] == LAYOUT[i].1 && EndsWith(t, q + 1, From(f, i + 1))
  {
    hide Pad, From;
    FromNext(f, i);
    var a, rest := Pad(f[i], LAYOUT[i].0), From(f, i + 1);
    Piece(t, p, a, [LAYOUT[i].1] + rest);
    Piece(t, p + |a|, [LAYOUT[i].1], rest);
    assert t[p + |a|] == t[p + |a|..][0];
  }

  /** Clock and milliseconds of a time, as the fields have them. */
  lemma ClockReads(n: nat)
    ensures var f := Fields(n);
            && f[3] < 24 && f[4] < 60 && f[5] < 60 && f[6] < 1000
            && 1000 * (3600 * f[3] + 60 * f[4] + f[5]) + f[6] == n / MILLI % 86_400_000
            && n / SECOND / 86400 == n / DAY
  {
    var s := n / SECOND;
    MillisSplit(n);
    SecondSplits(s);
    ClockSplits(s % 86400);
    var d, r := s / 86400, s % 86400;
    assert s == 86400 * d + r;
    assert n / MILLI == 86_400_000 * d + (1000 * r + n % SECOND / MILLI);
    DivIs(n / MILLI, 86_400_000, d, 1000 * r + n % SECOND / MILLI);
    assert n == DAY * d + (SECOND * r + n % SECOND);
    DivIs(n, DAY, d, SECOND * r + n % SECOND);
  }

  lemma MonthAndDayFit(days: nat)
    ensures var c := DaysToYmd(days); c.month < 100 && c.day < 100
  {
    CivilOrder(days, days);
    hide Civil;
  }

  /** A text of the timestamp's form, the year in the first `k` places, whose digits spell the given numbers. */
  ghost predicate Shows(t: string, k: nat, f: seq<nat>) {
    && |f| == 7 && k >= 4 && |t| == k + 23
    && t[k] == '-' && t[k + 3] == '-' && t[k + 6] == ' ' && t[k + 9] == ':' && t[k + 12] == ':' && t[k + 15] == '.'
    && t[k + 19..] == " UTC"
    && Spells(t[..k], f[0]) && Spells(t[k + 1..k + 3], f[1]) && Spells(t[k + 4..k + 6], f[2])
    && Spells(t[k + 7..k + 9], f[3]) && Spells(t[k + 10..k + 12], f[4]) && Spells(t[k + 13..k + 15], f[5])
    && Spells(t[k + 16..k + 19], f[6])
  }

  lemma RenderShows(f: seq<nat>)
    requires |f| == 7 && (forall i :: 1 <= i < 6 ==> f[i] < 100) && f[6] < 1000
    ensures Shows(Render(f, LAYOUT), |Pad(f[0], 4)|, f)
    ensures f[0] < 10000 ==> |Pad(f[0], 4)| == 4
  {
    hide Pad, Render, Spells, From, EndsWith;
    var t, k := Render(f, LAYOUT), |Pad(f[0], 4)|;
    YearShows(f);
    FieldShows(t, k + 1, f, 1);
    FieldShows(t, k + 4, f, 2);
    FieldShows(t, k + 7, f, 3);
    FieldShows(t, k + 10, f, 4);
    FieldShows(t, k + 13, f, 5);
    FieldShows(t, k + 16, f, 6);
    EndShows(t, k + 20, f);
  }

  lemma YearShows(f: seq<nat>)
    requires |f| == 7
    ensures var t, k := Render(f, LAYOUT), |Pad(f[0], 4)|;
            4 <= k < |t| && Spells(t[..k], f[0]) && t[k] == '-' && EndsWith(t, k + 1, From(f, 1))
    ensures f[0] < 10000 ==> |Pad(f[0], 4)| == 4
  {
    hide Pow, Pad, Render, Spells, From;
    PlacesOfTen();
    PadReads(f[0], 4);
    FromEnds(f);
    var t := Render(f, LAYOUT);
    assert t[0..] == t;
    RenderPlaces(t, 0, f, 0);
  }

  lemma FieldShows(t: string, p: nat, f: seq<nat>, i: nat)
    requires |f| == 7 && 1 <= i < 7 && EndsWith(t, p, From(f, i))
    requires f[i] < if i < 6 then 100 else 1000
    ensures var q := p + LAYOUT[i].0;
            q < |t| && Spells(t[p..q], f[i]) && t[q] == LAYOUT[i].1 && EndsWith(t, q + 1, From(f, i + 1))
  {
    hide Pow, Pad, From, Spells, EndsWith;
    PlacesOfTen();
    PadReads(f[i], LAYOUT[i].0);
    RenderPlaces(t, p, f, i);
  }

  lemma EndShows(t: string, p: nat, f: seq<nat>)
    requires |f| == 7 && p > 0 && EndsWith(t, p, From(f, 7)) && t[p - 1] == ' '
    ensures |t| == p + 3 && t[p - 1..] == " UTC"
  {
    hide From;
    FromEnds(f);
    assert t[p - 1..] == [t[p - 1]] + t[p..];
  }

  /**
   Every timestamp reads back as its time: the year in at least four digits, the separators in their places, and
   between them digits that spell the date of the day, and the hour, minute, second and millisecond within it.
   */
  lemma TimestampReadsBack(n: nat) returns (k: nat, date: Date, h: nat, m: nat, s: nat, ms: nat)
    ensures Shows(FormatTimestamp(n), k, [date.year, date.month, date.day, h, m, s, ms])
    ensures n < YEAR_10000 ==> k == 4
    ensures date == DaysToYmd(n / DAY) && (n / DAY < YEAR_WRAP_DAY ==> date == DayByDay(n / DAY))
    ensures h < 24 && m < 60 && s < 60 && ms < 1000 && 1000 * (3600 * h + 60 * m + s) + ms == n / MILLI % 86_400_000
  {
    var f := Fields(n);
    ClockReads(n);
    MonthAndDayFit(n / DAY);
    DaysToYmdIsTheCalendar(n / DAY);
    assert f == [f[0], f[1], f[2], f[3], f[4], f[5], f[6]];
    k, date, h, m, s, ms := |Pad(f[0], 4)|, DaysToYmd(n / DAY), f[3], f[4], f[5], f[6];
    if n < YEAR_10000 {
      YearFits(n);
    }
    hide Shows, DayByDay, DaysToYmd;
    RenderShows(f);
  }

  lemma YearFits(n: nat)
    requires n < YEAR_10000
    ensures Fields(n)[0] < 10000
  {
    FieldsFit(n);
    PlacesOfTen();
    hide Fields, Pow;
  }

  lemma PlacesOfTen()
    ensures Pow(10, 2) == 100 && Pow(10, 3) == 1000 && Pow(10, 4) == 10000
  {
    assert Pow(10, 0) == 1 && Pow(10, 1) == 10;
  }

  /** The epoch itself. */
  lemma EpochText()
    ensures FormatTimestamp(0) == "1970-01-01 00:00:00.000 UTC"
  {
    hide Fields, Render, Pad, From;
    var f := [1970, 1, 1, 0, 0, 0, 0];
    EpochFields();
    SmallPads();
    FromEnds(f);
    EpochMonth(f);
    Before(f, 0, "1970", "01-01 00:00:00.000 UTC", "1970-01-01 00:00:00.000 UTC");
  }

  lemma EpochMonth(f: seq<nat>)
    requires |f| == 7 && f[1] == f[2] == 1 && f[3] == f[4] == f[5] == f[6] == 0
    ensures From(f, 1) == "01-01 00:00:00.000 UTC"
  {
    hide Pad, From;
    SmallPads();
    EpochClock(f);
    Before(f, 2, "01", "00:00:00.000 UTC", "01 00:00:00.000 UTC");
    Before(f, 1, "01", "01 00:00:00.000 UTC", "01-01 00:00:00.000 UTC");
  }

  lemma EpochClock(f: seq<nat>)
    requires |f| == 7 && f[3] == f[4] == f[5] == f[6] == 0
    ensures From(f, 3) == "00:00:00.000 UTC"
  {
    hide Pad, From;
    SmallPads();
    FromEnds(f);
    Before(f, 6, "000", "UTC", "000 UTC");
    Before(f, 5, "00", "000 UTC", "00.000 UTC");
    Before(f, 4, "00", "00.000 UTC", "00:00.000 UTC");
    Before(f, 3, "00", "00:00.000 UTC", "00:00:00.000 UTC");
  }

  lemma Before(f: seq<nat>, i: nat, a: string, rest: string, t: string)
    requires |f| == 7 && i < 7 && a == Pad(f[i], LAYOUT[i].0) && rest == From(f, i + 1)
    requires |t| == |a| + 1 + |rest| && t[..|a|] == a && t[|a|] == LAYOUT[i].1 && t[|a| + 1..] == rest
    ensures From(f, i) == t
  {
    hide Pad, From;
    FromNext(f, i);
    assert t == a + ([LAYOUT[i].1] + rest);
  }

  lemma EpochFields()
    ensures Fields(0) == [1970, 1, 1, 0, 0, 0, 0]
  {
    CivilEpoch();
    hide Civil;
  }

  lemma SmallPads()
    ensures Pad(1970, 4) == "1970" && Pad(1, 2) == "01" && Pad(0, 2) == "00" && Pad(0, 3) == "000"
  {
    assert Pad(1, 1) == "1" && Pad(19, 2) == "19" && Pad(197, 3) == "197" && Pad(0, 1) == "0";
  }

  /** A time before the epoch shows as the epoch. */
  lemma BeforeTheEpoch(now: int)
    requires now < 0
    ensures FormatTimestamp(now) == FormatTimestamp(0)
  {
  }
}
