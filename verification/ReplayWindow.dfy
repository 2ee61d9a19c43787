/**
 Duplicate and replay detection over wrapping 32-bit sequence numbers.

 Machine words are naturals with the truncation written out. The reference view unwraps
 sequence numbers to integers and remembers every one that was accepted.
 */
module ReplayWindow {
  import opened Arithmetic

  const M32: nat := 0x1_0000_0000
  /** A 32-bit sequence number. */
  type Word = s: int | 0 <= s < 0x1_0000_0000

  const HALF: nat := 0x8000_0000
  const WINDOW: nat := 1024

  // ---------- Bits of a 64-bit word ----------

  predicate TestBit(m: nat, i: nat) {
    m / Pow(2, i) % 2 == 1
  }

  function SetBit(m: nat, i: nat): nat {
    if TestBit(m, i) then m else m + Pow(2, i)
  }

  function ShiftLeft(m: nat, f: nat): nat {
    m * Pow(2, f) % Pow(2, 64)
  }

  /** Bit i + 1 of a word is bit i of its half. */
  lemma TestBitHalf(m: nat, i: nat)
    ensures TestBit(m, i + 1) == TestBit(m / 2, i)
  {
    HalfThenDivide(m, Pow(2, i));
  }

  lemma TestBitZero(m: nat)
    ensures TestBit(m, 0) == (m % 2 == 1)
  {
  }

  lemma {:induction false} AddBit(m: nat, b: nat, i: nat)
    requires !TestBit(m, b)
    ensures TestBit(m + Pow(2, b), i) == (i == b || TestBit(m, i))
    decreases b
  {
    hide TestBit;
    TestBitZero(m);
    TestBitZero(m + Pow(2, b));
    if b > 0 {
      TestBitHalf(m, b - 1);
      assert (m + Pow(2, b)) / 2 == m / 2 + Pow(2, b - 1) && (m + Pow(2, b)) % 2 == m % 2;
    } else {
      assert (m + Pow(2, b)) / 2 == m / 2;
    }
    if i > 0 {
      TestBitHalf(m, i - 1);
      TestBitHalf(m + Pow(2, b), i - 1);
      if b > 0 {
        AddBit(m / 2, b - 1, i - 1);
      }
    }
  }

  lemma SetBitBits(m: nat, b: nat, i: nat)
    ensures TestBit(SetBit(m, b), i) == (i == b || TestBit(m, i))
  {
    hide TestBit;
    if !TestBit(m, b) {
      AddBit(m, b, i);
    }
  }

  /** Truncation to `k` bits leaves the lower bits alone. */
  lemma {:induction false} TruncateBits(m: nat, k: nat, i: nat)
    requires i < k
    ensures TestBit(m % Pow(2, k), i) == TestBit(m, i)
  {
    hide TestBit;
    var t := m % Pow(2, k);
    HalfThenDivide(m, Pow(2, k - 1));
    TestBitZero(m);
    TestBitZero(t);
    if i > 0 {
      TestBitHalf(m, i - 1);
      TestBitHalf(t, i - 1);
      TruncateBits(m / 2, k - 1, i - 1);
    }
  }

  lemma {:induction false} ScaleBits(m: nat, f: nat, i: nat)
    ensures TestBit(m * Pow(2, f), i) == (i >= f && TestBit(m, i - f))
    decreases f
  {
    hide TestBit;
    if f > 0 {
      var n := m * Pow(2, f - 1);
      assert m * Pow(2, f) == 2 * n;
      TestBitZero(2 * n);
      if i > 0 {
        TestBitHalf(2 * n, i - 1);
        assert 2 * n / 2 == n;
        ScaleBits(m, f - 1, i - 1);
      }
    }
  }

  lemma ShiftBits(m: nat, f: nat, i: nat)
    requires i < 64
    ensures TestBit(ShiftLeft(m, f), i) == (i >= f && TestBit(m, i - f))
  {
    TruncateBits(m * Pow(2, f), 64, i);
    ScaleBits(m, f, i);
  }

  // ---------- The validator ----------

  datatype Verdict = Fresh | Duplicate | Stale

  datatype Window = Window(highest: nat, seen: bool, mask: nat)

  const INITIAL: Window := Window(0, false, 0)

  function Validate(w: Window, s: Word): (Window, Verdict)
  {
    if !w.seen then (Window(s, true, 1), Fresh)
    else if s == w.highest then (w, Duplicate)
    else
      var forward := (s - w.highest) % M32;
      if forward < HALF then
        (w.(highest := s, mask := if forward < 64 then SetBit(ShiftLeft(w.mask, forward), 0) else 1), Fresh)
      else
        var back := (w.highest - s) % M32;
        if back >= WINDOW then (w, Stale)
        else if back < 64 then
          if TestBit(w.mask, back) then (w, Duplicate) else (w.(mask := SetBit(w.mask, back)), Fresh)
        else (w, Fresh)
  }

  // ---------- The reference view ----------

  /** Every accepted packet by its unwrapped number, and the greatest of them. */
  datatype Log = Empty | Log(top: int, accepted: set<int>)

  /** The integer nearest to `top` that the 32-bit number `s` can stand for; the first packet stands for itself. */
  function Unwrap(log: Log, s: Word): int {
    match log
    case Empty => s
    case Log(top, _) =>
      var forward := (s - top) % M32;
      if forward < HALF then top + forward else top + forward - M32
  }

  function Accept(log: Log, u: int): Log {
    match log
    case Empty => Log(u, {u})
    case Log(top, accepted) => Log(if u > top then u else top, accepted + {u})
  }

  /** The log after one more packet, given what the validator said about it. */
  function Note(log: Log, s: Word, v: Verdict): Log {
    if v == Fresh then Accept(log, Unwrap(log, s)) else log
  }

  /** The window is the log seen through 32 bits and the last 64 numbers. */
  ghost predicate Represents(w: Window, log: Log) {
    if !w.seen then log == Empty
    else
      && log.Log?
      && w.highest < M32 && log.top % M32 == w.highest
      && log.top in log.accepted
      && (forall u :: u in log.accepted ==> u <= log.top)
      && (forall i :: 0 <= i < 64 ==> (TestBit(w.mask, i) <==> log.top - i in log.accepted))
  }

  lemma UnwrapIsNearest(log: Log, s: Word)
    ensures Unwrap(log, s) % M32 == s
    ensures log.Log? ==> log.top - HALF <= Unwrap(log, s) < log.top + HALF
  {
    if log.Log? {
      var d := s - log.top;
      var forward := d % M32;
      assert d == M32 * (d / M32) + forward;
      ModShift(-(d / M32), s, M32);
      ModShift(-(d / M32) - 1, s, M32);
    }
  }

  lemma Distances(w: Window, log: Log, s: Word)
    requires w.seen && Represents(w, log)
    ensures var u := Unwrap(log, s);
            var forward, back := (s - w.highest) % M32, (w.highest - s) % M32;
            && (s == w.highest <==> u == log.top)
            && (forward < HALF ==> u == log.top + forward)
            && (forward >= HALF ==> u == log.top - back && back > 0)
  {
    hide TestBit;
    var k := log.top / M32;
    assert log.top == M32 * k + w.highest;
    var d := s - w.highest;
    assert s - log.top == d - M32 * k;
    DiffMod(d, k);
  }

  lemma DiffMod(d: int, k: int)
    requires -0x1_0000_0000 < d < M32
    ensures (d - M32 * k) % M32 == d % M32
    ensures d % M32 == if d < 0 then d + M32 else d
    ensures (-d) % M32 == if d <= 0 then -d else M32 - d
  {
  }

  /** Bits of the window after a packet ahead of the highest. */
  lemma AheadBits(w: Window, log: Log, forward: nat, i: nat)
    requires w.seen && Represents(w, log) && 0 < forward < HALF && i < 64
    ensures var mask := if forward < 64 then SetBit(ShiftLeft(w.mask, forward), 0) else 1;
            TestBit(mask, i) <==> log.top + forward - i in log.accepted + {log.top + forward}
  {
    hide TestBit, SetBit, ShiftLeft;
    OneBit(i);
    SetBitBits(ShiftLeft(w.mask, forward), 0, i);
    ShiftBits(w.mask, forward, i);
  }

  /** Every step keeps the window an exact image of the log. */
  lemma StepRepresents(w: Window, log: Log, s: Word)
    requires Represents(w, log)
    ensures Represents(Validate(w, s).0, Note(log, s, Validate(w, s).1))
  {
    hide TestBit, SetBit, ShiftLeft;
    var (w', v) := Validate(w, s);
    var log' := Note(log, s, v);
    if !w.seen {
      forall i | 0 <= i < 64
        ensures TestBit(1, i) <==> i == 0
      {
        OneBit(i);
      }
    } else if v == Fresh {
      Distances(w, log, s);
      UnwrapIsNearest(log, s);
      hide Unwrap;
      var forward, back := (s - w.highest) % M32, (w.highest - s) % M32;
      forall i | 0 <= i < 64
        ensures TestBit(w'.mask, i) <==> log'.top - i in log'.accepted
      {
        if forward < HALF {
          AheadBits(w, log, forward, i);
        } else {
          SetBitBits(w.mask, back, i);
        }
      }
    }
  }

  lemma OneBit(i: nat)
    ensures TestBit(1, i) <==> i == 0
  {
    if i > 0 {
      TestBitHalf(1, i - 1);
      assert TestBit(0, i - 1) == false;
    }
  }

  /**
   What the verdict means for any packet in any reachable state: a number accepted before is let in again
   exactly when it trails by 64 to 1023, and a number never accepted is refused exactly when it trails by
   1024 or more.
   */
  lemma VerdictIsExact(w: Window, log: Log, s: Word)
    requires w.seen && Represents(w, log)
    ensures var u, v := Unwrap(log, s), Validate(w, s).1;
            && (u in log.accepted ==> (v == Fresh <==> 64 <= log.top - u < 1024))
            && (u !in log.accepted ==> (v != Fresh <==> log.top - u >= 1024))
            && (v == Stale <==> log.top - u >= 1024)
  {
    hide Unwrap, TestBit, SetBit, ShiftLeft;
    Distances(w, log, s);
    UnwrapIsNearest(log, s);
    var back := (w.highest - s) % M32;
    assert back < 64 ==> (TestBit(w.mask, back) <==> log.top - back in log.accepted);
    hide Represents;
    assert log.top in log.accepted && forall u :: u in log.accepted ==> u <= log.top by {
      LogIsBelowTop(w, log);
    }
  }

  /** A word reads as the number it was made of exactly when that number is within half the space of the top. */
  lemma UnwrapIsRightIff(log: Log, n: int)
    requires log.Log?
    ensures Unwrap(log, n % M32) == n <==> log.top - HALF <= n < log.top + HALF
  {
    UnwrapIsNearest(log, n % M32);
    var u := Unwrap(log, n % M32);
    hide Unwrap;
    if log.top - HALF <= n < log.top + HALF {
      var k := (u - n) / M32;
      assert u - n == M32 * k by {
        assert u == M32 * (u / M32) + u % M32 && n == M32 * (n / M32) + n % M32;
        DivIs(u - n, M32, u / M32 - n / M32, 0);
      }
    }
  }

  /**
   A replay of an accepted packet gets in exactly when, modulo 2^32, it trails by more than half the space, by 64 to
   1023, or by less than 64 where no packet was accepted; the last two are real only for packets a whole number of
   spaces further back.
   */
  lemma ReplayGetsInIff(w: Window, log: Log, x: int)
    requires w.seen && Represents(w, log) && x in log.accepted
    ensures var d := (log.top - x) % M32;
            && (Validate(w, x % M32).1 == Fresh <==>
                  d > HALF || 64 <= d < 1024 || (0 < d < 64 && log.top - d !in log.accepted))
            && (log.top - x <= HALF ==> (Validate(w, x % M32).1 == Fresh <==> 64 <= log.top - x < 1024))
  {
    hide Unwrap, Validate;
    assert log.Log?;
    hide Represents;
    var u := NearestReading(log.top, x);
    UnwrapIsRightIff(log, u);
    LogIsBelowTop(w, log);
    VerdictIsExact(w, log, x % M32);
  }

  /** The number within half the space of the top that has the same word as `x`. */
  lemma NearestReading(top: int, x: int) returns (u: int)
    ensures var d := (top - x) % M32; u == if d > HALF then top - d + M32 else top - d
    ensures u % M32 == x % M32 && top - HALF <= u < top + HALF
    ensures 0 <= top - x <= HALF ==> u == x
  {
    var d, q := (top - x) % M32, (top - x) / M32;
    u := if d > HALF then top - d + M32 else top - d;
    assert top - x == M32 * q + d;
    ModShift(if d > HALF then q + 1 else q, x, M32);
  }

  lemma LogIsBelowTop(w: Window, log: Log)
    requires w.seen && Represents(w, log)
    ensures log.top in log.accepted && forall u :: u in log.accepted ==> u <= log.top
  {
  }

  // ---------- Runs ----------

  function RunWindow(w: Window, ss: seq<Word>): Window
    decreases |ss|
  {
    if ss == [] then w else RunWindow(Validate(w, ss[0]).0, ss[1..])
  }

  function RunLog(w: Window, log: Log, ss: seq<Word>): Log
    decreases |ss|
  {
    if ss == [] then log
    else
      var (w', v) := Validate(w, ss[0]);
      RunLog(w', Note(log, ss[0], v), ss[1..])
  }

  lemma {:induction false} RunRepresents(w: Window, log: Log, ss: seq<Word>)
    requires Represents(w, log)
    ensures Represents(RunWindow(w, ss), RunLog(w, log, ss))
    decreases |ss|
  {
    hide Represents, Validate;
    if ss != [] {
      StepRepresents(w, log, ss[0]);
      var (w', v) := Validate(w, ss[0]);
      RunRepresents(w', Note(log, ss[0], v), ss[1..]);
    }
  }

  /** Over every run, wrapping or not, the next verdict is exact with respect to all packets accepted so far. */
  lemma ReplayProtection(ss: seq<Word>, s: Word)
    requires ss != []
    ensures var w, log := RunWindow(INITIAL, ss), RunLog(INITIAL, Empty, ss);
            var u, v := Unwrap(log, s), Validate(w, s).1;
            && log.Log? && log.top in log.accepted && (forall x :: x in log.accepted ==> x <= log.top)
            && (u in log.accepted ==> (v == Fresh <==> 64 <= log.top - u < 1024))
            && (u !in log.accepted ==> (v != Fresh <==> log.top - u >= 1024))
  {
    RunRepresents(INITIAL, Empty, ss);
    RunIsSeen(INITIAL, ss);
    VerdictIsExact(RunWindow(INITIAL, ss), RunLog(INITIAL, Empty, ss), s);
    hide RunWindow, RunLog, Validate, Unwrap, TestBit;
  }

  /** The replay of `x` gets in, as a condition on how far it trails. */
  ghost predicate GetsIn(log: Log, x: int)
    requires log.Log?
  {
    var d := (log.top - x) % M32;
    d > HALF || 64 <= d < 1024 || (0 < d < 64 && log.top - d !in log.accepted)
  }

  /** Over every run, which of the packets accepted so far get in again. */
  lemma ReplaysOverRuns(ss: seq<Word>)
    requires ss != []
    ensures var w, log := RunWindow(INITIAL, ss), RunLog(INITIAL, Empty, ss);
            && log.Log?
            && forall x :: x in log.accepted ==>
                 && (Validate(w, x % M32).1 == Fresh <==> GetsIn(log, x))
                 && (log.top - x <= HALF ==> (GetsIn(log, x) <==> 64 <= log.top - x < 1024))
  {
    RunRepresents(INITIAL, Empty, ss);
    RunIsSeen(INITIAL, ss);
    var w, log := RunWindow(INITIAL, ss), RunLog(INITIAL, Empty, ss);
    forall x | x in log.accepted
      ensures Validate(w, x % M32).1 == Fresh <==> GetsIn(log, x)
      ensures log.top - x <= HALF ==> (GetsIn(log, x) <==> 64 <= log.top - x < 1024)
    {
      ReplayGetsInIff(w, log, x);
    }
  }

  // ---------- Numbers as sent ----------

  /** The words on the wire for numbers that do not wrap. */
  function Words(ns: seq<int>): seq<Word> {
    seq(|ns|, i requires 0 <= i < |ns| => ns[i] % M32)
  }

  /** The log if every packet were known by the number it was sent with. */
  function SentLog(w: Window, log: Log, ns: seq<int>): Log
    decreases |ns|
  {
    if ns == [] then log
    else
      var (w', v) := Validate(w, ns[0] % M32);
      SentLog(w', if v == Fresh then Accept(log, ns[0]) else log, ns[1..])
  }

  /** Each packet arrives within half the space of the highest one accepted before; the first is in the space itself. */
  ghost predicate InStep(w: Window, log: Log, ns: seq<int>)
    decreases |ns|
  {
    ns == [] ||
    (&& (if log.Empty? then 0 <= ns[0] < M32 else log.top - HALF <= ns[0] < log.top + HALF)
     && var (w', v) := Validate(w, ns[0] % M32);
        InStep(w', if v == Fresh then Accept(log, ns[0]) else log, ns[1..]))
  }

  /** While packets arrive in step, the receiver's log is the log of the numbers that were sent. */
  lemma {:induction false} LogIsAsSent(w: Window, log: Log, ns: seq<int>)
    requires InStep(w, log, ns)
    ensures RunLog(w, log, Words(ns)) == SentLog(w, log, ns)
    decreases |ns|
  {
    hide Validate, Unwrap, Accept;
    if ns != [] {
      var n := ns[0];
      assert Words(ns)[0] == n % M32 && Words(ns)[1..] == Words(ns[1..]);
      ReadsAsSent(log, n);
      var (w', v) := Validate(w, n % M32);
      LogIsAsSent(w', if v == Fresh then Accept(log, n) else log, ns[1..]);
    }
  }

  /**
   For packets that arrive in step: what was accepted are numbers that were sent, and the replay of one that trails by
   no more than half the space gets in exactly when it trails by 64 to 1023.
   */
  lemma ReplaysOfSentPackets(ns: seq<int>, n: int)
    requires ns != [] && InStep(INITIAL, Empty, ns)
    ensures var w, log := RunWindow(INITIAL, Words(ns)), SentLog(INITIAL, Empty, ns);
            && log.Log? && (forall x :: x in log.accepted ==> x in ns)
            && (n in log.accepted && log.top - n <= HALF ==>
                  (Validate(w, n % M32).1 == Fresh <==> 64 <= log.top - n < 1024))
  {
    hide InStep, RunWindow, RunLog, SentLog, Validate, GetsIn;
    LogIsAsSent(INITIAL, Empty, ns);
    ReplaysOverRuns(Words(ns));
    AcceptedWasSent(INITIAL, Empty, ns);
  }

  lemma {:induction false} AcceptedWasSent(w: Window, log: Log, ns: seq<int>)
    ensures var log' := SentLog(w, log, ns);
            log'.Log? ==> forall x :: x in log'.accepted ==> x in ns || (log.Log? && x in log.accepted)
    decreases |ns|
  {
    hide Validate;
    if ns != [] {
      var (w', v) := Validate(w, ns[0] % M32);
      AcceptedWasSent(w', if v == Fresh then Accept(log, ns[0]) else log, ns[1..]);
      assert ns == [ns[0]] + ns[1..];
    }
  }

  lemma ReadsAsSent(log: Log, n: int)
    requires if log.Empty? then 0 <= n < M32 else log.top - HALF <= n < log.top + HALF
    ensures Unwrap(log, n % M32) == n
  {
    if log.Log? {
      UnwrapIsRightIff(log, n);
    }
  }

  lemma {:induction false} RunIsSeen(w: Window, ss: seq<Word>)
    requires w.seen || ss != []
    ensures RunWindow(w, ss).seen
    decreases |ss|
  {
    if ss != [] {
      RunIsSeen(Validate(w, ss[0]).0, ss[1..]);
    }
  }

  /** The gap in the protection is real: 64 behind, the very first packet is accepted a second time. */
  lemma OldDuplicateIsAccepted()
    ensures Validate(RunWindow(INITIAL, [0, 64]), 0).1 == Fresh
    ensures RunLog(INITIAL, Empty, [0, 64]) == Log(64, {0, 64})
  {
    var ss: seq<Word> := [0, 64];
    assert ss[1..] == [64] && ss[1..][1..] == [];
    assert Validate(INITIAL, 0) == (Window(0, true, 1), Fresh);
    assert Validate(Window(0, true, 1), 64) == (Window(64, true, 1), Fresh);
    assert RunWindow(INITIAL, ss) == Window(64, true, 1);
  }

  /** So is the other: the first packet gets in again once the numbers have gone nearly all the way round. */
  lemma FarReplayIsAccepted()
    ensures var ss: seq<Word> := [0, 0x7fff_ffff, 0xffff_fffe];
            && RunLog(INITIAL, Empty, ss) == Log(0xffff_fffe, {0, 0x7fff_ffff, 0xffff_fffe})
            && Validate(RunWindow(INITIAL, ss), 0).1 == Fresh
  {
    hide TestBit, SetBit, ShiftLeft;
    var ss: seq<Word> := [0, 0x7fff_ffff, 0xffff_fffe];
    var a, b, c := Window(0, true, 1), Window(0x7fff_ffff, true, 1), Window(0xffff_fffe, true, 1);
    assert ss[1..] == [0x7fff_ffff, 0xffff_fffe] && ss[1..][1..] == [0xffff_fffe] && ss[1..][1..][1..] == [];
    assert Validate(INITIAL, 0) == (a, Fresh);
    assert Validate(a, 0x7fff_ffff) == (b, Fresh);
    assert Validate(b, 0xffff_fffe) == (c, Fresh);
    assert Validate(c, 0).1 == Fresh;
    hide Validate;
    assert RunWindow(INITIAL, ss) == c;
  }

  // ---------- The object ----------

  class ReliabilityState {
    var highest: nat
    var seen: bool
    var mask: nat

    ghost function State(): Window
      reads this
    {
      Window(highest, seen, mask)
    }

    constructor ()
      ensures State() == INITIAL && Represents(State(), Empty)
    {
      highest, seen, mask := 0, false, 0;
    }

    method ValidateSequence(s: Word, ghost log: Log) returns (v: Verdict, ghost log': Log)
      requires Represents(State(), log)
      modifies this
      ensures (State(), v) == Validate(old(State()), s)
      ensures log' == Note(log, s, v) && Represents(State(), log')
    {
      hide Represents, Note, TestBit, SetBit, ShiftLeft;
      StepRepresents(State(), log, s);
      log' := Note(log, s, Validate(State(), s).1);
      if !seen {
        highest, seen, mask := s, true, 1;
        return Fresh, log';
      }
      if s == highest {
        return Duplicate, log';
      }
      var forward := (s - highest) % M32;
      if forward < HALF {
        mask := if forward < 64 then SetBit(ShiftLeft(mask, forward), 0) else 1;
        highest := s;
        return Fresh, log';
      }
      var back := (highest - s) % M32;
      if back >= WINDOW {
        return Stale, log';
      }
      if back < 64 {
        if TestBit(mask, back) {
          return Duplicate, log';
        }
        mask := SetBit(mask, back);
      }
      return Fresh, log';
    }
  }
}
