/** The token bucket in front of the packet path, with the clock passed in and times as reals in seconds. */
module TokenBucket {

  datatype Bucket = Bucket(capacity: real, refill: real, tokens: real, last: real) {
    ghost predicate Valid() {
      0.0 <= tokens <= capacity && refill >= 0.0
    }
  }

  function Full(capacity: nat, refill: real, now: real): Bucket {
    Bucket(capacity as real, refill, capacity as real, now)
  }

  function Min(a: real, b: real): real {
    if a <= b then a else b
  }

  /** Tokens that accrue between two times. */
  function Accrued(refill: real, from: real, to: real): real {
    (to - from) * refill
  }

  lemma AccruedAdds(refill: real, from: real, mid: real, to: real)
    ensures Accrued(refill, from, to) == Accrued(refill, from, mid) + Accrued(refill, mid, to)
    ensures Accrued(refill, from, from) == 0.0
    ensures refill >= 0.0 && from <= to ==> Accrued(refill, from, to) >= 0.0
  {
  }

  /** Tokens at `now`, before anything is taken. A clock that went backwards counts as standing still. */
  function Available(b: Bucket, now: real): real {
    Min(b.tokens + (if now >= b.last then Accrued(b.refill, b.last, now) else 0.0), b.capacity)
  }

  function TryConsume(b: Bucket, now: real): (Bucket, bool) {
    var tokens := Available(b, now);
    if tokens >= 1.0 then (b.(tokens := tokens - 1.0, last := now), true)
    else (b.(tokens := tokens, last := now), false)
  }

  // ---------- Runs ----------

  /** The bucket after calls at the given times. */
  function After(b: Bucket, ts: seq<real>): Bucket {
    if ts == [] then b else TryConsume(After(b, ts[..|ts| - 1]), ts[|ts| - 1]).0
  }

  /** Which of the calls were granted. */
  function Granted(b: Bucket, ts: seq<real>): (gs: seq<bool>)
    ensures |gs| == |ts|
  {
    if ts == [] then []
    else Granted(b, ts[..|ts| - 1]) + [TryConsume(After(b, ts[..|ts| - 1]), ts[|ts| - 1]).1]
  }

  function Count(gs: seq<bool>): nat {
    if gs == [] then 0 else Count(gs[..|gs| - 1]) + if gs[|gs| - 1] then 1 else 0
  }

  ghost predicate Ascending(start: real, ts: seq<real>) {
    && (forall i :: 0 <= i < |ts| ==> start <= ts[i])
    && (forall i, j :: 0 <= i < j < |ts| ==> ts[i] <= ts[j])
  }

  lemma StepKeepsValid(b: Bucket, now: real)
    requires b.tokens <= b.capacity
    ensures Available(b, now) <= b.capacity && TryConsume(b, now).0.tokens <= b.capacity
    ensures TryConsume(b, now).1 ==> TryConsume(b, now).0.tokens >= 0.0
    ensures b.Valid() ==> TryConsume(b, now).0.Valid() && Available(b, now) >= 0.0
    ensures now <= b.last ==> Available(b, now) == b.tokens
  {
    hide Accrued;
    AccruedAdds(b.refill, b.last, b.last, now);
  }

  /**
   Over every run and at every rate the tokens stay within the capacity and are not negative after a grant;
   at a rate that is not negative they never are.
   */
  lemma {:induction false} RunKeepsValid(b: Bucket, ts: seq<real>)
    requires b.tokens <= b.capacity
    ensures After(b, ts).tokens <= b.capacity && After(b, ts).capacity == b.capacity && After(b, ts).refill == b.refill
    ensures After(b, ts).last == if ts == [] then b.last else ts[|ts| - 1]
    ensures ts != [] && Granted(b, ts)[|ts| - 1] ==> After(b, ts).tokens >= 0.0
    ensures b.Valid() ==> After(b, ts).Valid()
  {
    hide Available;
    if ts != [] {
      RunKeepsValid(b, ts[..|ts| - 1]);
      StepKeepsValid(After(b, ts[..|ts| - 1]), ts[|ts| - 1]);
    }
  }

  // ---------- The level as a minimum over windows ----------

  /** Start of the window that begins with call `j`; call number |ts| is the one at `now`. */
  function WindowStart(ts: seq<real>, now: real, j: nat): real
    requires j <= |ts|
  {
    if j < |ts| then ts[j] else now
  }

  /** What the rate allows from call `j` up to `now`, less what was granted since. */
  function Allowance(b: Bucket, ts: seq<real>, gs: seq<bool>, now: real, j: nat): real
    requires |gs| == |ts| && j <= |ts|
  {
    b.capacity + Accrued(b.refill, WindowStart(ts, now, j), now) - Count(gs[j..]) as real
  }

  lemma AllowanceStep(b: Bucket, ts: seq<real>, gs: seq<bool>, t: real, g: bool, now: real, j: nat)
    requires |gs| == |ts| && j <= |ts|
    ensures Allowance(b, ts + [t], gs + [g], now, j)
         == Allowance(b, ts, gs, t, j) + Accrued(b.refill, t, now) - (if g then 1.0 else 0.0)
  {
    hide Accrued;
    var all := (gs + [g])[j..];
    assert all == gs[j..] + [g];
    assert all[..|all| - 1] == gs[j..];
    AccruedAdds(b.refill, WindowStart(ts, t, j), t, now);
  }

  lemma AllowanceNow(b: Bucket, ts: seq<real>, gs: seq<bool>, now: real)
    requires |gs| == |ts|
    ensures Allowance(b, ts, gs, now, |ts|) == b.capacity
  {
    hide Accrued;
    AccruedAdds(b.refill, now, now, now);
    assert gs[|ts|..] == [];
  }

  /** The calls with the making of the bucket in front, as an event that was not granted. */
  function Events(b: Bucket, ts: seq<real>): (es: seq<real>)
    ensures |es| == |ts| + 1
  {
    [b.last] + ts
  }

  function Grants(b: Bucket, ts: seq<real>): (gs: seq<bool>)
    ensures |gs| == |ts| + 1
  {
    [false] + Granted(b, ts)
  }

  /**
   From a full bucket, at any rate, the level before a call is the least allowance over all windows that end
   there and begin with a call or with the making of the bucket.
   */
  lemma {:induction false} LevelIsLeastAllowance(b: Bucket, ts: seq<real>, now: real) returns (j: nat)
    requires b.tokens == b.capacity && Ascending(b.last, ts + [now])
    ensures j <= |ts| + 1 && Available(After(b, ts), now) == Allowance(b, Events(b, ts), Grants(b, ts), now, j)
    ensures forall k :: 0 <= k <= |ts| + 1 ==>
              Available(After(b, ts), now) <= Allowance(b, Events(b, ts), Grants(b, ts), now, k)
    decreases |ts|
  {
    hide Allowance, Accrued, After, Available, Events, Grants, Granted;
    assert (ts + [now])[|ts|] == now;
    if ts == [] {
      j := LevelOfNew(b, now);
    } else {
      var init, t := ts[..|ts| - 1], ts[|ts| - 1];
      assert init + [t] == ts;
      assert forall i :: 0 <= i < |ts| ==> (ts + [now])[i] == ts[i];
      j := LevelIsLeastAllowance(b, init, t);
      AllowancesLater(b, ts, now);
      AllowanceNow(b, Events(b, ts), Grants(b, ts), now);
      var level := LevelAfter(b, ts, now);
      if level + Accrued(b.refill, t, now) > b.capacity {
        j := |ts| + 1;
      }
    }
  }

  /** All windows that began earlier lose or gain the same from one call to the next. */
  lemma AllowancesLater(b: Bucket, ts: seq<real>, now: real)
    requires ts != []
    ensures var init, t := ts[..|ts| - 1], ts[|ts| - 1];
            var g := TryConsume(After(b, init), t).1;
            forall k :: 0 <= k <= |ts| ==>
              Allowance(b, Events(b, ts), Grants(b, ts), now, k)
              == Allowance(b, Events(b, init), Grants(b, init), t, k) + Accrued(b.refill, t, now) - (if g then 1.0 else 0.0)
  {
    hide Allowance, Accrued, TryConsume, After;
    var init, t := ts[..|ts| - 1], ts[|ts| - 1];
    var g := TryConsume(After(b, init), t).1;
    assert Events(b, ts) == Events(b, init) + [t] && Grants(b, ts) == Grants(b, init) + [g];
    forall k | 0 <= k <= |ts|
      ensures Allowance(b, Events(b, ts), Grants(b, ts), now, k)
           == Allowance(b, Events(b, init), Grants(b, init), t, k) + Accrued(b.refill, t, now) - (if g then 1.0 else 0.0)
    {
      AllowanceStep(b, Events(b, init), Grants(b, init), t, g, now, k);
    }
  }

  lemma LevelOfNew(b: Bucket, now: real) returns (j: nat)
    requires b.tokens == b.capacity && b.last <= now
    ensures j <= 1 && Available(After(b, []), now) == Allowance(b, Events(b, []), Grants(b, []), now, j)
    ensures forall k :: 0 <= k <= 1 ==> Available(After(b, []), now) <= Allowance(b, Events(b, []), Grants(b, []), now, k)
  {
    hide Accrued;
    AllowanceNow(b, Events(b, []), Grants(b, []), now);
    assert Grants(b, [])[0..] == [false] && Count([false]) == 0;
    assert Allowance(b, Events(b, []), Grants(b, []), now, 0) == b.capacity + Accrued(b.refill, b.last, now);
    j := if Accrued(b.refill, b.last, now) <= 0.0 then 0 else 1;
  }

  /** The level one call later. */
  lemma LevelAfter(b: Bucket, ts: seq<real>, now: real) returns (level: real)
    requires b.tokens <= b.capacity && ts != [] && ts[|ts| - 1] <= now
    ensures var init, t := ts[..|ts| - 1], ts[|ts| - 1];
            && level == Available(After(b, init), t) - (if TryConsume(After(b, init), t).1 then 1.0 else 0.0)
            && Available(After(b, ts), now) == Min(level + Accrued(b.refill, t, now), b.capacity)
  {
    hide Accrued;
    RunKeepsValid(b, ts);
    level := After(b, ts).tokens;
  }

  // ---------- The two sides of the limit ----------

  /** Granting a call at `now` would put the window that begins with event `j` over capacity + refill * length. */
  ghost predicate OverLimit(b: Bucket, ts: seq<real>, now: real, j: nat)
    requires j <= |ts| + 1
  {
    Count(Grants(b, ts)[j..]) as real + 1.0 > b.capacity + Accrued(b.refill, WindowStart(Events(b, ts), now, j), now)
  }

  /**
   At any rate a call is refused exactly when granting it would put some window that ends with it over the limit:
   the limiter is as generous as its limit permits. When the rate is not negative, only windows that begin with a
   call need to be looked at.
   */
  lemma {:induction false} RefusedIffOverLimit(capacity: nat, refill: real, start: real, ts: seq<real>, now: real)
    requires Ascending(start, ts + [now])
    ensures var b := Full(capacity, refill, start);
            && (!TryConsume(After(b, ts), now).1 <==> exists j :: 0 <= j <= |ts| + 1 && OverLimit(b, ts, now, j))
            && (refill >= 0.0 ==>
                  (!TryConsume(After(b, ts), now).1 <==> exists j :: 1 <= j <= |ts| + 1 && OverLimit(b, ts, now, j)))
  {
    hide Accrued;
    var b := Full(capacity, refill, start);
    var j := LevelIsLeastAllowance(b, ts, now);
    RefusedMeans(After(b, ts), now);
    FirstCallIsWorse(b, ts, now);
    hide After, Granted, Available, TryConsume, Count, WindowStart, Events, Grants;
    if !TryConsume(After(b, ts), now).1 {
      assert Allowance(b, Events(b, ts), Grants(b, ts), now, j) < 1.0;
      assert OverLimit(b, ts, now, j);
    } else {
      forall k | 0 <= k <= |ts| + 1
        ensures !OverLimit(b, ts, now, k)
      {
        assert Allowance(b, Events(b, ts), Grants(b, ts), now, k) >= 1.0;
      }
    }
  }

  /** A window that begins with the making of the bucket allows no less than the one from the first call on. */
  lemma FirstCallIsWorse(b: Bucket, ts: seq<real>, now: real)
    requires Ascending(b.last, ts + [now])
    ensures b.refill >= 0.0 && OverLimit(b, ts, now, 0) ==> OverLimit(b, ts, now, 1)
  {
    hide Accrued;
    var first := WindowStart(Events(b, ts), now, 1);
    assert first == (ts + [now])[0];
    AccruedAdds(b.refill, b.last, first, now);
    AccruedAdds(b.refill, b.last, b.last, first);
    assert Grants(b, ts)[0..] == [false] + Grants(b, ts)[1..];
    CountFirst(Grants(b, ts)[1..]);
  }

  lemma {:induction false} CountFirst(gs: seq<bool>)
    ensures Count([false] + gs) == Count(gs)
  {
    if gs != [] {
      CountFirst(gs[..|gs| - 1]);
      assert ([false] + gs)[..|gs|] == [false] + gs[..|gs| - 1];
    }
  }

  lemma RefusedMeans(b: Bucket, now: real)
    ensures !TryConsume(b, now).1 <==> Available(b, now) < 1.0
  {
    hide Available;
  }

  /** At most capacity + refill * (its length) calls are granted in the window of calls i..j. */
  ghost predicate WithinLimit(b: Bucket, ts: seq<real>, i: nat, j: nat)
    requires i < j <= |ts|
  {
    Count(Granted(b, ts)[i..j]) as real <= b.capacity + Accrued(b.refill, ts[i], ts[j - 1])
  }

  /** Every window of every run is within the limit, if the rate is not negative or the window ends with a grant. */
  lemma {:induction false} WindowBound(b: Bucket, ts: seq<real>, i: nat, j: nat)
    requires b.tokens <= b.capacity && Ascending(b.last, ts) && i < j <= |ts|
    ensures b.Valid() || Granted(b, ts)[j - 1] ==> WithinLimit(b, ts, i, j)
  {
    hide Accrued, After, Granted, Count;
    GrantedPrefix(b, ts, j);
    GrantsAndTokens(b, ts[..j], i);
    RunKeepsValid(b, ts[..j]);
    assert Granted(b, ts)[i..j] == Granted(b, ts)[..j][i..];
  }

  lemma {:induction false} GrantedPrefix(b: Bucket, ts: seq<real>, j: nat)
    requires j <= |ts|
    ensures Granted(b, ts)[..j] == Granted(b, ts[..j])
  {
    if j < |ts| {
      GrantedPrefix(b, ts[..|ts| - 1], j);
      assert ts[..|ts| - 1][..j] == ts[..j];
    } else {
      assert ts[..j] == ts;
    }
  }

  /** Grants since call `i` and the tokens left never exceed what was available then plus what accrued. */
  lemma {:induction false} GrantsAndTokens(b: Bucket, ts: seq<real>, i: nat)
    requires b.tokens <= b.capacity && Ascending(b.last, ts) && i < |ts|
    ensures Count(Granted(b, ts)[i..]) as real + After(b, ts).tokens <= b.capacity + Accrued(b.refill, ts[i], ts[|ts| - 1])
    decreases |ts|
  {
    hide Accrued, Count, Available;
    var n := |ts| - 1;
    var init, t := ts[..n], ts[n];
    RunKeepsValid(b, init);
    LastStep(b, ts);
    var g := Granted(b, ts)[n];
    if i == n {
      AccruedAdds(b.refill, t, t, t);
      CountLast([], g);
      CountNone();
      assert Granted(b, ts)[i..] == [] + [g];
    } else {
      CountLast(Granted(b, init)[i..], g);
      assert Granted(b, ts)[i..] == Granted(b, init)[i..] + [g];
      GrantsAndTokens(b, init, i);
      AccruedAdds(b.refill, ts[i], ts[n - 1], t);
    }
  }

  /** What the last call does to the grants and the tokens. */
  lemma LastStep(b: Bucket, ts: seq<real>)
    requires b.tokens <= b.capacity && Ascending(b.last, ts) && ts != []
    ensures var n := |ts| - 1;
            var init, g := ts[..n], Granted(b, ts)[n];
            var taken := if g then 1.0 else 0.0;
            && Granted(b, ts) == Granted(b, init) + [g]
            && After(b, ts).tokens + taken <= b.capacity
            && (n > 0 ==> After(b, ts).tokens + taken <= After(b, init).tokens + Accrued(b.refill, ts[n - 1], ts[n]))
  {
    hide Accrued;
    RunKeepsValid(b, ts[..|ts| - 1]);
  }

  lemma CountNone()
    ensures Count([]) == 0
  {
  }

  lemma CountLast(gs: seq<bool>, g: bool)
    ensures Count(gs + [g]) == Count(gs) + (if g then 1 else 0)
  {
    assert (gs + [g])[..|gs|] == gs;
  }

  // ---------- Which rates keep the promise ----------

  /** In every run the tokens are never negative. */
  ghost predicate NeverOverdrawn(b: Bucket) {
    forall ts :: Ascending(b.last, ts) ==> After(b, ts).tokens >= 0.0
  }

  /** In every run every window of calls is within the limit. */
  ghost predicate AlwaysWithinLimit(b: Bucket) {
    forall ts, i: nat, j: nat :: i < j <= |ts| && Ascending(b.last, ts) ==> WithinLimit(b, ts, i, j)
  }

  /** Whatever the capacity, either promise is kept over all runs exactly when the refill rate is not negative. */
  lemma PromiseKeptIff(capacity: nat, refill: real, start: real)
    ensures NeverOverdrawn(Full(capacity, refill, start)) <==> refill >= 0.0
    ensures AlwaysWithinLimit(Full(capacity, refill, start)) <==> refill >= 0.0
  {
    hide After, Granted, WithinLimit;
    var b := Full(capacity, refill, start);
    if refill >= 0.0 {
      forall ts | Ascending(b.last, ts)
        ensures After(b, ts).tokens >= 0.0
      {
        RunKeepsValid(b, ts);
      }
      forall ts, i: nat, j: nat | i < j <= |ts| && Ascending(b.last, ts)
        ensures WithinLimit(b, ts, i, j)
      {
        WindowBound(b, ts, i, j);
      }
    } else {
      var wait := (capacity as real + 1.0) / -refill;
      var ts := [start, start + wait];
      Drained(capacity, refill, start, wait);
      assert After(b, ts).tokens < 0.0 && !WithinLimit(b, ts, 0, 2);
    }
  }

  /** At a negative rate, a second call late enough finds the bucket overdrawn. */
  lemma Drained(capacity: nat, refill: real, start: real, wait: real)
    requires wait >= 0.0 && wait * refill <= -(capacity as real + 1.0)
    ensures var b, ts := Full(capacity, refill, start), [start, start + wait];
            Ascending(b.last, ts) && After(b, ts).tokens < 0.0 && !WithinLimit(b, ts, 0, 2)
  {
    var b, ts := Full(capacity, refill, start), [start, start + wait];
    assert ts[..1] == [start] && [start][..0] == [];
    AccruedAdds(refill, start, start, start);
    assert Accrued(refill, start, start + wait) == wait * refill;
    hide Accrued;
    var a := After(b, [start]);
    assert After(b, []) == b && a.tokens <= capacity as real && a.last == start;
    assert !TryConsume(a, start + wait).1;
    assert After(b, ts) == TryConsume(a, start + wait).0;
  }

  /** For instance: at a rate of -1 a bucket of one token is nine short after ten seconds. */
  lemma NegativeRateFails()
    ensures var b, ts := Full(1, -1.0, 0.0), [0.0, 10.0];
            After(b, ts).tokens < 0.0 && !WithinLimit(b, ts, 0, 2)
  {
    Drained(1, -1.0, 0.0, 10.0);
  }

  // ---------- The object ----------

  class RateLimiter {
    const capacity: real
    const refill: real
    var tokens: real
    var last: real

    ghost function State(): Bucket
      reads this
    {
      Bucket(capacity, refill, tokens, last)
    }

    constructor (capacity: nat, refill: real, now: real)
      ensures State() == Full(capacity, refill, now)
    {
      this.capacity, this.refill := capacity as real, refill;
      tokens, last := capacity as real, now;
    }

    method Consume(now: real) returns (ok: bool)
      modifies this
      ensures (State(), ok) == TryConsume(old(State()), now)
      ensures old(State().Valid()) ==> State().Valid()
    {
      if State().Valid() {
        StepKeepsValid(State(), now);
      }
      var gained := if now >= last then Accrued(refill, last, now) else 0.0;
      last := now;
      tokens := Min(tokens + gained, capacity);
      if tokens >= 1.0 {
        tokens := tokens - 1.0;
        return true;
      }
      return false;
    }
  }
}
