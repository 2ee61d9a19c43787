/**
 Position history for lag compensation: a bounded, tick-ordered track per entity.

 The reference view is the full record: for every entity, the last position written at each tick
 since the entity was last forgotten.
 */
module LagCompensation {
  import opened SpatialIndex
  import opened Wrappers

  type Tick = nat

  datatype Sample = Sample(tick: Tick, pos: Vec3)

  /** An ordered map from ticks to positions, as its entries in ascending order. */
  type Track = seq<Sample>

  predicate Sorted(t: Track) {
    forall i, j :: 0 <= i < j < |t| ==> t[i].tick < t[j].tick
  }

  /** Number of entries before tick `k`. */
  function Lower(t: Track, k: Tick): (n: nat)
    ensures n <= |t|
  {
    if t == [] || t[0].tick >= k then 0 else 1 + Lower(t[1..], k)
  }

  predicate Has(t: Track, k: Tick) {
    Lower(t, k) < |t| && t[Lower(t, k)].tick == k
  }

  /** Insertion into the ordered map; an entry at the same tick is replaced. */
  function Insert(t: Track, s: Sample): Track {
    var n := Lower(t, s.tick);
    t[..n] + [s] + (if Has(t, s.tick) then t[n + 1..] else t[n..])
  }

  /** Keep the newest `cap` entries. */
  function Prune(t: Track, cap: nat): Track {
    if |t| > cap then t[|t| - cap..] else t
  }

  ghost predicate Holds(t: Track, k: Tick) {
    exists x :: x in t && x.tick == k
  }

  lemma {:induction false} LowerBounds(t: Track, k: Tick)
    requires Sorted(t)
    ensures forall i :: 0 <= i < Lower(t, k) ==> t[i].tick < k
    ensures forall i :: Lower(t, k) <= i < |t| ==> t[i].tick >= k
    ensures Has(t, k) <==> Holds(t, k)
  {
    if t != [] && t[0].tick < k {
      LowerBounds(t[1..], k);
      assert forall i :: 0 < i < |t| ==> t[i] == t[1..][i - 1];
    }
  }

  // ---------- The full record ----------

  type Written = map<Tick, Vec3>

  /**
   The track holds the newest `cap` distinct ticks ever written, all of them if there are fewer,
   each with the position last written there.
   */
  ghost predicate IsNewest(t: Track, full: Written, cap: nat) {
    && Sorted(t)
    && (forall x :: x in t ==> x.tick in full && full[x.tick] == x.pos)
    && |t| == (if |full| < cap then |full| else cap)
    && (forall k, x :: k in full && !Holds(t, k) && x in t ==> k < x.tick)
  }

  ghost function Ticks(t: Track): set<Tick> {
    set i | 0 <= i < |t| :: t[i].tick
  }

  lemma {:induction false} TicksCount(t: Track)
    requires Sorted(t)
    ensures |Ticks(t)| == |t|
  {
    if t == [] {
      assert Ticks(t) == {};
    } else {
      var init, last := t[..|t| - 1], t[|t| - 1];
      TicksCount(init);
      assert Ticks(t) == Ticks(init) + {last.tick};
      assert last.tick !in Ticks(init);
    }
  }

  /** A written tick that is not retained means the track is full. */
  lemma MissingMeansFull(t: Track, full: Written, cap: nat, k: Tick)
    requires IsNewest(t, full, cap) && k in full && !Holds(t, k)
    ensures |t| == cap
  {
    TicksCount(t);
    assert Ticks(t) <= full.Keys - {k};
    Subset(Ticks(t), full.Keys - {k});
  }

  lemma {:induction false} Subset(a: set<Tick>, b: set<Tick>)
    requires a <= b
    ensures |a| <= |b|
  {
    if a != {} {
      var x :| x in a;
      Subset(a - {x}, b - {x});
    }
  }

  /** Insertion changes the entry at its own tick and no other. */
  lemma InsertMembers(t: Track, s: Sample)
    requires Sorted(t)
    ensures Sorted(Insert(t, s))
    ensures |Insert(t, s)| == |t| + (if Holds(t, s.tick) then 0 else 1)
    ensures forall x :: x in Insert(t, s) <==> x == s || (x in t && x.tick != s.tick)
  {
    hide Lower, Holds, Sorted, Insert;
    var a, mid, b := CutTrack(t, s);
    Splice(a, mid, s, b);
  }

  /** The track around the tick of a sample: before it, at it, after it. */
  lemma CutTrack(t: Track, s: Sample) returns (a: Track, mid: Track, b: Track)
    requires Sorted(t)
    ensures t == a + mid + b && Insert(t, s) == a + [s] + b && Sorted(a) && Sorted(b)
    ensures forall i :: 0 <= i < |a| ==> a[i].tick < s.tick
    ensures forall i :: 0 <= i < |b| ==> b[i].tick > s.tick
    ensures forall i :: 0 <= i < |mid| ==> mid[i].tick == s.tick
    ensures |mid| == if Holds(t, s.tick) then 1 else 0
  {
    hide Lower, Holds, Sorted;
    LowerBounds(t, s.tick);
    var n := Lower(t, s.tick);
    var m := if Has(t, s.tick) then n + 1 else n;
    a, mid, b := t[..n], t[n..m], t[m..];
    SortedParts(t, n, m);
    assert mid == if m == n then [] else [t[n]];
    assert Has(t, s.tick) ==> t[n].tick == s.tick;
    assert m == if n < |t| && t[n].tick == s.tick then n + 1 else n;
    AfterCut(t, n, m, s.tick);
  }

  lemma SortedParts(t: Track, n: nat, m: nat)
    requires Sorted(t) && n <= m <= |t|
    ensures Sorted(t[..n]) && Sorted(t[m..]) && t == t[..n] + t[n..m] + t[m..]
  {
  }

  /** Behind an entry at the tick itself, or from a later one on, everything is later. */
  lemma AfterCut(t: Track, n: nat, m: nat, k: Tick)
    requires Sorted(t) && n <= |t| && m == if n < |t| && t[n].tick == k then n + 1 else n
    requires forall i :: n <= i < |t| ==> t[i].tick >= k
    ensures forall i :: 0 <= i < |t[m..]| ==> t[m..][i].tick > k
  {
    forall i | m <= i < |t|
      ensures t[i].tick > k
    {
      assert n < i ==> t[n].tick < t[i].tick;
    }
  }

  /** A sample between two sorted stretches, in place of what is at its own tick. */
  lemma Splice(a: Track, mid: Track, s: Sample, b: Track)
    requires Sorted(a) && Sorted(b)
    requires forall i :: 0 <= i < |a| ==> a[i].tick < s.tick
    requires forall i :: 0 <= i < |b| ==> b[i].tick > s.tick
    requires forall i :: 0 <= i < |mid| ==> mid[i].tick == s.tick
    ensures Sorted(a + [s] + b)
    ensures forall x :: x in a + [s] + b <==> x == s || (x in a + mid + b && x.tick != s.tick)
  {
  }

  lemma InsertHolds(t: Track, s: Sample, k: Tick)
    requires Sorted(t)
    ensures Holds(Insert(t, s), k) <==> k == s.tick || Holds(t, k)
  {
    InsertMembers(t, s);
    hide Insert;
    var u := Insert(t, s);
    assert s in u;
    if x :| x in t && x.tick == k {
      assert k == s.tick || x in u;
    }
  }

  lemma ReplaceKeepsNewest(t: Track, full: Written, cap: nat, s: Sample)
    requires IsNewest(t, full, cap) && (Holds(t, s.tick) || |t| < cap)
    ensures IsNewest(Insert(t, s), full[s.tick := s.pos], cap)
  {
    hide Insert, Sorted;
    InsertMembers(t, s);
    var u, full' := Insert(t, s), full[s.tick := s.pos];
    assert full'.Keys == full.Keys + {s.tick};
    assert |full'| == |full'.Keys| && |full| == |full.Keys|;
    if !Holds(t, s.tick) && s.tick in full {
      MissingMeansFull(t, full, cap, s.tick);
    }
    forall k, x | k in full' && !Holds(u, k) && x in u
      ensures k < x.tick
    {
      InsertHolds(t, s, k);
      if |t| < cap {
        MissingMeansFull(t, full, cap, k);
      } else {
        var y :| y in t && y.tick == s.tick;
      }
    }
  }

  /** Dropping the first entry of a full track loses the oldest tick only. */
  lemma DropKeepsNewest(t: Track, full: Written, cap: nat, s: Sample)
    requires cap > 0 && IsNewest(t, full, cap) && !Holds(t, s.tick) && |t| == cap
    ensures IsNewest(Insert(t, s)[1..], full[s.tick := s.pos], cap)
  {
    hide Insert, Lower;
    InsertMembers(t, s);
    var u, full' := Insert(t, s), full[s.tick := s.pos];
    var v := u[1..];
    assert full'.Keys == full.Keys + {s.tick};
    assert |full'| == |full'.Keys| && |full| == |full.Keys|;
    TailMembers(u);
    assert u[0] in u && t[0] in t && (t[0] in v || t[0] == u[0]);
    forall k, x | k in full' && !Holds(v, k) && x in v
      ensures k < x.tick
    {
      InsertHolds(t, s, k);
      if Holds(u, k) {
        var y :| y in u && y.tick == k;
        assert y == u[0];
      } else {
        assert forall y :: y in t ==> k < y.tick;
        assert x in u && u[0].tick < x.tick;
        if x == s {
          OlderExists(t, u, s);
        }
      }
    }
  }

  lemma TailMembers(u: Track)
    requires Sorted(u) && u != []
    ensures Sorted(u[1..])
    ensures forall x :: x in u[1..] <==> x in u && x != u[0]
    ensures forall x :: x in u[1..] ==> u[0].tick < x.tick
  {
    assert u == [u[0]] + u[1..];
  }

  /** If the new sample survives the drop, something of the track was below it. */
  lemma OlderExists(t: Track, u: Track, s: Sample)
    requires Sorted(u) && u != [] && s in u[1..]
    requires forall x :: x in u <==> x == s || (x in t && x.tick != s.tick)
    ensures u[0] in t && u[0].tick < s.tick
  {
    TailMembers(u);
    assert u[0] in u;
  }

  /** Recording keeps the track the newest part of the full record. */
  lemma RecordKeepsNewest(t: Track, full: Written, cap: nat, s: Sample)
    requires IsNewest(t, full, cap)
    ensures IsNewest(Prune(Insert(t, s), cap), full[s.tick := s.pos], cap)
  {
    hide IsNewest, Insert, Lower;
    NewestIsSorted(t, full, cap);
    InsertMembers(t, s);
    if Holds(t, s.tick) || |t| < cap {
      ReplaceKeepsNewest(t, full, cap, s);
    } else if cap > 0 {
      DropKeepsNewest(t, full, cap, s);
    } else {
      assert Prune(Insert(t, s), 0) == [];
      NoneIsNewest(full[s.tick := s.pos]);
    }
  }

  lemma NoneIsNewest(full: Written)
    ensures IsNewest([], full, 0)
  {
  }

  lemma NewestIsSorted(t: Track, full: Written, cap: nat)
    requires IsNewest(t, full, cap)
    ensures Sorted(t) && |t| <= cap
  {
  }

  /** Nothing else is the newest part of a record: it determines the track. */
  lemma NewestIsUnique(t: Track, u: Track, full: Written, cap: nat)
    requires IsNewest(t, full, cap) && IsNewest(u, full, cap)
    ensures t == u
  {
    forall x: Sample
      ensures x in t <==> x in u
    {
      if x in t {
        NewestContains(t, u, full, cap, x);
      }
      if x in u {
        NewestContains(u, t, full, cap, x);
      }
    }
    SortedSame(t, u);
  }

  lemma NewestContains(t: Track, u: Track, full: Written, cap: nat, x: Sample)
    requires IsNewest(t, full, cap) && IsNewest(u, full, cap) && x in t
    ensures x in u
  {
    TicksCount(t);
    TicksCount(u);
    forall k: Tick
      ensures k in Ticks(t) <==> Holds(t, k)
      ensures k in Ticks(u) <==> Holds(u, k)
    {
      TicksHold(t, k);
      TicksHold(u, k);
    }
    hide Ticks, Sorted;
    assert Holds(t, x.tick);
    TopSetsAgree(Ticks(t), Ticks(u), full.Keys);
    var y :| y in u && y.tick == x.tick;
  }

  lemma TicksHold(t: Track, k: Tick)
    ensures k in Ticks(t) <==> Holds(t, k)
  {
    if k in Ticks(t) {
      var i :| 0 <= i < |t| && t[i].tick == k;
      assert t[i] in t;
    }
    if x :| x in t && x.tick == k {
      var i :| 0 <= i < |t| && t[i] == x;
    }
  }

  /** Two equally large sets of the greatest elements of a set: one contains the other. */
  lemma TopSetsAgree(a: set<Tick>, b: set<Tick>, all: set<Tick>)
    requires a <= all && b <= all && |a| == |b|
    requires forall k, x :: k in all && k !in a && x in a ==> k < x
    requires forall k, x :: k in all && k !in b && x in b ==> k < x
    ensures a <= b
  {
    assert |a - b| == |b - a| by {
      assert a == (a - b) + a * b && b == (b - a) + a * b;
    }
    if x :| x in a - b {
      assert false;
    }
  }

  lemma {:induction false} SortedSame(t: Track, u: Track)
    requires Sorted(t) && Sorted(u)
    requires forall x :: x in t <==> x in u
    ensures t == u
  {
    if t == [] {
      assert forall i :: 0 <= i < |u| ==> u[i] in u;
    } else {
      assert t[0] in t && t[0] in u;
      assert u[0] in u && u[0] in t;
      TailMembers(t);
      TailMembers(u);
      assert t[0] == u[0];
      SortedSame(t[1..], u[1..]);
      assert t == [t[0]] + t[1..] && u == [u[0]] + u[1..];
    }
  }

  // ---------- Rewinding ----------

  function Lerp(a: real, b: real, f: real): real {
    a + (b - a) * f
  }

  /** The position at a tick: the sample there, the point between its neighbours, or nothing. */
  function At(t: Track, k: Tick): Option<Vec3>
    requires Sorted(t)
  {
    var n := Lower(t, k);
    if Has(t, k) then Some(t[n].pos)
    else if n == 0 || n == |t| then None
    else
      LowerBounds(t, k);
      var (a, b) := (t[n - 1], t[n]);
      var f := (k - a.tick) as real / (b.tick - a.tick) as real;
      Some(Vec3(Lerp(a.pos.x, b.pos.x, f), Lerp(a.pos.y, b.pos.y, f), Lerp(a.pos.z, b.pos.z, f)))
  }

  /** Nothing is returned exactly outside the retained span: no guessing beyond the first or last sample. */
  lemma AtNoneIff(t: Track, k: Tick)
    requires Sorted(t)
    ensures At(t, k).None? <==> t == [] || k < t[0].tick || k > t[|t| - 1].tick
  {
    LowerBounds(t, k);
  }

  ghost predicate Between(a: real, x: real, b: real) {
    a <= x <= b || b <= x <= a
  }

  lemma LerpBetween(a: real, b: real, f: real)
    requires 0.0 <= f <= 1.0
    ensures Between(a, Lerp(a, b, f), b)
  {
    var d := b - a;
    Scale(d, f);
    Scale(d, 1.0 - f);
    assert d * f + d * (1.0 - f) == d;
  }

  lemma Scale(d: real, f: real)
    requires f >= 0.0
    ensures d >= 0.0 ==> d * f >= 0.0
    ensures d <= 0.0 ==> d * f <= 0.0
  {
  }

  lemma FractionInRange(a: nat, k: nat, b: nat)
    requires a < k < b
    ensures 0.0 <= (k - a) as real / (b - a) as real <= 1.0
  {
    var x, y := (k - a) as real, (b - a) as real;
    QuotientInRange(x, y, x / y);
  }

  lemma QuotientInRange(x: real, y: real, q: real)
    requires 0.0 < x < y && q * y == x
    ensures 0.0 <= q <= 1.0
  {
    assert (q - 1.0) * y == x - y;
    if q < 0.0 {
      Scale(q, y);
      assert false;
    }
    if q > 1.0 {
      Scale(q - 1.0, y);
      assert false;
    }
  }

  /** Between two neighbouring samples, the position lies between theirs in every coordinate. */
  lemma AtIsBracketed(t: Track, k: Tick)
    requires Sorted(t) && At(t, k).Some? && !Holds(t, k)
    ensures var n, p := Lower(t, k), At(t, k).value;
            && 0 < n < |t| && t[n - 1].tick < k < t[n].tick
            && Between(t[n - 1].pos.x, p.x, t[n].pos.x)
            && Between(t[n - 1].pos.y, p.y, t[n].pos.y)
            && Between(t[n - 1].pos.z, p.z, t[n].pos.z)
  {
    LowerBounds(t, k);
    var n := Lower(t, k);
    var a, b := t[n - 1], t[n];
    assert a in t && b in t && a.tick < k < b.tick;
    FractionInRange(a.tick, k, b.tick);
    var f := (k - a.tick) as real / (b.tick - a.tick) as real;
    hide Lerp, Lower;
    LerpBetween(a.pos.x, b.pos.x, f);
    LerpBetween(a.pos.y, b.pos.y, f);
    LerpBetween(a.pos.z, b.pos.z, f);
  }

  /** How far the position is from one neighbour to the other is how far the tick is. */
  lemma {:induction false} AtIsProportional(t: Track, k: Tick)
    requires Sorted(t) && At(t, k).Some? && !Holds(t, k)
    ensures var n, p := Lower(t, k), At(t, k).value;
            && 0 < n < |t|
            && var (a, b) := (t[n - 1], t[n]);
               && (p.x - a.pos.x) * (b.tick - a.tick) as real == (b.pos.x - a.pos.x) * (k - a.tick) as real
               && (p.y - a.pos.y) * (b.tick - a.tick) as real == (b.pos.y - a.pos.y) * (k - a.tick) as real
               && (p.z - a.pos.z) * (b.tick - a.tick) as real == (b.pos.z - a.pos.z) * (k - a.tick) as real
  {
    AtIsBracketed(t, k);
    var n := Lower(t, k);
    var a, b := t[n - 1], t[n];
    var m, d := (k - a.tick) as real, (b.tick - a.tick) as real;
    LowerBounds(t, k);
    hide Lower, Sorted;
    LerpScales(a.pos.x, b.pos.x, m, d);
    LerpScales(a.pos.y, b.pos.y, m, d);
    LerpScales(a.pos.z, b.pos.z, m, d);
  }

  lemma LerpScales(a: real, b: real, m: real, d: real)
    requires d > 0.0
    ensures (Lerp(a, b, m / d) - a) * d == (b - a) * m
  {
    var f := m / d;
    assert f * d == m;
    assert (Lerp(a, b, f) - a) * d == (b - a) * (f * d);
  }

  // ---------- Runs ----------

  datatype Event = Record(entity: Entity, sample: Sample) | Forget(entity: Entity)

  /** The buffer after a sequence of events. */
  function Tracks(cap: nat, es: seq<Event>): map<Entity, Track> {
    if es == [] then map[]
    else
      var m := Tracks(cap, es[..|es| - 1]);
      match es[|es| - 1]
      case Record(e, s) => m[e := Prune(Insert(if e in m then m[e] else [], s), cap)]
      case Forget(e) => m - {e}
  }

  /** Everything written since each entity was last forgotten. */
  function FullRecord(es: seq<Event>): map<Entity, Written> {
    if es == [] then map[]
    else
      var m := FullRecord(es[..|es| - 1]);
      match es[|es| - 1]
      case Record(e, s) => m[e := (if e in m then m[e] else map[])[s.tick := s.pos]]
      case Forget(e) => m - {e}
  }

  /**
   After any out-of-order, duplicate-laden sequence of events, exactly the recorded entities are tracked and each
   track is the newest part of that entity's full record, whatever happened to other entities.
   */
  lemma {:induction false} TracksAreNewest(cap: nat, es: seq<Event>)
    ensures Tracks(cap, es).Keys == FullRecord(es).Keys
    ensures forall e :: e in FullRecord(es) ==> IsNewest(Tracks(cap, es)[e], FullRecord(es)[e], cap)
  {
    hide IsNewest, Insert, Prune;
    if es != [] {
      TracksAreNewest(cap, es[..|es| - 1]);
      match es[|es| - 1] {
        case Record(e, s) =>
          var t, full := Tracks(cap, es[..|es| - 1]), FullRecord(es[..|es| - 1]);
          NothingIsNewest(cap);
          RecordKeepsNewest(if e in t then t[e] else [], if e in full then full[e] else map[], cap, s);
        case Forget(e) =>
      }
    }
  }

  lemma NothingIsNewest(cap: nat)
    ensures IsNewest([], map[], cap)
  {
  }

  // ---------- The object ----------

  class HistoryBuffer {
    const capacity: nat
    var samples: map<Entity, Track>

    ghost predicate Represents(es: seq<Event>)
      reads this
    {
      capacity >= 2 && samples == Tracks(capacity, es)
    }

    constructor (capacityTicks: nat)
      ensures Represents([]) && capacity == if capacityTicks < 2 then 2 else capacityTicks
    {
      capacity := if capacityTicks < 2 then 2 else capacityTicks;
      samples := map[];
    }

    method RecordSample(e: Entity, tick: Tick, pos: Vec3, ghost es: seq<Event>)
      requires Represents(es)
      modifies this
      ensures Represents(es + [Record(e, Sample(tick, pos))])
    {
      hide Insert, Prune;
      var entry := Insert(if e in samples then samples[e] else [], Sample(tick, pos));
      entry := PopToFit(entry);
      samples := samples[e := entry];
      assert (es + [Record(e, Sample(tick, pos))])[..|es|] == es;
    }

    /** The pruning loop: drop first entries while there are too many. */
    method PopToFit(entry: Track) returns (r: Track)
      ensures r == Prune(entry, capacity)
    {
      r := entry;
      ghost var k := 0;
      while |r| > capacity
        invariant 0 <= k <= |entry| && r == entry[k..]
        invariant k == 0 || |r| >= capacity
      {
        r, k := r[1..], k + 1;
      }
    }

    method ForgetEntity(e: Entity, ghost es: seq<Event>) returns (had: bool)
      requires Represents(es)
      modifies this
      ensures Represents(es + [Forget(e)])
      ensures had <==> e in FullRecord(es)
    {
      TracksAreNewest(capacity, es);
      had := e in samples;
      samples := samples - {e};
      assert (es + [Forget(e)])[..|es|] == es;
    }

    /** A rewind query against the full record. */
    method PositionAt(e: Entity, tick: Tick, ghost es: seq<Event>) returns (r: Option<Vec3>)
      requires Represents(es)
      ensures e in samples <==> e in FullRecord(es)
      ensures e in samples ==> Sorted(samples[e]) && samples[e] != [] && r == At(samples[e], tick)
      ensures r.None? <==> e !in samples || tick < samples[e][0].tick
                           || tick > samples[e][|samples[e]| - 1].tick
      ensures e in samples && Holds(samples[e], tick) ==>
                tick in FullRecord(es)[e] && r == Some(FullRecord(es)[e][tick])
    {
      TracksAreNewest(capacity, es);
      if e !in samples {
        return None;
      }
      var t := samples[e];
      RecordedIsNonEmpty(es, e);
      AtNoneIff(t, tick);
      LowerBounds(t, tick);
      r := At(t, tick);
    }
  }

  lemma {:induction false} RecordedIsNonEmpty(es: seq<Event>, e: Entity)
    requires e in FullRecord(es)
    ensures |FullRecord(es)[e]| > 0
  {
    if es != [] {
      if es[|es| - 1].Forget? || es[|es| - 1].entity != e {
        RecordedIsNonEmpty(es[..|es| - 1], e);
      } else {
        assert es[|es| - 1].sample.tick in FullRecord(es)[e];
      }
    }
  }
}
