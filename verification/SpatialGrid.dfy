/**
 The uniform grid over entity positions, and the interest tiers built on it.

 Coordinates are reals. A comparison of a horizontal distance with a radius is made on squares,
 which for reals is the same comparison.
 */
module SpatialIndex {
  import opened Sequences

  type Entity = nat

  datatype Vec3 = Vec3(x: real, y: real, z: real)

  const CELL: real := 64.0

  type CellKey = (int, int)

  /** Conversion of a floored coordinate to 32 bits saturates. */
  function ToI32(n: int): int {
    if n < -0x8000_0000 then -0x8000_0000 else if n > 0x7fff_ffff then 0x7fff_ffff else n
  }

  function CellOf(p: Vec3): CellKey {
    (ToI32((p.x / CELL).Floor), ToI32((p.y / CELL).Floor))
  }

  /** The horizontal distance of `a` and `b` is at most `radius`. */
  predicate Within(a: Vec3, b: Vec3, radius: real) {
    radius >= 0.0 && SquaredDistance(a, b) <= radius * radius
  }

  /** The square of the horizontal distance. */
  function SquaredDistance(a: Vec3, b: Vec3): real {
    var dx, dy := a.x - b.x, a.y - b.y;
    dx * dx + dy * dy
  }

  // ---------- Geometry ----------

  lemma AbsBound(d: real, e: real, r: real)
    requires r >= 0.0 && d * d + e * e <= r * r
    ensures -r <= d <= r
  {
    assert e * e >= 0.0 && (-d) * (-d) == d * d;
    SquareGrows(r, d);
    SquareGrows(r, -d);
  }

  lemma SquareGrows(r: real, d: real)
    ensures 0.0 <= r < d ==> d * d > r * r
  {
    if 0.0 <= r < d {
      assert (d - r) * d > 0.0 && (d - r) * r >= 0.0;
      assert (d - r) * d == d * d - r * d && (d - r) * r == d * r - r * r;
    }
  }

  lemma CellMonotone(a: real, b: real)
    requires a <= b
    ensures ToI32((a / CELL).Floor) <= ToI32((b / CELL).Floor)
  {
    assert a / CELL <= b / CELL;
  }

  /** A position is in the cell of 64 by 64 that holds it, on either side of zero, as far as cell numbers reach. */
  lemma CellHolds(p: Vec3)
    ensures var k := CellOf(p);
            && (-0x8000_0000 < k.0 < 0x7fff_ffff ==> 64.0 * k.0 as real <= p.x < 64.0 * (k.0 + 1) as real)
            && (-0x8000_0000 < k.1 < 0x7fff_ffff ==> 64.0 * k.1 as real <= p.y < 64.0 * (k.1 + 1) as real)
  {
  }

  ghost predicate InBox(k: CellKey, lo: CellKey, hi: CellKey) {
    lo.0 <= k.0 <= hi.0 && lo.1 <= k.1 <= hi.1
  }

  lemma WithinBox(p: Vec3, center: Vec3, radius: real)
    requires Within(p, center, radius)
    ensures center.x - radius <= p.x <= center.x + radius && center.y - radius <= p.y <= center.y + radius
  {
    var dx, dy := p.x - center.x, p.y - center.y;
    AbsBound(dx, dy, radius);
    AbsBound(dy, dx, radius);
  }

  /** Every point of the query circle lies in one of the scanned cells. */
  lemma CircleIsScanned(p: Vec3, center: Vec3, radius: real)
    requires Within(p, center, radius)
    ensures InBox(CellOf(p), CellOf(Vec3(center.x - radius, center.y - radius, center.z)),
                  CellOf(Vec3(center.x + radius, center.y + radius, center.z)))
  {
    hide Within, ToI32;
    WithinBox(p, center, radius);
    CellMonotone(center.x - radius, p.x);
    CellMonotone(p.x, center.x + radius);
    CellMonotone(center.y - radius, p.y);
    CellMonotone(p.y, center.y + radius);
  }

  lemma WithinIsSymmetric(a: Vec3, b: Vec3, radius: real)
    ensures Within(a, b, radius) <==> Within(b, a, radius)
  {
    assert (a.x - b.x) * (a.x - b.x) == (b.x - a.x) * (b.x - a.x);
    assert (a.y - b.y) * (a.y - b.y) == (b.y - a.y) * (b.y - a.y);
  }

  // ---------- Interest tiers ----------

  const RADIUS_NEAR: real := 128.0
  const RADIUS_MEDIUM: real := 384.0
  const RADIUS_FAR: real := 1024.0

  datatype InterestTier = High | Medium | Low | NotReplicated

  function TierOf(observer: Vec3, p: Vec3): (t: InterestTier)
    ensures t.High? <==> Within(observer, p, RADIUS_NEAR)
    ensures t.High? || t.Medium? <==> Within(observer, p, RADIUS_MEDIUM)
    ensures t.NotReplicated? <==> !Within(observer, p, RADIUS_FAR)
  {
    if Within(observer, p, RADIUS_NEAR) then High
    else if Within(observer, p, RADIUS_MEDIUM) then Medium
    else if Within(observer, p, RADIUS_FAR) then Low
    else NotReplicated
  }

  /** The tiers in figures: up to 128 high, up to 384 medium, up to 1024 low, farther none; height does not matter. */
  lemma TierTable(x: real, z: real)
    requires x >= 0.0
    ensures var t := TierOf(Vec3(0.0, 0.0, 0.0), Vec3(x, 0.0, z));
            t == if x <= 128.0 then High else if x <= 384.0 then Medium else if x <= 1024.0 then Low else NotReplicated
  {
    SquareOrder(x, 128.0);
    SquareOrder(x, 384.0);
    SquareOrder(x, 1024.0);
    assert SquaredDistance(Vec3(0.0, 0.0, 0.0), Vec3(x, 0.0, z)) == x * x;
    hide SquaredDistance;
  }

  lemma SquareOrder(a: real, b: real)
    requires a >= 0.0 && b >= 0.0
    ensures a <= b <==> a * a <= b * b
  {
    if a > b {
      SquareGrows(b, a);
    } else {
      assert b * b - a * a == (b - a) * (b + a);
    }
  }

  /** How much bandwidth a tier gets, most first. */
  function Urgency(t: InterestTier): nat {
    match t
    case High => 3
    case Medium => 2
    case Low => 1
    case NotReplicated => 0
  }

  /** Nothing farther away is replicated with more urgency than something nearer. */
  lemma TiersFollowDistance(observer: Vec3, p: Vec3, q: Vec3)
    requires SquaredDistance(observer, p) <= SquaredDistance(observer, q)
    ensures Urgency(TierOf(observer, q)) <= Urgency(TierOf(observer, p))
  {
    hide SquaredDistance;
  }

  // ---------- The index ----------

  /** Each entity sits exactly once, in the cell of its position, and no cell is kept empty. */
  ghost predicate Consistent(cells: map<CellKey, seq<Entity>>, positions: map<Entity, Vec3>) {
    && (forall k :: k in cells ==> cells[k] != [] && NoDuplicates(cells[k]))
    && (forall k, e :: k in cells && e in cells[k] ==> e in positions && CellOf(positions[e]) == k)
    && (forall e :: e in positions ==> CellOf(positions[e]) in cells && e in cells[CellOf(positions[e])])
  }

  /** The cells after taking `e` out of the cell `k` it is in. */
  function TakeOut(cells: map<CellKey, seq<Entity>>, k: CellKey, e: Entity): map<CellKey, seq<Entity>> {
    if k !in cells then cells
    else if Without(cells[k], e) == [] then cells - {k}
    else cells[k := Without(cells[k], e)]
  }

  function PutIn(cells: map<CellKey, seq<Entity>>, k: CellKey, e: Entity): map<CellKey, seq<Entity>> {
    cells[k := (if k in cells then cells[k] else []) + [e]]
  }

  lemma TakeOutConsistent(cells: map<CellKey, seq<Entity>>, positions: map<Entity, Vec3>, e: Entity)
    requires Consistent(cells, positions) && e in positions
    ensures Consistent(TakeOut(cells, CellOf(positions[e]), e), positions - {e})
  {
    hide CellOf, Without, NoDuplicates;
    var k := CellOf(positions[e]);
    WithoutMembers(cells[k], e);
    var cells', positions' := TakeOut(cells, k, e), positions - {e};
    forall x | x in positions'
      ensures CellOf(positions'[x]) in cells' && x in cells'[CellOf(positions'[x])]
    {
      assert CellOf(positions[x]) in cells && x in cells[CellOf(positions[x])];
    }
    forall j, x | j in cells' && x in cells'[j]
      ensures x in positions' && CellOf(positions'[x]) == j
    {
      assert j in cells && x in cells[j];
    }
  }

  lemma PutInConsistent(cells: map<CellKey, seq<Entity>>, positions: map<Entity, Vec3>, e: Entity, p: Vec3)
    requires Consistent(cells, positions) && e !in positions
    ensures Consistent(PutIn(cells, CellOf(p), e), positions[e := p])
  {
    var k := CellOf(p);
    var cell := if k in cells then cells[k] else [];
    AppendFresh(cell, e);
    hide CellOf;
  }

  // ---------- The replication set ----------

  /** What the replication set of an observer holds. */
  predicate Replicated(positions: map<Entity, Vec3>, observer: Vec3, e: Entity) {
    e in positions && positions[e] != observer && Within(positions[e], observer, RADIUS_FAR)
  }

  /**
   Seen from an entity of its own, an observer's set has every other entity in range exactly when none of them is at
   the very same position.
   */
  lemma ReplicationCompleteIff(positions: map<Entity, Vec3>, own: Entity)
    requires own in positions
    ensures var observer := positions[own];
            (forall e :: e in positions && e != own && Within(positions[e], observer, RADIUS_FAR) ==>
               Replicated(positions, observer, e))
            <==> forall e :: e in positions && e != own ==> positions[e] != observer
  {
    var observer := positions[own];
    assert Within(observer, observer, RADIUS_FAR);
    hide Within;
    if forall e :: e in positions && e != own && Within(positions[e], observer, RADIUS_FAR) ==>
         Replicated(positions, observer, e) {
      forall e | e in positions && e != own
        ensures positions[e] != observer
      {
        assert positions[e] == observer ==> Replicated(positions, observer, e);
      }
    }
  }

  /** Two entities at one position are not replicated to each other. */
  lemma SharedPositionIsLeftOut(p: Vec3)
    ensures var positions := map[1 := p, 2 := p];
            Within(positions[2], positions[1], RADIUS_FAR) && !Replicated(positions, positions[1], 2)
  {
  }

  class SpatialGrid {
    var cells: map<CellKey, seq<Entity>>
    var positions: map<Entity, Vec3>

    ghost predicate Valid()
      reads this
    {
      Consistent(cells, positions)
    }

    constructor ()
      ensures Valid() && positions == map[]
    {
      cells, positions := map[], map[];
    }

    /** Take an entity out of a cell, dropping the cell when it becomes empty. */
    method DropFromCell(k: CellKey, e: Entity)
      modifies this`cells
      ensures cells == TakeOut(old(cells), k, e)
    {
      if k in cells {
        var cell := Without(cells[k], e);
        if cell == [] {
          cells := cells - {k};
        } else {
          cells := cells[k := cell];
        }
      }
    }

    method Upsert(e: Entity, p: Vec3)
      requires Valid()
      modifies this
      ensures Valid() && positions == old(positions)[e := p]
    {
      hide CellOf;
      var k := CellOf(p);
      ghost var before, without := cells, positions - {e};
      if e in positions {
        var oldKey := CellOf(positions[e]);
        TakeOutConsistent(cells, positions, e);
        if oldKey == k {
          positions := positions[e := p];
          SameCell(before, old(positions), e, p);
          return;
        }
        DropFromCell(oldKey, e);
      } else {
        assert without == positions;
      }
      PutInConsistent(cells, without, e, p);
      assert positions[e := p] == without[e := p];
      cells := cells[k := (if k in cells then cells[k] else []) + [e]];
      positions := positions[e := p];
    }

    method Remove(e: Entity)
      requires Valid()
      modifies this
      ensures Valid() && positions == old(positions) - {e}
    {
      if e in positions {
        var p := positions[e];
        TakeOutConsistent(cells, positions, e);
        positions := positions - {e};
        DropFromCell(CellOf(p), e);
      }
    }

    /** Append the entities of one cell that are within the radius. */
    method ScanCell(cell: seq<Entity>, center: Vec3, radius: real, out: seq<Entity>) returns (out': seq<Entity>)
      requires NoDuplicates(cell) && NoDuplicates(out)
      requires forall e :: e in cell ==> e in positions && e !in out
      ensures NoDuplicates(out')
      ensures forall e :: e in out' <==> e in out || (e in cell && Within(positions[e], center, radius))
    {
      hide Within;
      out' := out;
      for i := 0 to |cell|
        invariant NoDuplicates(out')
        invariant forall e :: e in out' <==> e in out || (e in cell[..i] && Within(positions[e], center, radius))
      {
        assert cell[..i + 1] == cell[..i] + [cell[i]];
        assert cell[i] in cell && cell[i] !in cell[..i];
        if cell[i] in positions && Within(positions[cell[i]], center, radius) {
          out' := out' + [cell[i]];
        }
      }
      assert cell[..|cell|] == cell;
    }

    /** The radius query returns exactly what scanning all entities would, each once. */
    method QueryRadius(center: Vec3, radius: real) returns (out: seq<Entity>)
      requires Valid()
      ensures NoDuplicates(out)
      ensures forall e :: e in out <==> e in positions && Within(positions[e], center, radius)
    {
      var lo := CellOf(Vec3(center.x - radius, center.y - radius, center.z));
      var hi := CellOf(Vec3(center.x + radius, center.y + radius, center.z));
      forall e | e in positions && Within(positions[e], center, radius)
        ensures InBox(CellOf(positions[e]), lo, hi)
      {
        CircleIsScanned(positions[e], center, radius);
      }
      hide CellOf, Within;
      out := [];
      var cx := lo.0;
      while cx <= hi.0
        invariant lo.0 <= cx && (cx <= hi.0 + 1 || cx == lo.0)
        invariant NoDuplicates(out)
        invariant forall e :: e in out <==> e in positions && Within(positions[e], center, radius)
                                            && InBox(CellOf(positions[e]), lo, (cx - 1, hi.1))
      {
        out := ScanColumn(cx, lo.1, hi.1, center, radius, out);
        cx := cx + 1;
      }
    }

    /** The inner loop of the query: one column of cells. */
    method ScanColumn(cx: int, lo: int, hi: int, center: Vec3, radius: real, out: seq<Entity>)
      returns (out': seq<Entity>)
      requires Valid() && NoDuplicates(out)
      requires forall e :: e in out ==> e in positions && CellOf(positions[e]).0 != cx
      ensures NoDuplicates(out')
      ensures forall e :: e in out' <==> e in out || (e in positions && Within(positions[e], center, radius)
                                                      && InBox(CellOf(positions[e]), (cx, lo), (cx, hi)))
    {
      hide CellOf, Within;
      out' := out;
      var cy := lo;
      while cy <= hi
        invariant lo <= cy && (cy <= hi + 1 || cy == lo)
        invariant NoDuplicates(out')
        invariant forall e :: e in out' <==> e in out || (e in positions && Within(positions[e], center, radius)
                                                          && InBox(CellOf(positions[e]), (cx, lo), (cx, cy - 1)))
      {
        if (cx, cy) in cells {
          out' := ScanCell(cells[(cx, cy)], center, radius, out');
        }
        cy := cy + 1;
      }
    }

    /** Every other indexed entity in range with its tier; an entity exactly at the observer is its own body. */
    method ReplicationSet(observer: Vec3) returns (out: seq<(Entity, InterestTier)>)
      requires Valid()
      ensures forall i, j :: 0 <= i < j < |out| ==> out[i].0 != out[j].0
      ensures forall e, t :: (e, t) in out <==> Replicated(positions, observer, e) && t == TierOf(observer, positions[e])
      ensures forall r :: r in out ==> r.1 != NotReplicated
    {
      var found := QueryRadius(observer, RADIUS_FAR);
      out := [];
      for i := 0 to |found|
        invariant forall j, k :: 0 <= j < k < |out| ==> out[j].0 != out[k].0
        invariant forall r :: r in out ==> r.0 in found[..i] && r.1 != NotReplicated
        invariant forall e, t :: (e, t) in out <==> (e in found[..i] && positions[e] != observer
                                                    && t == TierOf(observer, positions[e]))
      {
        hide Within;
        var e := found[i];
        assert found[..i + 1] == found[..i] + [e] && e in found && e !in found[..i];
        var p := positions[e];
        if p != observer {
          WithinIsSymmetric(p, observer, RADIUS_FAR);
          out := out + [(e, TierOf(observer, p))];
        }
      }
      assert found[..|found|] == found;
    }
  }

  lemma SameCell(cells: map<CellKey, seq<Entity>>, positions: map<Entity, Vec3>, e: Entity, p: Vec3)
    requires Consistent(cells, positions) && e in positions && CellOf(positions[e]) == CellOf(p)
    ensures Consistent(cells, positions[e := p])
  {
    hide CellOf;
  }
}
