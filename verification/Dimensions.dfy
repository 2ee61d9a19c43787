/**
 Isolation planes per entity, and whole runs of the store together with the plane map.

 The plane map is keyed by index and generation, so an id issued later never inherits an assignment
 made to an earlier occupant of its slot, as long as ids are not reused.
 */
module Dimensions {
  import opened Entities
  import opened Sequences
  import opened Wrappers

  type Dimension = nat

  /** Where everything unassigned lives. */
  const DEFAULT: Dimension := 0

  type Planes = map<EntityId, Dimension>

  function DimensionOf(s: Store, dims: Planes, id: EntityId): Option<Dimension> {
    if Get(s, id).None? then None else Some(if id in dims then dims[id] else DEFAULT)
  }

  function Assign(s: Store, dims: Planes, id: EntityId, d: Dimension): Planes {
    if Get(s, id).None? then dims else dims[id := d]
  }

  function Pruned(s: Store, dims: Planes): Planes {
    map id | id in dims && Get(s, id).Some? :: dims[id]
  }

  /** Live members of a plane, as the map lists them. */
  function MembersOf(s: Store, dims: Planes, d: Dimension): set<EntityId> {
    set id | id in dims && dims[id] == d && Get(s, id).Some?
  }

  predicate VisibleTo(s: Store, dims: Planes, a: EntityId, b: EntityId) {
    match (DimensionOf(s, dims, a), DimensionOf(s, dims, b))
    case (Some(x), Some(y)) => x == y
    case _ => false
  }

  /**
   Listing a plane gives all its live members for every plane but the default one; the default plane is
   listed in full exactly when no live entity is there merely by being unassigned.
   */
  lemma MembersCompleteIff(s: Store, dims: Planes, d: Dimension)
    requires s.Valid()
    ensures (forall id :: DimensionOf(s, dims, id) == Some(d) ==> id in MembersOf(s, dims, d))
            <==> d != DEFAULT || s.Live() <= dims.Keys
    ensures forall id :: id in MembersOf(s, dims, d) ==> DimensionOf(s, dims, id) == Some(d)
  {
    if d == DEFAULT && !(s.Live() <= dims.Keys) {
      var id :| id in s.Live() && id !in dims;
      GetIffLive(s, id);
      assert DimensionOf(s, dims, id) == Some(d);
    } else {
      forall id | DimensionOf(s, dims, id) == Some(d)
        ensures id in MembersOf(s, dims, d)
      {
        GetIffLive(s, id);
      }
    }
  }

  /** The default plane's listing misses an entity as soon as one is spawned. */
  lemma UnassignedIsUnlisted(authority: Authority)
    ensures EMPTY.Valid()
    ensures var (s, id) := Spawn(EMPTY, authority);
            DimensionOf(s, map[], id) == Some(DEFAULT) && MembersOf(s, map[], DEFAULT) == {}
  {
  }

  /** Within one state, visibility splits the live entities into planes. */
  lemma VisibilityIsAnEquivalence(s: Store, dims: Planes, a: EntityId, b: EntityId, c: EntityId)
    ensures VisibleTo(s, dims, a, a) <==> Get(s, a).Some?
    ensures VisibleTo(s, dims, a, b) <==> VisibleTo(s, dims, b, a)
    ensures VisibleTo(s, dims, a, b) && VisibleTo(s, dims, b, c) ==> VisibleTo(s, dims, a, c)
  {
  }

  // ---------- Runs ----------

  datatype World = World(store: Store, dims: Planes)

  const START: World := World(EMPTY, map[])

  datatype Op =
    | SpawnOp(authority: Authority)
    | DestroyOp(id: EntityId)
    | SetOp(id: EntityId, dim: Dimension)
    | RemoveOp(id: EntityId)
    | PruneOp

  function Step(w: World, op: Op): (w': World)
    requires w.store.Valid()
    ensures w'.store.Valid()
  {
    match op
    case SpawnOp(authority) => w.(store := Spawn(w.store, authority).0)
    case DestroyOp(id) => w.(store := Destroy(w.store, id).0)
    case SetOp(id, dim) => w.(dims := Assign(w.store, w.dims, id, dim))
    case RemoveOp(id) => w.(dims := w.dims - {id})
    case PruneOp => w.(dims := Pruned(w.store, w.dims))
  }

  /** What has happened so far: ids issued in order, ids spawned and not destroyed, and their planes. */
  datatype Record = Record(issued: seq<EntityId>, live: set<EntityId>, plane: map<EntityId, Dimension>)

  /** Bookkeeping that knows nothing of slots, free lists or generations, only the ids it is told. */
  function Note(w: World, r: Record, op: Op): Record
    requires w.store.Valid()
  {
    match op
    case SpawnOp(authority) =>
      var id := Spawn(w.store, authority).1;
      Record(r.issued + [id], r.live + {id}, r.plane[id := DEFAULT])
    case DestroyOp(id) => r.(live := r.live - {id})
    case SetOp(id, dim) => if id in r.live then r.(plane := r.plane[id := dim]) else r
    case RemoveOp(id) => if id in r.live then r.(plane := r.plane[id := DEFAULT]) else r
    case PruneOp => r
  }

  function Run(w: World, ops: seq<Op>): (w': World)
    requires w.store.Valid()
    ensures w'.store.Valid()
    decreases |ops|
  {
    if ops == [] then w else Run(Step(w, ops[0]), ops[1..])
  }

  function RunRecord(w: World, r: Record, ops: seq<Op>): Record
    requires w.store.Valid()
    decreases |ops|
  {
    if ops == [] then r else RunRecord(Step(w, ops[0]), Note(w, r, ops[0]), ops[1..])
  }

  const NOTHING: Record := Record([], {}, map[])

  /** The store's live ids and numbering are those of the record. */
  ghost predicate Agrees(w: World, r: Record)
    requires w.store.Valid()
  {
    && Continues(w.store, r.issued)
    && w.store.Live() == r.live
    && (forall id :: id in r.live ==> id in r.plane)
  }

  lemma StepAgrees(w: World, r: Record, op: Op)
    requires w.store.Valid() && Agrees(w, r)
    ensures Agrees(Step(w, op), Note(w, r, op))
  {
    hide Continues, Spawn, Destroy, Store.Live, Store.Valid;
    match op
    case SpawnOp(authority) =>
      SpawnLive(w.store, authority);
      SpawnContinues(w.store, r.issued, authority);
    case DestroyOp(id) =>
      DestroyLive(w.store, id);
      DestroyContinues(w.store, r.issued, id);
    case _ =>
  }

  lemma {:induction false} RunAgrees(w: World, r: Record, ops: seq<Op>)
    requires w.store.Valid() && Agrees(w, r)
    ensures Agrees(Run(w, ops), RunRecord(w, r, ops))
    decreases |ops|
  {
    hide Step, Note, Agrees;
    if ops != [] {
      StepAgrees(w, r, ops[0]);
      RunAgrees(Step(w, ops[0]), Note(w, r, ops[0]), ops[1..]);
    }
  }

  lemma StartAgrees()
    ensures START.store.Valid() && Agrees(START, NOTHING)
  {
  }

  /**
   Generational identity, over any interleaving: an id resolves exactly when it was spawned and not destroyed
   since, and no id is issued twice exactly when no slot is handed out more than 2^32 times.
   */
  lemma GenerationalIdentity(ops: seq<Op>, id: EntityId)
    ensures var w, r := Run(START, ops), RunRecord(START, NOTHING, ops);
            && (Get(w.store, id).Some? <==> id in r.live)
            && (NoDuplicates(r.issued) <==> forall i: nat :: IssuedAt(r.issued, i) <= U32)
  {
    StartAgrees();
    RunAgrees(START, NOTHING, ops);
    var w, r := Run(START, ops), RunRecord(START, NOTHING, ops);
    GetIffLive(w.store, id);
    IdsDistinctIff(r.issued);
  }

  // ---------- A build that checks for overflow ----------

  /** The operation would take a generation past 32 bits: a checking build stops there. */
  predicate Traps(w: World, op: Op) {
    op.DestroyOp? && Get(w.store, op.id).Some? && op.id.generation == U32 - 1
  }

  predicate NeverTraps(w: World, ops: seq<Op>)
    requires w.store.Valid()
    decreases |ops|
  {
    ops == [] || (!Traps(w, ops[0]) && NeverTraps(Step(w, ops[0]), ops[1..]))
  }

  /** No slot's numbering has wrapped yet. */
  ghost predicate Unwrapped(s: Store, ids: seq<EntityId>) {
    forall i :: 0 <= i < |s.slots| ==> IssuedAt(ids, i) - (if s.slots[i].Some? then 1 else 0) < U32
  }

  lemma StepUnwrapped(w: World, r: Record, op: Op)
    requires w.store.Valid() && Agrees(w, r) && Unwrapped(w.store, r.issued) && !Traps(w, op)
    ensures Unwrapped(Step(w, op).store, Note(w, r, op).issued)
  {
    hide IssuedAt, Numbered;
    match op
    case SpawnOp(authority) =>
      var (t, id) := Spawn(w.store, authority);
      assert w.store.free != [] ==> id.index in w.store.free;
      forall i | 0 <= i < |t.slots|
        ensures IssuedAt(r.issued + [id], i) - (if t.slots[i].Some? then 1 else 0) < U32
      {
        IssuedAtAppend(r.issued, id, i);
      }
    case DestroyOp(id) =>
      if Destroy(w.store, id).1 {
        SmallMod(IssuedAt(r.issued, id.index));
      }
    case _ =>
  }

  lemma {:induction false} RunUnwrapped(w: World, r: Record, ops: seq<Op>)
    requires w.store.Valid() && Agrees(w, r) && Unwrapped(w.store, r.issued) && NeverTraps(w, ops)
    ensures Unwrapped(Run(w, ops).store, RunRecord(w, r, ops).issued)
    decreases |ops|
  {
    hide Step, Note, Agrees, Unwrapped, Traps;
    if ops != [] {
      StepUnwrapped(w, r, ops[0]);
      StepAgrees(w, r, ops[0]);
      RunUnwrapped(Step(w, ops[0]), Note(w, r, ops[0]), ops[1..]);
    }
  }

  /** So in a checking build, as long as a run goes on, no id is ever issued twice. */
  lemma CheckedIdsAreDistinct(ops: seq<Op>)
    requires NeverTraps(START, ops)
    ensures NoDuplicates(RunRecord(START, NOTHING, ops).issued)
  {
    hide Run, RunRecord, NeverTraps, NoDuplicates;
    StartAgrees();
    RunAgrees(START, NOTHING, ops);
    RunUnwrapped(START, NOTHING, ops);
    IdsDistinctIff(RunRecord(START, NOTHING, ops).issued);
  }

  // ---------- A run that reuses an id ----------

  /** Slot 0 handed out and given back `n` times, from generation `g` on. */
  function Cycles(g: nat, n: nat): seq<Op>
    decreases n
  {
    if n == 0 then []
    else [SpawnOp(Server), DestroyOp(EntityId(0, g % U32))] + Cycles(g + 1, n - 1)
  }

  /** No entity, and slot 0 about to be handed out with generation `g`. */
  ghost predicate Idle(s: Store, g: nat) {
    (g == 0 && s == EMPTY) || s == Store([None], [0], [g % U32])
  }

  ghost function CycledIds(g: nat, n: nat): seq<EntityId> {
    seq(n, (k: nat) => EntityId(0, (g + k) % U32))
  }

  lemma RunFirst(w: World, r: Record, op: Op, rest: seq<Op>)
    requires w.store.Valid()
    ensures Run(w, [op] + rest) == Run(Step(w, op), rest)
    ensures RunRecord(w, r, [op] + rest) == RunRecord(Step(w, op), Note(w, r, op), rest)
  {
    hide Step, Note;
    assert ([op] + rest)[1..] == rest;
  }

  /** Slot 0 in use under the given id. */
  ghost function InUse(id: EntityId): Store {
    Store([Some(Entity(id, Server, true))], [], [id.generation])
  }

  lemma SpawnIdle(s: Store, g: nat)
    requires s.Valid() && Idle(s, g)
    ensures var id := EntityId(0, g % U32); Spawn(s, Server) == (InUse(id), id)
  {
    assert 0 % U32 == 0;
    var (t, id) := Spawn(s, Server);
    var entity := Some(Entity(id, Server, true));
    assert t.slots == [entity] && t.free == [] && t.generations == [g % U32];
  }

  lemma DestroyInUse(id: EntityId)
    requires id.index == 0 && id.generation < U32
    ensures InUse(id).Valid() && Get(InUse(id), id).Some?
    ensures Destroy(InUse(id), id) == (Store([None], [0], [(id.generation + 1) % U32]), true)
  {
    var t := Destroy(InUse(id), id).0;
    assert t.slots == [None] && t.free == [0] && t.generations == [(id.generation + 1) % U32];
  }

  lemma NextIsIdle(g: nat)
    ensures Idle(Store([None], [0], [(g % U32 + 1) % U32]), g + 1)
  {
    WrapStep(g);
  }

  lemma CycleStep(w: World, r: Record, g: nat)
    requires w.store.Valid() && Idle(w.store, g)
    ensures var id := EntityId(0, g % U32);
            var v, q := Step(w, SpawnOp(Server)), Note(w, r, SpawnOp(Server));
            var u, p := Step(v, DestroyOp(id)), Note(v, q, DestroyOp(id));
            u.dims == w.dims && Idle(u.store, g + 1) && p.issued == r.issued + [id]
  {
    hide Spawn, Destroy, Store.Valid, InUse, Idle, Get;
    SpawnIdle(w.store, g);
    DestroyInUse(EntityId(0, g % U32));
    NextIsIdle(g);
  }

  lemma {:induction false} CyclesRun(w: World, r: Record, g: nat, n: nat)
    requires w.store.Valid() && Idle(w.store, g)
    ensures var w' := Run(w, Cycles(g, n)); w'.dims == w.dims && Idle(w'.store, g + n)
    ensures RunRecord(w, r, Cycles(g, n)).issued == r.issued + CycledIds(g, n)
    decreases n
  {
    hide Cycles, Step, Note, Run, RunRecord, Idle, CycledIds, Store.Valid;
    if n == 0 {
      NoCycles(w, r, g);
    } else {
      var id, rest := EntityId(0, g % U32), Cycles(g + 1, n - 1);
      CyclesFirst(g, n);
      CycledIdsFirst(g, n);
      RunFirst(w, r, SpawnOp(Server), [DestroyOp(id)] + rest);
      var v, q := Step(w, SpawnOp(Server)), Note(w, r, SpawnOp(Server));
      RunFirst(v, q, DestroyOp(id), rest);
      var u, p := Step(v, DestroyOp(id)), Note(v, q, DestroyOp(id));
      CycleStep(w, r, g);
      CyclesRun(u, p, g + 1, n - 1);
      assert r.issued + [id] + CycledIds(g + 1, n - 1) == r.issued + ([id] + CycledIds(g + 1, n - 1));
    }
  }

  lemma NoCycles(w: World, r: Record, g: nat)
    requires w.store.Valid()
    ensures Run(w, Cycles(g, 0)) == w && RunRecord(w, r, Cycles(g, 0)) == r && CycledIds(g, 0) == []
  {
    hide Step, Note;
  }

  lemma {:induction false} CyclesFirst(g: nat, n: nat)
    requires n > 0
    ensures Cycles(g, n) == [SpawnOp(Server)] + ([DestroyOp(EntityId(0, g % U32))] + Cycles(g + 1, n - 1))
  {
    var id, rest := EntityId(0, g % U32), Cycles(g + 1, n - 1);
    assert Cycles(g, n) == [SpawnOp(Server), DestroyOp(id)] + rest;
    hide Cycles;
    assert [SpawnOp(Server), DestroyOp(id)] == [SpawnOp(Server)] + [DestroyOp(id)];
  }

  lemma CycledIdsFirst(g: nat, n: nat)
    requires n > 0
    ensures CycledIds(g, n) == [EntityId(0, g % U32)] + CycledIds(g + 1, n - 1)
  {
  }

  lemma {:induction false} CycledAtSlotZero(ids: seq<EntityId>, i: nat)
    requires forall k :: 0 <= k < |ids| ==> ids[k].index == 0
    ensures IssuedAt(ids, i) == if i == 0 then |ids| else 0
  {
    if ids != [] {
      CycledAtSlotZero(ids[..|ids| - 1], i);
    }
  }

  /** Both sides are reached: handing out one slot `n` times in a row repeats an id exactly from 2^32 + 1 times on. */
  lemma CyclesReuseIff(n: nat)
    ensures var ids := RunRecord(START, NOTHING, Cycles(0, n)).issued;
            |ids| == IssuedAt(ids, 0) == n && (NoDuplicates(ids) <==> n <= U32)
  {
    hide Run, RunRecord, Cycles, NoDuplicates;
    StartAgrees();
    RunAgrees(START, NOTHING, Cycles(0, n));
    CyclesRun(START, NOTHING, 0, n);
    var ids := RunRecord(START, NOTHING, Cycles(0, n)).issued;
    assert ids == CycledIds(0, n);
    forall i: nat
      ensures IssuedAt(ids, i) == if i == 0 then n else 0
    {
      CycledAtSlotZero(ids, i);
    }
    IdsDistinctIff(ids);
  }

  // ---------- Planes over a run ----------

  function Plane(dims: Planes, id: EntityId): Dimension {
    if id in dims then dims[id] else DEFAULT
  }

  /** Every live id reads as the plane last assigned to it in its own life, and no other id reads as anything. */
  ghost predicate Faithful(w: World, r: Record) {
    forall id :: DimensionOf(w.store, w.dims, id) == if id in r.live then Some(Plane(r.plane, id)) else None
  }

  /** The operation spawns an id that still has an assignment from an earlier life. */
  predicate Inherits(w: World, op: Op)
    requires w.store.Valid()
  {
    op.SpawnOp? && Plane(w.dims, Spawn(w.store, op.authority).1) != DEFAULT
  }

  predicate NeverInherits(w: World, ops: seq<Op>)
    requires w.store.Valid()
    decreases |ops|
  {
    ops == [] || (!Inherits(w, ops[0]) && NeverInherits(Step(w, ops[0]), ops[1..]))
  }

  ghost predicate AlwaysFaithful(w: World, r: Record, ops: seq<Op>)
    requires w.store.Valid() && Agrees(w, r)
    decreases |ops|
  {
    && Faithful(w, r)
    && (ops == [] || (StepAgrees(w, r, ops[0]); AlwaysFaithful(Step(w, ops[0]), Note(w, r, ops[0]), ops[1..])))
  }

  lemma FaithfulIsPlane(w: World, r: Record)
    requires w.store.Valid() && Agrees(w, r)
    ensures Faithful(w, r) <==> forall id :: id in r.live ==> Plane(w.dims, id) == Plane(r.plane, id)
    ensures forall id :: Get(w.store, id).Some? <==> id in r.live
  {
    hide Continues, Store.Live, Store.Valid, Get;
    forall id: EntityId
      ensures DimensionOf(w.store, w.dims, id) == if id in r.live then Some(Plane(w.dims, id)) else None
      ensures Get(w.store, id).Some? <==> id in r.live
    {
      GetIffLive(w.store, id);
    }
    if Faithful(w, r) {
      forall id | id in r.live
        ensures Plane(w.dims, id) == Plane(r.plane, id)
      {
        assert DimensionOf(w.store, w.dims, id) == Some(Plane(r.plane, id));
      }
    }
  }

  lemma StepFaithfulIff(w: World, r: Record, op: Op)
    requires w.store.Valid() && Agrees(w, r) && Faithful(w, r)
    ensures Agrees(Step(w, op), Note(w, r, op))
    ensures Faithful(Step(w, op), Note(w, r, op)) <==> !Inherits(w, op)
  {
    StepAgrees(w, r, op);
    FaithfulIsPlane(w, r);
    FaithfulIsPlane(Step(w, op), Note(w, r, op));
    hide Agrees, Faithful, Spawn, Destroy, Store.Live, Store.Valid, Get;
    match op
    case SpawnOp(authority) =>
      SpawnLive(w.store, authority);
      var id := Spawn(w.store, authority).1;
      LiveAgrees(w, r);
      assert id !in r.live;
    case SetOp(id, dim) =>
    case _ =>
  }

  lemma LiveAgrees(w: World, r: Record)
    requires w.store.Valid() && Agrees(w, r)
    ensures w.store.Live() == r.live
  {
  }

  lemma {:induction false} AlwaysFaithfulIff(w: World, r: Record, ops: seq<Op>)
    requires w.store.Valid() && Agrees(w, r) && Faithful(w, r)
    ensures AlwaysFaithful(w, r, ops) <==> NeverInherits(w, ops)
    decreases |ops|
  {
    hide Agrees, Step, Note, Inherits;
    if ops != [] {
      StepFaithfulIff(w, r, ops[0]);
      if !Inherits(w, ops[0]) {
        AlwaysFaithfulIff(Step(w, ops[0]), Note(w, r, ops[0]), ops[1..]);
      } else {
        assert !Faithful(Step(w, ops[0]), Note(w, r, ops[0]));
      }
    }
  }

  lemma {:induction false} FaithfulAtEnd(w: World, r: Record, ops: seq<Op>)
    requires w.store.Valid() && Agrees(w, r) && AlwaysFaithful(w, r, ops)
    ensures Agrees(Run(w, ops), RunRecord(w, r, ops)) && Faithful(Run(w, ops), RunRecord(w, r, ops))
    decreases |ops|
  {
    hide Agrees, Step, Note, Faithful;
    if ops != [] {
      StepAgrees(w, r, ops[0]);
      FaithfulAtEnd(Step(w, ops[0]), Note(w, r, ops[0]), ops[1..]);
    }
  }

  /** Assignments are made to issued ids only. */
  ghost predicate Assigned(dims: Planes, r: Record) {
    (forall id :: id in dims ==> id in r.issued) && (forall id :: id in r.live ==> id in r.issued)
  }

  lemma StepAssigned(w: World, r: Record, op: Op)
    requires w.store.Valid() && Agrees(w, r) && Assigned(w.dims, r)
    ensures Assigned(Step(w, op).dims, Note(w, r, op))
  {
    hide Continues, Spawn, Destroy, Store.Live, Store.Valid, Get;
    if op.SetOp? {
      GetIffLive(w.store, op.id);
    }
  }

  lemma SpawnsAreNew(w: World, r: Record, op: Op, ops: seq<Op>)
    requires w.store.Valid() && op.SpawnOp?
    requires NoDuplicates(RunRecord(Step(w, op), Note(w, r, op), ops).issued)
    ensures Spawn(w.store, op.authority).1 !in r.issued
  {
    hide Spawn;
    RecordGrows(Step(w, op), Note(w, r, op), ops);
    var id := Spawn(w.store, op.authority).1;
    FreshIsNew(r.issued, id);
  }

  lemma FreshIsNew(ids: seq<EntityId>, id: EntityId)
    requires NoDuplicates(ids + [id])
    ensures id !in ids
  {
    var all := ids + [id];
    assert all[|ids|] == id && forall k :: 0 <= k < |ids| ==> all[k] == ids[k];
  }

  lemma {:induction false} RecordGrows(w: World, r: Record, ops: seq<Op>)
    requires w.store.Valid()
    ensures r.issued <= RunRecord(w, r, ops).issued
    decreases |ops|
  {
    if ops != [] {
      RecordGrows(Step(w, ops[0]), Note(w, r, ops[0]), ops[1..]);
    }
  }

  lemma {:induction false} DistinctNeverInherits(w: World, r: Record, ops: seq<Op>)
    requires w.store.Valid() && Agrees(w, r) && Assigned(w.dims, r)
    requires NoDuplicates(RunRecord(w, r, ops).issued)
    ensures NeverInherits(w, ops)
    decreases |ops|
  {
    hide Agrees, Step, Note, NoDuplicates;
    if ops != [] {
      StepAgrees(w, r, ops[0]);
      StepAssigned(w, r, ops[0]);
      DistinctNeverInherits(Step(w, ops[0]), Note(w, r, ops[0]), ops[1..]);
      if ops[0].SpawnOp? {
        SpawnsAreNew(w, r, ops[0], ops[1..]);
      }
    }
  }

  /**
   At every moment of a run a live id's plane is the last one assigned to that very id, else the default, exactly
   when no spawn reissues an id that still has an assignment; and that is so as long as ids are not reused.
   */
  lemma {:induction false} PlaneIsLastAssignment(ops: seq<Op>)
    ensures Agrees(START, NOTHING) && (AlwaysFaithful(START, NOTHING, ops) <==> NeverInherits(START, ops))
    ensures NoDuplicates(RunRecord(START, NOTHING, ops).issued) ==> NeverInherits(START, ops)
    ensures NeverInherits(START, ops) ==>
              var w, r := Run(START, ops), RunRecord(START, NOTHING, ops);
              Agrees(w, r) && Faithful(w, r)
  {
    hide Run, RunRecord, AlwaysFaithful, NeverInherits, NoDuplicates;
    StartAgrees();
    FaithfulIsPlane(START, NOTHING);
    AlwaysFaithfulIff(START, NOTHING, ops);
    if NoDuplicates(RunRecord(START, NOTHING, ops).issued) {
      DistinctNeverInherits(START, NOTHING, ops);
    }
    if NeverInherits(START, ops) {
      FaithfulAtEnd(START, NOTHING, ops);
    }
  }

  /** Then two entities see each other exactly when both are alive and were last put into the same plane. */
  lemma VisibleIff(ops: seq<Op>, a: EntityId, b: EntityId)
    requires NeverInherits(START, ops)
    ensures var w, r := Run(START, ops), RunRecord(START, NOTHING, ops);
            VisibleTo(w.store, w.dims, a, b) <==>
              a in r.live && b in r.live && Plane(r.plane, a) == Plane(r.plane, b)
  {
    hide Run, RunRecord, NeverInherits, Agrees, DimensionOf;
    PlaneIsLastAssignment(ops);
  }

  /**
   A run in which it fails: an id assigned once comes back after 2^32 uses of its slot and reads as assigned, unless
   a prune comes before.
   */
  lemma ReusedIdInherits(dim: Dimension, n: nat)
    requires dim != DEFAULT && n == U32 - 1
    ensures var id := EntityId(0, 0);
            var ops := [SpawnOp(Server), SetOp(id, dim), DestroyOp(id)] + Cycles(1, n);
            var w := Run(START, ops);
            && Inherits(w, SpawnOp(Server))
            && Spawn(w.store, Server).1 == id
            && DimensionOf(Step(w, SpawnOp(Server)).store, w.dims, id) == Some(dim)
            && PrunedBefore(Step(w, PruneOp), w, SpawnOp(Server))
  {
    var id, rest := EntityId(0, 0), Cycles(1, n);
    var c := FirstLife(id, dim, rest);
    hide Cycles, Step, Run, Inherits, DimensionOf, PrunedBefore;
    CyclesRun(c, NOTHING, 1, n);
    SpawnAfterWrap(Run(c, rest), id, dim);
  }

  lemma FirstLife(id: EntityId, dim: Dimension, rest: seq<Op>) returns (c: World)
    requires id == EntityId(0, 0)
    ensures c.store.Valid() && Idle(c.store, 1) && c.dims == map[id := dim]
    ensures Run(START, [SpawnOp(Server), SetOp(id, dim), DestroyOp(id)] + rest) == Run(c, rest)
  {
    hide Spawn, Destroy, Store.Valid, InUse, Idle, Get, Run;
    StartIsIdle();
    SpawnIdle(EMPTY, 0);
    DestroyInUse(id);
    NextIsIdle(0);
    var a := Step(START, SpawnOp(Server));
    var b := Step(a, SetOp(id, dim));
    c := Step(b, DestroyOp(id));
    RunFirst(START, NOTHING, SpawnOp(Server), [SetOp(id, dim)] + ([DestroyOp(id)] + rest));
    RunFirst(a, NOTHING, SetOp(id, dim), [DestroyOp(id)] + rest);
    RunFirst(b, NOTHING, DestroyOp(id), rest);
    assert [SpawnOp(Server), SetOp(id, dim), DestroyOp(id)] + rest
        == [SpawnOp(Server)] + ([SetOp(id, dim)] + ([DestroyOp(id)] + rest));
  }

  lemma StartIsIdle()
    ensures EMPTY.Valid() && Idle(EMPTY, 0) && 0 % U32 == 0
  {
  }

  lemma SpawnAfterWrap(w: World, id: EntityId, dim: Dimension)
    requires id == EntityId(0, 0) && dim != DEFAULT
    requires w.store.Valid() && Idle(w.store, U32) && w.dims == map[id := dim]
    ensures Inherits(w, SpawnOp(Server)) && Spawn(w.store, Server).1 == id
    ensures DimensionOf(Step(w, SpawnOp(Server)).store, w.dims, id) == Some(dim)
    ensures PrunedBefore(Step(w, PruneOp), w, SpawnOp(Server))
  {
    assert U32 % U32 == 0;
    assert Get(w.store, id) == None;
    SpawnIdle(w.store, U32);
    DestroyInUse(id);
    hide Spawn, InUse, Get;
  }

  // ---------- Pruning ----------

  function WithoutPrunes(ops: seq<Op>): seq<Op> {
    if ops == [] then [] else (if ops[0].PruneOp? then [] else [ops[0]]) + WithoutPrunes(ops[1..])
  }

  /** The same step in a world that never prunes. */
  function StepUnpruned(v: World, op: Op): (v': World)
    requires v.store.Valid()
    ensures v'.store.Valid()
  {
    if op.PruneOp? then v else Step(v, op)
  }

  ghost predicate SamePlanes(w: World, v: World) {
    forall id :: DimensionOf(w.store, w.dims, id) == DimensionOf(v.store, v.dims, id)
  }

  /** The operation spawns an id whose assignment from an earlier life was pruned in `w` only. */
  predicate PrunedBefore(w: World, v: World, op: Op)
    requires w.store.Valid()
  {
    op.SpawnOp? && var id := Spawn(w.store, op.authority).1; id !in w.dims && Plane(v.dims, id) != DEFAULT
  }

  ghost predicate AlwaysSame(w: World, v: World, ops: seq<Op>)
    requires w.store.Valid() && v.store.Valid()
    decreases |ops|
  {
    SamePlanes(w, v) && (ops != [] ==> AlwaysSame(Step(w, ops[0]), StepUnpruned(v, ops[0]), ops[1..]))
  }

  predicate NeverPrunedBefore(w: World, v: World, ops: seq<Op>)
    requires w.store.Valid() && v.store.Valid()
    decreases |ops|
  {
    ops == [] || (!PrunedBefore(w, v, ops[0]) && NeverPrunedBefore(Step(w, ops[0]), StepUnpruned(v, ops[0]), ops[1..]))
  }

  /** The pruned world has the same entities and some of the same assignments. */
  ghost predicate Thinned(w: World, v: World) {
    && w.store == v.store
    && (forall id :: id in w.dims ==> id in v.dims && v.dims[id] == w.dims[id])
  }

  lemma SamePlanesIs(w: World, v: World)
    requires Thinned(w, v)
    ensures SamePlanes(w, v) <==> forall id :: Get(w.store, id).Some? ==> Plane(w.dims, id) == Plane(v.dims, id)
  {
    hide Get;
    if SamePlanes(w, v) {
      forall id | Get(w.store, id).Some?
        ensures Plane(w.dims, id) == Plane(v.dims, id)
      {
        assert DimensionOf(w.store, w.dims, id) == DimensionOf(v.store, v.dims, id);
      }
    }
  }

  lemma StepSameIff(w: World, v: World, op: Op)
    requires w.store.Valid() && Thinned(w, v) && SamePlanes(w, v)
    ensures Thinned(Step(w, op), StepUnpruned(v, op))
    ensures SamePlanes(Step(w, op), StepUnpruned(v, op)) <==> !PrunedBefore(w, v, op)
  {
    var w', v' := Step(w, op), StepUnpruned(v, op);
    SamePlanesIs(w, v);
    assert Thinned(w', v') by {
      hide Spawn, Destroy, Get;
    }
    SamePlanesIs(w', v');
    forall id: EntityId
      ensures op.SpawnOp? ==> (Get(w'.store, id).Some? <==> Get(w.store, id).Some? || id == Spawn(w.store, op.authority).1)
      ensures op.DestroyOp? ==> (Get(w'.store, id).Some? ==> Get(w.store, id).Some?)
    {
      GetIffLive(w.store, id);
      GetIffLive(w'.store, id);
      if op.SpawnOp? {
        SpawnLive(w.store, op.authority);
      }
      if op.DestroyOp? {
        DestroyLive(w.store, op.id);
      }
    }
    hide Spawn, Destroy, Get, SamePlanes, Store.Valid;
  }

  lemma {:induction false} AlwaysSameIff(w: World, v: World, ops: seq<Op>)
    requires w.store.Valid() && v.store.Valid() && Thinned(w, v) && SamePlanes(w, v)
    ensures AlwaysSame(w, v, ops) <==> NeverPrunedBefore(w, v, ops)
    decreases |ops|
  {
    hide Thinned, Step, StepUnpruned, PrunedBefore;
    if ops != [] {
      StepSameIff(w, v, ops[0]);
      var w', v' := Step(w, ops[0]), StepUnpruned(v, ops[0]);
      if !PrunedBefore(w, v, ops[0]) {
        AlwaysSameIff(w', v', ops[1..]);
      } else {
        assert !SamePlanes(w', v');
      }
    }
  }

  lemma {:induction false} SameAtEnd(w: World, v: World, ops: seq<Op>)
    requires w.store.Valid() && v.store.Valid() && AlwaysSame(w, v, ops)
    ensures SamePlanes(Run(w, ops), Run(v, WithoutPrunes(ops)))
    decreases |ops|
  {
    hide SamePlanes, Step;
    if ops != [] {
      var rest := WithoutPrunes(ops[1..]);
      SameAtEnd(Step(w, ops[0]), StepUnpruned(v, ops[0]), ops[1..]);
      if ops[0].PruneOp? {
        assert WithoutPrunes(ops) == rest;
      } else {
        assert WithoutPrunes(ops) == [ops[0]] + rest && ([ops[0]] + rest)[1..] == rest;
      }
    }
  }

  lemma {:induction false} DistinctNeverPrunedBefore(w: World, v: World, r: Record, ops: seq<Op>)
    requires w.store.Valid() && w.store == v.store && Agrees(w, r) && Assigned(v.dims, r)
    requires NoDuplicates(RunRecord(w, r, ops).issued)
    ensures NeverPrunedBefore(w, v, ops)
    decreases |ops|
  {
    hide Agrees, Note, NoDuplicates, Spawn, Destroy;
    if ops != [] {
      StepAgrees(w, r, ops[0]);
      AgreesOnStore(w, v, r);
      if ops[0].PruneOp? {
        PruneIsNotNoted(w, r);
      } else {
        StepAssigned(v, r, ops[0]);
        NoteIsOnStore(w, v, r, ops[0]);
      }
      DistinctNeverPrunedBefore(Step(w, ops[0]), StepUnpruned(v, ops[0]), Note(w, r, ops[0]), ops[1..]);
      if ops[0].SpawnOp? {
        SpawnsAreNew(w, r, ops[0], ops[1..]);
      }
    }
  }

  lemma AgreesOnStore(w: World, v: World, r: Record)
    requires w.store.Valid() && w.store == v.store && Agrees(w, r)
    ensures Agrees(v, r)
  {
  }

  lemma PruneIsNotNoted(w: World, r: Record)
    requires w.store.Valid()
    ensures Note(w, r, PruneOp) == r
  {
  }

  lemma NoteIsOnStore(w: World, v: World, r: Record, op: Op)
    requires w.store.Valid() && w.store == v.store
    ensures Note(w, r, op) == Note(v, r, op)
  {
  }

  /**
   Pruning is unobservable: at every moment of a run each id reads as it would if nothing were ever pruned, exactly
   when no spawn reissues an id whose assignment a prune dropped; and that is so as long as ids are not reused.
   */
  lemma PruneIsUnobservable(ops: seq<Op>)
    ensures AlwaysSame(START, START, ops) <==> NeverPrunedBefore(START, START, ops)
    ensures NoDuplicates(RunRecord(START, NOTHING, ops).issued) ==> NeverPrunedBefore(START, START, ops)
    ensures NeverPrunedBefore(START, START, ops) ==> SamePlanes(Run(START, ops), Run(START, WithoutPrunes(ops)))
  {
    hide Run, RunRecord, AlwaysSame, NeverPrunedBefore, NoDuplicates;
    StartAgrees();
    AlwaysSameIff(START, START, ops);
    if NoDuplicates(RunRecord(START, NOTHING, ops).issued) {
      DistinctNeverPrunedBefore(START, START, NOTHING, ops);
    }
    if NeverPrunedBefore(START, START, ops) {
      SameAtEnd(START, START, ops);
    }
  }

  // ---------- The object ----------

  class DimensionMap {
    var dims: Planes

    constructor ()
      ensures dims == map[]
    {
      dims := map[];
    }

    method SetDimension(store: EntityStore, id: EntityId, d: Dimension) returns (ok: bool)
      requires store.State().Valid()
      modifies this
      ensures dims == Assign(store.State(), old(dims), id, d)
      ensures ok <==> id in store.State().Live()
      ensures ok ==> DimensionOf(store.State(), dims, id) == Some(d)
    {
      var e := store.GetEntity(id);
      if e.None? {
        return false;
      }
      dims := dims[id := d];
      return true;
    }

    method RemoveAssignment(id: EntityId) returns (had: bool)
      modifies this
      ensures dims == old(dims) - {id} && (had <==> id in old(dims))
    {
      had := id in dims;
      dims := dims - {id};
    }

    method Prune(store: EntityStore) returns (removed: nat)
      requires store.State().Valid()
      modifies this
      ensures dims == Pruned(store.State(), old(dims))
      ensures removed == |old(dims).Keys - store.State().Live()|
    {
      PrunedSplits(store.State(), dims);
      var before := |dims.Keys|;
      var s := Store(store.slots, store.free, store.generations);
      dims := map id | id in dims && Get(s, id).Some? :: dims[id];
      removed := before - |dims.Keys|;
    }
  }

  lemma PrunedSplits(s: Store, dims: Planes)
    requires s.Valid()
    ensures |dims.Keys| == |Pruned(s, dims).Keys| + |dims.Keys - s.Live()|
  {
    hide Get, Store.Live, Store.Valid;
    forall id: EntityId
      ensures Get(s, id).Some? <==> id in s.Live()
    {
      GetIffLive(s, id);
    }
    var kept, dead := Pruned(s, dims).Keys, dims.Keys - s.Live();
    assert dims.Keys == kept + dead && kept !! dead;
  }
}
