/**
 The entity store: slots reused through a free list, guarded by generations.

 `Store` and its transitions are the state as a value; the class `EntityStore` performs them in place.
 The reference view is the set of ids that were spawned and not destroyed since.
 */
module Entities {
  import opened Sequences
  import opened Wrappers

  const U32: nat := 0x1_0000_0000

  datatype EntityId = EntityId(index: nat, generation: nat)

  datatype Authority = Server | Player(player: nat) | Resource(resource: nat)

  datatype Entity = Entity(id: EntityId, authority: Authority, active: bool)

  datatype Store = Store(slots: seq<Option<Entity>>, free: seq<nat>, generations: seq<nat>) {

    /** Vacant slots are exactly the free list, each once; an occupied slot holds its own current id. */
    ghost predicate Valid() {
      && |generations| == |slots|
      && NoDuplicates(free)
      && (forall i :: i in free <==> 0 <= i < |slots| && slots[i].None?)
      && (forall i :: 0 <= i < |slots| ==> generations[i] < U32)
      && (forall i :: 0 <= i < |slots| && slots[i].Some? ==>
            slots[i].value.id == EntityId(i, generations[i]) && slots[i].value.active)
    }

    /** The ids of the occupied slots. */
    ghost function Live(): set<EntityId>
      requires Valid()
    {
      set i | 0 <= i < |slots| && slots[i].Some? :: EntityId(i, generations[i])
    }
  }

  const EMPTY: Store := Store([], [], [])

  // ---------- Transitions ----------

  function Spawn(s: Store, authority: Authority): (r: (Store, EntityId))
    requires s.Valid()
    ensures r.0.Valid()
  {
    if s.free != [] then
      var i := s.free[|s.free| - 1];
      assert i in s.free;
      var id := EntityId(i, s.generations[i]);
      var free := s.free[..|s.free| - 1];
      assert forall j :: j in s.free <==> j in free || j == i by { FreeMembers(s.free); }
      (Store(s.slots[i := Some(Entity(id, authority, true))], free, s.generations), id)
    else
      var id := EntityId(|s.slots|, 0);
      (Store(s.slots + [Some(Entity(id, authority, true))], s.free, s.generations + [0]), id)
  }

  lemma FreeMembers(free: seq<nat>)
    requires free != []
    requires NoDuplicates(free)
    ensures var last, init := free[|free| - 1], free[..|free| - 1];
            last !in init && forall j :: j in free <==> j in init || j == last
  {
    assert free == free[..|free| - 1] + [free[|free| - 1]];
  }

  function Get(s: Store, id: EntityId): Option<Entity> {
    if id.index >= |s.slots| then None
    else match s.slots[id.index]
      case Some(e) => if e.id.generation == id.generation && e.active then Some(e) else None
      case None => None
  }

  /** The generation is bumped in 32 bits, so it wraps after 2^32 destroys of one slot. */
  function Destroy(s: Store, id: EntityId): (r: (Store, bool))
    requires s.Valid()
    ensures r.0.Valid()
  {
    var i := id.index;
    if i < |s.slots| && s.slots[i].Some? && s.slots[i].value.id.generation == id.generation then
      (Store(s.slots[i := None], s.free + [i], s.generations[i := (s.generations[i] + 1) % U32]), true)
    else (s, false)
  }

  // ---------- One step against the set of live ids ----------

  lemma GetIffLive(s: Store, id: EntityId)
    requires s.Valid()
    ensures Get(s, id).Some? <==> id in s.Live()
    ensures Get(s, id).Some? ==> Get(s, id).value.id == id
  {
  }

  /** A spawn adds one id that was not live. */
  lemma SpawnLive(s: Store, authority: Authority)
    requires s.Valid()
    ensures var (t, id) := Spawn(s, authority);
            && id !in s.Live() && t.Live() == s.Live() + {id}
            && Get(t, id) == Some(Entity(id, authority, true))
            && (forall x :: x != id ==> Get(t, x) == Get(s, x))
  {
    var (t, id) := Spawn(s, authority);
    var i := id.index;
    assert s.free != [] ==> i in s.free;
    forall x: EntityId
      ensures x in t.Live() <==> x in s.Live() + {id}
    {
      GetIffLive(t, x);
      GetIffLive(s, x);
      if x.index == i {
        assert x in t.Live() <==> x == id;
      }
    }
  }

  /** A destroy removes exactly its own id, and succeeds exactly when that id was live. */
  lemma DestroyLive(s: Store, id: EntityId)
    requires s.Valid()
    ensures var (t, ok) := Destroy(s, id);
            && (ok <==> id in s.Live()) && t.Live() == s.Live() - {id}
            && (forall x :: x != id ==> Get(t, x) == Get(s, x))
  {
    var (t, ok) := Destroy(s, id);
    GetIffLive(s, id);
    forall x: EntityId
      ensures x in t.Live() <==> x in s.Live() - {id}
    {
      GetIffLive(t, x);
      GetIffLive(s, x);
    }
  }

  /** The slot vacated last is the first to be used again, under the next generation. */
  lemma LastVacatedFirst(s: Store, id: EntityId, authority: Authority)
    requires s.Valid()
    ensures var (t, ok) := Destroy(s, id);
            ok ==> Spawn(t, authority).1 == EntityId(id.index, (id.generation + 1) % U32)
  {
    var (t, ok) := Destroy(s, id);
    if ok {
      assert t.free[|t.free| - 1] == id.index && t.generations[id.index] == (id.generation + 1) % U32;
    }
  }

  /** A new slot is made only when none is vacant. */
  lemma NewSlotIff(s: Store, authority: Authority)
    requires s.Valid()
    ensures var next := Spawn(s, authority).1;
            if exists i :: 0 <= i < |s.slots| && s.slots[i].None?
            then next.index < |s.slots| && s.slots[next.index].None?
            else next == EntityId(|s.slots|, 0)
  {
    if s.free != [] {
      assert s.free[|s.free| - 1] in s.free;
    }
    if i :| 0 <= i < |s.slots| && s.slots[i].None? {
      assert i in s.free;
    }
  }

  // ---------- Which ids a slot issues ----------

  /** How often slot `i` was handed out. */
  ghost function IssuedAt(ids: seq<EntityId>, i: nat): nat {
    if ids == [] then 0 else IssuedAt(ids[..|ids| - 1], i) + (if ids[|ids| - 1].index == i then 1 else 0)
  }

  /** The k-th id of a slot, counting from 0, carries generation k modulo 2^32. */
  ghost predicate Numbered(ids: seq<EntityId>) {
    forall k :: 0 <= k < |ids| ==> ids[k].generation == IssuedAt(ids[..k], ids[k].index) % U32
  }

  /** The store's generations continue that numbering. */
  ghost predicate Continues(s: Store, ids: seq<EntityId>)
    requires s.Valid()
  {
    && Numbered(ids)
    && (forall i :: i >= |s.slots| ==> IssuedAt(ids, i) == 0)
    && (forall i :: 0 <= i < |s.slots| ==>
          s.generations[i] == (if s.slots[i].Some? then IssuedAt(ids, i) - 1 else IssuedAt(ids, i)) % U32)
  }

  lemma SpawnContinues(s: Store, ids: seq<EntityId>, authority: Authority)
    requires s.Valid() && Continues(s, ids)
    ensures Continues(Spawn(s, authority).0, ids + [Spawn(s, authority).1])
  {
    hide Numbered, IssuedAt;
    var (t, id) := Spawn(s, authority);
    var i := id.index;
    assert s.free != [] ==> i in s.free;
    assert id.generation == IssuedAt(ids, i) % U32;
    NumberedAppend(ids, id);
    forall j: nat
      ensures IssuedAt(ids + [id], j) == IssuedAt(ids, j) + (if j == i then 1 else 0)
    {
      IssuedAtAppend(ids, id, j);
    }
    assert t.generations[i] == (IssuedAt(ids + [id], i) - 1) % U32;
    assert forall j :: 0 <= j < |t.slots| && j != i ==> j < |s.slots| && t.slots[j] == s.slots[j];
  }

  lemma IssuedAtAppend(ids: seq<EntityId>, id: EntityId, i: nat)
    ensures IssuedAt(ids + [id], i) == IssuedAt(ids, i) + (if i == id.index then 1 else 0)
  {
    assert (ids + [id])[..|ids|] == ids;
  }

  lemma {:induction false} NumberedAppend(ids: seq<EntityId>, id: EntityId)
    requires Numbered(ids) && id.generation == IssuedAt(ids, id.index) % U32
    ensures Numbered(ids + [id])
  {
    var ids' := ids + [id];
    assert ids'[..|ids|] == ids;
    assert forall k :: 0 <= k < |ids| ==> ids'[..k] == ids[..k];
  }

  lemma DestroyContinues(s: Store, ids: seq<EntityId>, id: EntityId)
    requires s.Valid() && Continues(s, ids)
    ensures Continues(Destroy(s, id).0, ids)
  {
    var i := id.index;
    if Destroy(s, id).1 {
      var n := IssuedAt(ids, i);
      assert (n - 1) % U32 == s.generations[i];
      WrapStep(n - 1);
    }
  }

  lemma WrapStep(n: int)
    ensures (n % U32 + 1) % U32 == (n + 1) % U32
  {
  }

  // ---------- When ids are unique ----------

  lemma {:induction false} IssuedAtGrows(ids: seq<EntityId>, j: nat, k: nat)
    requires j < k <= |ids|
    ensures IssuedAt(ids[..j], ids[j].index) < IssuedAt(ids[..k], ids[j].index)
    decreases k
  {
    var i := ids[j].index;
    assert ids[..k][..k - 1] == ids[..k - 1] && ids[..k][k - 1] == ids[k - 1];
    if j + 1 < k {
      IssuedAtGrows(ids, j, k - 1);
    }
  }

  /** No id is ever issued twice exactly when no slot is handed out more than 2^32 times. */
  lemma IdsDistinctIff(ids: seq<EntityId>)
    requires Numbered(ids)
    ensures NoDuplicates(ids) <==> forall i: nat :: IssuedAt(ids, i) <= U32
  {
    if forall i: nat :: IssuedAt(ids, i) <= U32 {
      forall j, k | 0 <= j < k < |ids|
        ensures ids[j] != ids[k]
      {
        if ids[j].index == ids[k].index {
          var i := ids[j].index;
          IssuedAtGrows(ids, j, k);
          IssuedAtGrows(ids, k, |ids|);
          assert ids[..|ids|] == ids;
          assert IssuedAt(ids, i) <= U32;
          SmallMod(IssuedAt(ids[..j], i));
          SmallMod(IssuedAt(ids[..k], i));
        }
      }
    } else {
      var i: nat :| IssuedAt(ids, i) > U32;
      var j := NthIssue(ids, i, 0);
      var k := NthIssue(ids, i, U32);
      assert ids[j].generation == 0 % U32 && ids[k].generation == U32 % U32;
      assert ids[j] == ids[k] && j != k;
    }
  }

  lemma SmallMod(n: nat)
    ensures n < U32 ==> n % U32 == n
  {
  }

  /** Where slot `i` is handed out for the n-th time. */
  lemma {:induction false} NthIssue(ids: seq<EntityId>, i: nat, n: nat) returns (k: nat)
    requires IssuedAt(ids, i) > n
    ensures k < |ids| && ids[k].index == i && IssuedAt(ids[..k], i) == n
  {
    var init := ids[..|ids| - 1];
    if IssuedAt(init, i) > n {
      k := NthIssue(init, i, n);
      assert ids[..k] == init[..k] && ids[k] == init[k];
    } else {
      k := |ids| - 1;
    }
  }

  // ---------- The object ----------

  class EntityStore {
    var slots: seq<Option<Entity>>
    var free: seq<nat>
    var generations: seq<nat>

    ghost function State(): Store
      reads this
    {
      Store(slots, free, generations)
    }

    constructor ()
      ensures State() == EMPTY && State().Valid() && State().Live() == {}
    {
      slots, free, generations := [], [], [];
    }

    method SpawnEntity(authority: Authority) returns (id: EntityId)
      requires State().Valid()
      modifies this
      ensures (State(), id) == Spawn(old(State()), authority)
      ensures State().Valid() && id !in old(State().Live()) && State().Live() == old(State().Live()) + {id}
    {
      SpawnLive(State(), authority);
      var index;
      if free != [] {
        index := free[|free| - 1];
        assert index in free;
        free := free[..|free| - 1];
      } else {
        slots := slots + [None];
        generations := generations + [0];
        index := |slots| - 1;
      }
      id := EntityId(index, generations[index]);
      slots := slots[index := Some(Entity(id, authority, true))];
      assert slots == Spawn(old(State()), authority).0.slots;
    }

    method GetEntity(id: EntityId) returns (r: Option<Entity>)
      requires State().Valid()
      ensures r == Get(State(), id)
      ensures r.Some? <==> id in State().Live()
    {
      GetIffLive(State(), id);
      r := Get(Store(slots, free, generations), id);
    }

    method DestroyEntity(id: EntityId) returns (ok: bool)
      requires State().Valid()
      modifies this
      ensures (State(), ok) == Destroy(old(State()), id)
      ensures State().Valid() && (ok <==> id in old(State().Live())) && State().Live() == old(State().Live()) - {id}
    {
      DestroyLive(State(), id);
      var i := id.index;
      if i < |slots| && slots[i].Some? && slots[i].value.id.generation == id.generation {
        slots := slots[i := None];
        free := free + [i];
        generations := generations[i := (generations[i] + 1) % U32];
        ok := true;
      } else {
        ok := false;
      }
    }

    method Count() returns (n: nat)
      requires State().Valid()
      ensures n == |State().Live()|
    {
      n := 0;
      ghost var seen: set<EntityId> := {};
      for i := 0 to |slots|
        invariant n == |seen|
        invariant seen == set k | 0 <= k < i && slots[k].Some? :: EntityId(k, generations[k])
      {
        ghost var next := set k | 0 <= k < i + 1 && slots[k].Some? :: EntityId(k, generations[k]);
        if slots[i].Some? && slots[i].value.active {
          assert next == seen + {EntityId(i, generations[i])};
          n := n + 1;
        } else {
          assert next == seen;
        }
        seen := next;
      }
      assert seen == State().Live();
    }
  }
}
