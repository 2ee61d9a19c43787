/**
 The content-addressed cache: verified commits, recency order, eviction to a quota.

 The disk is a map from object names to bytes that only the cache itself changes. The digest is a
 parameter: nothing here depends on which function it is.
 */
module ContentStore {
  import opened Sequences
  import opened Wrappers

  type Hash = string

  type Digest = seq<Byte> -> Hash

  datatype CacheError =
    | HashMismatch(expected: Hash, actual: Hash)
    | NoSuchStaged
    | BadHash(name: Hash)

  predicate ValidHash(h: Hash) {
    |h| == 64 && forall i :: 0 <= i < 64 ==> '0' <= h[i] <= '9' || 'a' <= h[i] <= 'f'
  }

  /** A name is 64 lower-case hexadecimal digits. */
  lemma ValidHashIs(h: Hash)
    ensures ValidHash(h) <==> |h| == 64 && forall c :: c in h ==> c in "0123456789abcdef"
  {
    forall c: char
      ensures c in "0123456789abcdef" <==> '0' <= c <= '9' || 'a' <= c <= 'f'
    {
      HexDigits(c);
    }
    if |h| == 64 && forall c :: c in h ==> c in "0123456789abcdef" {
      forall i | 0 <= i < 64
        ensures '0' <= h[i] <= '9' || 'a' <= h[i] <= 'f'
      {
        assert h[i] in h;
      }
    }
  }

  lemma HexDigits(c: char)
    ensures c in "0123456789abcdef" <==> '0' <= c <= '9' || 'a' <= c <= 'f'
  {
    var all := "0123456789abcdef";
    if '0' <= c <= '9' {
      assert all[(c - '0') as int] == c;
    } else if 'a' <= c <= 'f' {
      assert all[10 + (c - 'a') as int] == c;
    }
  }

  datatype Cache = Cache(quota: nat, disk: map<Hash, seq<Byte>>, sizes: map<Hash, nat>, lru: seq<Hash>) {

    /** Every stored object is on the recency list once, with its true size, under its own digest. */
    ghost predicate Coherent(sha: Digest) {
      && NoDuplicates(lru)
      && (forall h :: h in lru <==> h in disk)
      && disk.Keys == sizes.Keys
      && (forall h :: h in disk ==> ValidHash(h) && sizes[h] == |disk[h]| && sha(disk[h]) == h)
    }

    /** Total stored bytes. */
    function Total(): nat {
      Sum(lru, sizes)
    }
  }

  // ---------- Lists of names ----------

  function SizeOf(sizes: map<Hash, nat>, h: Hash): nat {
    if h in sizes then sizes[h] else 0
  }

  function Sum(s: seq<Hash>, sizes: map<Hash, nat>): nat {
    if s == [] then 0 else SizeOf(sizes, s[0]) + Sum(s[1..], sizes)
  }

  lemma {:induction false} SumWithout(s: seq<Hash>, sizes: map<Hash, nat>, h: Hash)
    requires NoDuplicates(s) && h in s
    ensures Sum(Without(s, h), sizes) == Sum(s, sizes) - SizeOf(sizes, h)
  {
    WithoutMembers(s, h);
    assert s == [s[0]] + s[1..];
    if s[0] == h {
      assert h !in s[1..];
      WithoutAbsent(s[1..], h);
      assert Without(s, h) == s[1..];
    } else {
      SumWithout(s[1..], sizes, h);
      assert Without(s, h)[1..] == Without(s[1..], h);
    }
  }

  lemma {:induction false} WithoutAbsent(s: seq<Hash>, h: Hash)
    requires h !in s
    ensures Without(s, h) == s
  {
    if s != [] {
      assert s == [s[0]] + s[1..];
      WithoutAbsent(s[1..], h);
    }
  }

  lemma {:induction false} SumSame(s: seq<Hash>, sizes: map<Hash, nat>, other: map<Hash, nat>)
    requires forall h :: h in s ==> SizeOf(sizes, h) == SizeOf(other, h)
    ensures Sum(s, sizes) == Sum(s, other)
  {
    if s != [] {
      assert s[0] in s;
      SumSame(s[1..], sizes, other);
    }
  }

  // ---------- Commit and get ----------

  function Touch(lru: seq<Hash>, h: Hash): seq<Hash> {
    Without(lru, h) + [h]
  }

  function Commit(sha: Digest, c: Cache, staged: Option<seq<Byte>>, expected: Hash): (Cache, Result<Hash, CacheError>) {
    if !ValidHash(expected) then (c, Err(BadHash(expected)))
    else if staged.None? then (c, Err(NoSuchStaged))
    else if sha(staged.value) != expected then (c, Err(HashMismatch(expected, sha(staged.value))))
    else
      var disk := if expected in c.disk then c.disk else c.disk[expected := staged.value];
      var landed := disk[expected];
      if sha(landed) != expected then (c.(disk := disk - {expected}), Err(HashMismatch(expected, sha(landed))))
      else (c.(disk := disk, sizes := c.sizes[expected := |landed|], lru := Touch(c.lru, expected)), Ok(expected))
  }

  function Get(c: Cache, h: Hash): (Cache, Option<Hash>) {
    if ValidHash(h) && h in c.disk then (c.(lru := Touch(c.lru, h)), Some(h)) else (c, None)
  }

  /** A commit stores exactly the staged bytes under their digest or changes nothing, and keeps the cache coherent. */
  lemma CommitIsAtomic(sha: Digest, c: Cache, staged: Option<seq<Byte>>, expected: Hash)
    requires c.Coherent(sha)
    ensures var (c', r) := Commit(sha, c, staged, expected);
            && c'.Coherent(sha)
            && (r.Ok? <==> ValidHash(expected) && staged.Some? && sha(staged.value) == expected)
            && (r.Err? ==> c' == c)
            && (!ValidHash(expected) ==> r == Err(BadHash(expected)))
            && (ValidHash(expected) && staged.None? ==> r == Err(NoSuchStaged))
            && (ValidHash(expected) && staged.Some? && sha(staged.value) != expected ==>
                  r == Err(HashMismatch(expected, sha(staged.value))))
            && (r.Ok? ==> expected in c'.disk
                          && c'.disk == (if expected in c.disk then c.disk else c.disk[expected := staged.value])
                          && c'.lru == Touch(c.lru, expected))
  {
    WithoutMembers(c.lru, expected);
    hide Without, ValidHash;
  }

  /** An object is served exactly when it is stored, and is then the most recent; nothing else changes. */
  lemma GetIsCoherent(sha: Digest, c: Cache, h: Hash)
    requires c.Coherent(sha)
    ensures var (c', r) := Get(c, h);
            && c'.Coherent(sha)
            && r == (if h in c.disk then Some(h) else None)
            && c' == if h in c.disk then c.(lru := Touch(c.lru, h)) else c
  {
    WithoutMembers(c.lru, h);
    hide Without, ValidHash;
  }

  // ---------- Eviction ----------

  /** The recency order of the objects that may be evicted, oldest first. */
  function Unprotected(lru: seq<Hash>, keep: set<Hash>): (u: seq<Hash>)
    ensures forall h :: h in u <==> h in lru && h !in keep
  {
    if lru == [] then [] else (if lru[0] in keep then [] else [lru[0]]) + Unprotected(lru[1..], keep)
  }

  function Drop(c: Cache, h: Hash): Cache {
    c.(disk := c.disk - {h}, sizes := c.sizes - {h}, lru := Without(c.lru, h))
  }

  /** Evict the oldest evictable object while over quota. */
  function Evict(sha: Digest, c: Cache, keep: set<Hash>): (Cache, seq<Hash>)
    requires c.Coherent(sha)
    decreases |c.lru|
  {
    var u := Unprotected(c.lru, keep);
    if c.Total() <= c.quota || u == [] then (c, [])
    else
      DropIsCoherent(sha, c, u[0]);
      var (c', out) := Evict(sha, Drop(c, u[0]), keep);
      (c', [u[0]] + out)
  }

  lemma DropIsCoherent(sha: Digest, c: Cache, h: Hash)
    requires c.Coherent(sha) && h in c.lru
    ensures Drop(c, h).Coherent(sha)
    ensures Drop(c, h).Total() == c.Total() - SizeOf(c.sizes, h)
  {
    WithoutMembers(c.lru, h);
    SumWithout(c.lru, c.sizes, h);
    SumSame(Without(c.lru, h), c.sizes, c.sizes - {h});
  }

  lemma UnprotectedFirst(first: Hash, rest: seq<Hash>, keep: set<Hash>)
    ensures Unprotected([first] + rest, keep) == (if first in keep then [] else [first]) + Unprotected(rest, keep)
  {
    assert ([first] + rest)[1..] == rest;
  }

  /** Removing a name and leaving out the protected ones can be done in either order. */
  lemma {:induction false} UnprotectedWithout(lru: seq<Hash>, keep: set<Hash>, h: Hash)
    ensures Unprotected(Without(lru, h), keep) == Without(Unprotected(lru, keep), h)
  {
    if lru != [] {
      var x, rest := lru[0], lru[1..];
      assert lru == [x] + rest;
      UnprotectedWithout(rest, keep, h);
      WithoutFirst(x, rest, h);
      UnprotectedFirst(x, rest, keep);
      UnprotectedFirst(x, Without(rest, h), keep);
      WithoutFirst(x, Unprotected(rest, keep), h);
      hide Without, Unprotected;
      assert [] + Without(rest, h) == Without(rest, h) && [] + Unprotected(rest, keep) == Unprotected(rest, keep);
      if x == h || x in keep {
        assert [] + Unprotected(Without(rest, h), keep) == Without(Unprotected(rest, keep), h);
      }
    }
  }

  lemma {:induction false} UnprotectedDistinct(lru: seq<Hash>, keep: set<Hash>)
    requires NoDuplicates(lru)
    ensures NoDuplicates(Unprotected(lru, keep))
  {
    if lru != [] {
      assert lru == [lru[0]] + lru[1..] && lru[0] !in lru[1..];
      UnprotectedDistinct(lru[1..], keep);
    }
  }

  ghost function Names(s: seq<Hash>): set<Hash> {
    set h | h in s
  }

  /** One round of the loop, seen from outside. */
  lemma EvictUnfolds(sha: Digest, c: Cache, keep: set<Hash>)
    requires c.Coherent(sha)
    ensures var u := Unprotected(c.lru, keep);
            if c.Total() <= c.quota || u == [] then Evict(sha, c, keep) == (c, [])
            else
              && u[0] in c.lru && u[0] !in u[1..]
              && Drop(c, u[0]).Coherent(sha)
              && Unprotected(Drop(c, u[0]).lru, keep) == u[1..]
              && Drop(c, u[0]).Total() == c.Total() - SizeOf(c.sizes, u[0])
              && Evict(sha, c, keep) ==
                 (Evict(sha, Drop(c, u[0]), keep).0, [u[0]] + Evict(sha, Drop(c, u[0]), keep).1)
  {
    var u := Unprotected(c.lru, keep);
    if c.Total() > c.quota && u != [] {
      DropIsCoherent(sha, c, u[0]);
      NextVictims(c.lru, keep);
    }
  }

  lemma {:induction false} EvictedIsPrefix(sha: Digest, c: Cache, keep: set<Hash>)
    requires c.Coherent(sha)
    ensures var (c', out) := Evict(sha, c, keep);
            c'.Coherent(sha) && c'.quota == c.quota && out <= Unprotected(c.lru, keep)
    decreases |c.lru|
  {
    hide Evict, Unprotected, Cache.Coherent;
    EvictUnfolds(sha, c, keep);
    var u := Unprotected(c.lru, keep);
    if c.Total() > c.quota && u != [] {
      EvictedIsPrefix(sha, Drop(c, u[0]), keep);
      assert u == [u[0]] + u[1..];
    }
  }

  lemma {:induction false} EvictedIsRemoved(sha: Digest, c: Cache, keep: set<Hash>)
    requires c.Coherent(sha)
    ensures var (c', out) := Evict(sha, c, keep);
            c'.disk == c.disk - Names(out) && c'.sizes == c.sizes - Names(out)
    decreases |c.lru|
  {
    hide Evict, Unprotected, Cache.Coherent;
    EvictUnfolds(sha, c, keep);
    var u := Unprotected(c.lru, keep);
    if c.Total() > c.quota && u != [] {
      EvictedIsRemoved(sha, Drop(c, u[0]), keep);
      var out := Evict(sha, Drop(c, u[0]), keep).1;
      MinusNames(c.disk, u[0], out);
      MinusNames(c.sizes, u[0], out);
    } else {
      assert Names([]) == {};
      assert c.disk - {} == c.disk && c.sizes - {} == c.sizes;
    }
  }

  lemma MinusNames<T>(m: map<Hash, T>, v: Hash, out: seq<Hash>)
    ensures m - {v} - Names(out) == m - Names([v] + out)
  {
    assert Names([v] + out) == {v} + Names(out);
  }

  /** Bytes of the first `j` evictable objects. */
  function Freed(c: Cache, keep: set<Hash>, j: nat): nat
    requires j <= |Unprotected(c.lru, keep)|
  {
    Sum(Unprotected(c.lru, keep)[..j], c.sizes)
  }

  lemma {:induction false} FreedStep(sha: Digest, c: Cache, keep: set<Hash>, j: nat)
    requires c.Coherent(sha) && 0 < j <= |Unprotected(c.lru, keep)|
    requires c.Total() > c.quota
    ensures var v := Unprotected(c.lru, keep)[0];
            && Drop(c, v).Coherent(sha)
            && j - 1 <= |Unprotected(Drop(c, v).lru, keep)|
            && Freed(c, keep, j) == SizeOf(c.sizes, v) + Freed(Drop(c, v), keep, j - 1)
  {
    hide Evict, Unprotected, Without, Cache.Coherent, Cache.Total;
    EvictUnfolds(sha, c, keep);
    var u := Unprotected(c.lru, keep);
    var first, rest := u[..j], u[1..][..j - 1];
    assert first[0] == u[0] && first[1..] == rest;
    assert forall h :: h in rest ==> h in u[1..];
    SumSame(rest, c.sizes - {u[0]}, c.sizes);
  }

  /**
   Eviction is minimal: it removes exactly the shortest prefix of the evictable recency order that brings the
   total within quota, or all of it if none does, and touches nothing else.
   */
  lemma {:induction false} EvictionIsMinimal(sha: Digest, c: Cache, keep: set<Hash>)
    requires c.Coherent(sha)
    ensures var (c', out) := Evict(sha, c, keep);
            && c'.Coherent(sha)
            && out <= Unprotected(c.lru, keep)
            && c'.disk == c.disk - Names(out) && c'.sizes == c.sizes - Names(out)
            && c'.Total() == c.Total() - Freed(c, keep, |out|)
            && (forall j :: 0 <= j < |out| ==> c.Total() - Freed(c, keep, j) > c.quota)
            && (c'.Total() <= c.quota || out == Unprotected(c.lru, keep))
    decreases |c.lru|
  {
    hide Evict, Unprotected, Cache.Coherent, Cache.Total, Freed, Names, Drop;
    EvictedIsPrefix(sha, c, keep);
    EvictedIsRemoved(sha, c, keep);
    EvictUnfolds(sha, c, keep);
    var u := Unprotected(c.lru, keep);
    FreedNothing(c, keep);
    if c.Total() > c.quota && u != [] {
      var d := Drop(c, u[0]);
      DropShrinks(c, u[0]);
      EvictionIsMinimal(sha, d, keep);
      var out := Evict(sha, d, keep).1;
      forall j | 0 < j <= |out| + 1
        ensures Freed(c, keep, j) == SizeOf(c.sizes, u[0]) + Freed(d, keep, j - 1)
      {
        FreedStep(sha, c, keep, j);
      }
      assert u == [u[0]] + u[1..];
    }
  }

  lemma DropShrinks(c: Cache, h: Hash)
    requires h in c.lru
    ensures |Drop(c, h).lru| < |c.lru| && Drop(c, h).quota == c.quota
  {
  }

  lemma FreedNothing(c: Cache, keep: set<Hash>)
    ensures Freed(c, keep, 0) == 0
  {
  }

  /** Taking out the first evictable object leaves the others in order. */
  lemma {:induction false} NextVictims(lru: seq<Hash>, keep: set<Hash>)
    requires NoDuplicates(lru) && Unprotected(lru, keep) != []
    ensures var u := Unprotected(lru, keep);
            u[0] !in u[1..] && Unprotected(Without(lru, u[0]), keep) == u[1..]
  {
    var u := Unprotected(lru, keep);
    UnprotectedWithout(lru, keep, u[0]);
    UnprotectedDistinct(lru, keep);
    assert u[0] !in u[1..];
    WithoutAbsent(u[1..], u[0]);
  }

  // ---------- Recency ----------

  /** Position of the last access to `h`, or -1. */
  ghost function LastAccess(log: seq<Hash>, h: Hash): int {
    if log == [] then -1
    else if log[|log| - 1] == h then |log| - 1
    else LastAccess(log[..|log| - 1], h)
  }

  /** The recency list is ordered by last access: least recently used first. */
  ghost predicate ByRecency(lru: seq<Hash>, log: seq<Hash>) {
    && (forall h :: h in lru ==> h in log)
    && (forall i, j :: 0 <= i < j < |lru| ==> LastAccess(log, lru[i]) < LastAccess(log, lru[j]))
  }

  lemma {:induction false} LastAccessAppend(log: seq<Hash>, x: Hash, h: Hash)
    ensures LastAccess(log + [x], h) == (if h == x then |log| else LastAccess(log, h))
    ensures LastAccess(log, h) < |log|
  {
    assert (log + [x])[..|log|] == log;
    if log != [] && log[|log| - 1] != h {
      LastAccessAppend(log[..|log| - 1], x, h);
    }
  }

  /** Removing an element keeps the others in order. */
  lemma {:induction false} WithoutByRecency(lru: seq<Hash>, log: seq<Hash>, h: Hash)
    requires ByRecency(lru, log)
    ensures ByRecency(Without(lru, h), log)
  {
    hide LastAccess;
    WithoutMembers(lru, h);
    if lru != [] {
      assert lru == [lru[0]] + lru[1..];
      WithoutByRecency(lru[1..], log, h);
      WithoutMembers(lru[1..], h);
      var rest := Without(lru[1..], h);
      forall i | 0 <= i < |rest|
        ensures LastAccess(log, lru[0]) < LastAccess(log, rest[i])
      {
        assert rest[i] in rest && rest[i] in lru[1..];
      }
    }
  }

  /** A commit or a get moves its object to the end: the list stays ordered by last access. */
  lemma TouchByRecency(lru: seq<Hash>, log: seq<Hash>, h: Hash)
    requires ByRecency(lru, log)
    ensures ByRecency(Touch(lru, h), log + [h])
  {
    WithoutByRecency(lru, log, h);
    WithoutMembers(lru, h);
    var rest := Without(lru, h);
    assert forall i :: 0 <= i < |rest| ==> rest[i] in rest;
    forall x: Hash
      ensures LastAccess(log + [h], x) == (if x == h then |log| else LastAccess(log, x))
      ensures LastAccess(log, x) < |log|
    {
      LastAccessAppend(log, h, x);
    }
    hide LastAccess, Without;
  }

  lemma {:induction false} EvictByRecency(sha: Digest, c: Cache, keep: set<Hash>, log: seq<Hash>)
    requires c.Coherent(sha) && ByRecency(c.lru, log)
    ensures ByRecency(Evict(sha, c, keep).0.lru, log)
    decreases |c.lru|
  {
    hide ByRecency, Evict, Unprotected, Without;
    EvictUnfolds(sha, c, keep);
    var u := Unprotected(c.lru, keep);
    if c.Total() > c.quota && u != [] {
      WithoutByRecency(c.lru, log, u[0]);
      EvictByRecency(sha, Drop(c, u[0]), keep, log);
    }
  }

  // ---------- The object ----------

  /** Sum over a set of names, in any order. */
  ghost function SetSum(names: set<Hash>, sizes: map<Hash, nat>): nat
    requires names <= sizes.Keys
  {
    if names == {} then 0 else var h :| h in names; sizes[h] + SetSum(names - {h}, sizes)
  }

  lemma {:induction false} SetSumRemove(names: set<Hash>, sizes: map<Hash, nat>, x: Hash)
    requires names <= sizes.Keys && x in names
    ensures SetSum(names, sizes) == sizes[x] + SetSum(names - {x}, sizes)
    decreases |names|
  {
    var h :| h in names && SetSum(names, sizes) == sizes[h] + SetSum(names - {h}, sizes);
    if h != x {
      SetSumRemove(names - {h}, sizes, x);
      SetSumRemove(names - {x}, sizes, h);
      assert names - {h} - {x} == names - {x} - {h};
    }
  }

  lemma {:induction false} SetSumOfSeq(s: seq<Hash>, sizes: map<Hash, nat>)
    requires NoDuplicates(s) && forall h :: h in s ==> h in sizes
    ensures SetSum(Names(s), sizes) == Sum(s, sizes)
  {
    if s == [] {
      assert Names(s) == {};
    } else {
      assert s == [s[0]] + s[1..] && s[0] !in s[1..];
      assert Names(s) - {s[0]} == Names(s[1..]) && s[0] in Names(s);
      SetSumRemove(Names(s), sizes, s[0]);
      SetSumOfSeq(s[1..], sizes);
    }
  }

  class ContentCache {
    const sha: Digest
    const quota: nat
    var disk: map<Hash, seq<Byte>>
    var sizes: map<Hash, nat>
    var lru: seq<Hash>
    ghost var log: seq<Hash>

    ghost function State(): Cache
      reads this
    {
      Cache(quota, disk, sizes, lru)
    }

    ghost predicate Valid()
      reads this
    {
      State().Coherent(sha) && ByRecency(lru, log)
    }

    constructor (sha: Digest, quota: nat)
      ensures Valid() && State() == Cache(quota, map[], map[], []) && this.sha == sha
    {
      this.sha, this.quota := sha, quota;
      disk, sizes, lru, log := map[], map[], [], [];
    }

    method TouchObject(h: Hash)
      modifies this`lru
      ensures lru == Touch(old(lru), h)
    {
      lru := Without(lru, h);
      lru := lru + [h];
    }

    method CommitStaged(staged: Option<seq<Byte>>, expected: Hash) returns (r: Result<Hash, CacheError>)
      requires Valid()
      modifies this
      ensures Valid()
      ensures (State(), r) == Commit(sha, old(State()), staged, expected)
      ensures log == if r.Ok? then old(log) + [expected] else old(log)
    {
      CommitIsAtomic(sha, State(), staged, expected);
      TouchByRecency(lru, log, expected);
      hide Cache.Coherent, ByRecency, ValidHash, Touch;
      if !ValidHash(expected) {
        return Err(BadHash(expected));
      }
      if staged.None? {
        return Err(NoSuchStaged);
      }
      var actual := sha(staged.value);
      if actual != expected {
        return Err(HashMismatch(expected, actual));
      }
      if expected !in disk {
        disk := disk[expected := staged.value];
      }
      var landed := disk[expected];
      if sha(landed) != expected {
        // Only an outside change to the disk leads here.
        assert false;
      }
      sizes := sizes[expected := |landed|];
      TouchObject(expected);
      log := log + [expected];
      return Ok(expected);
    }

    method GetObject(h: Hash) returns (r: Option<Hash>)
      requires Valid()
      modifies this
      ensures Valid()
      ensures (State(), r) == Get(old(State()), h)
      ensures log == if r.Some? then old(log) + [h] else old(log)
    {
      hide Cache.Coherent, ByRecency, ValidHash, Touch, Without;
      GetIsCoherent(sha, State(), h);
      TouchByRecency(lru, log, h);
      if ValidHash(h) && h in disk {
        TouchObject(h);
        log := log + [h];
        return Some(h);
      }
      return None;
    }

    method SizeBytes() returns (n: nat)
      requires Valid()
      ensures n == State().Total()
    {
      n := 0;
      var todo := sizes.Keys;
      while todo != {}
        invariant todo <= sizes.Keys
        invariant n + SetSum(todo, sizes) == SetSum(sizes.Keys, sizes)
      {
        var h :| h in todo;
        SetSumRemove(todo, sizes, h);
        n := n + sizes[h];
        todo := todo - {h};
      }
      SetSumOfSeq(lru, sizes);
      assert Names(lru) == sizes.Keys;
    }

    /** The first object on the recency list that is not protected. */
    method FindVictim(protect: seq<Hash>) returns (v: Option<Hash>)
      ensures v == var u := Unprotected(lru, Names(protect)); if u == [] then None else Some(u[0])
    {
      for i := 0 to |lru|
        invariant Unprotected(lru, Names(protect)) == Unprotected(lru[i..], Names(protect))
      {
        assert lru[i..][1..] == lru[i + 1..];
        if lru[i] !in protect {
          return Some(lru[i]);
        }
      }
      return None;
    }

    method EvictToFit(protect: seq<Hash>) returns (evicted: seq<Hash>)
      requires Valid()
      modifies this
      ensures Valid() && log == old(log)
      ensures (State(), evicted) == Evict(sha, old(State()), Names(protect))
    {
      hide Evict, Unprotected, Without, ByRecency, Cache.Coherent, Cache.Total;
      ghost var keep := Names(protect);
      ghost var goal := Evict(sha, State(), keep);
      evicted := [];
      assert evicted + goal.1 == goal.1;
      var size := SizeBytes();
      while size > quota
        invariant Valid() && log == old(log)
        invariant size == State().Total()
        invariant goal == (Evict(sha, State(), keep).0, evicted + Evict(sha, State(), keep).1)
        decreases |lru|
      {
        EvictUnfolds(sha, State(), keep);
        var victim := FindVictim(protect);
        if victim.None? {
          break;
        }
        var h := victim.value;
        WithoutByRecency(lru, log, h);
        ghost var after := Drop(State(), h);
        disk := disk - {h};
        sizes := sizes - {h};
        lru := Without(lru, h);
        assert State() == after;
        ghost var rest := Evict(sha, after, keep).1;
        assert evicted + ([h] + rest) == evicted + [h] + rest;
        evicted := evicted + [h];
        size := SizeBytes();
      }
      EvictUnfolds(sha, State(), keep);
      assert evicted + [] == evicted;
    }
  }
}
