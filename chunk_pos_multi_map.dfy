/**
 * RebornCore's chunk-keyed multimap: for each world, for each chunk position
 * in it, the set of objects registered there. Empty sets and empty per-world
 * maps are pruned as soon as they arise, so the storage is fully determined by
 * the (world, chunk, element) registrations it holds.
 */
module ChunkPosMultiMaps {
  import opened Results

  /** The registry's storage: world, then chunk position, then the registered elements. */
  type Storage<W, C, T> = map<W, map<C, set<T>>>

  /** The invariant `add` and `remove` maintain: no empty inner map and no empty set is stored. */
  ghost predicate Pruned<W, C, T>(m: Storage<W, C, T>) {
    forall w | w in m :: m[w] != map[] && forall c | c in m[w] :: m[w][c] != {}
  }

  /** The registrations held, as (world, chunk position, element) triples: the abstract value. */
  ghost function Entries<W, C, T>(m: Storage<W, C, T>): set<(W, C, T)> {
    set w, c, t | w in m && c in m[w] && t in m[w][c] :: (w, c, t)
  }

  /** The worlds that have at least one registration. */
  ghost function Worlds<W, C, T>(entries: set<(W, C, T)>): set<W> {
    set e | e in entries :: e.0
  }

  /** `get`: null when the world is absent or the chunk position is absent under it. */
  function Lookup<W, C, T>(m: Storage<W, C, T>, world: W, chunkPos: C): (r: Option<set<T>>)
    ensures r.None? <==> world !in m || chunkPos !in m[world]
    ensures r.Some? ==> r.value == m[world][chunkPos]
    ensures Pruned(m) && r.Some? ==> r.value != {}
  {
    if world !in m then None
    else if chunkPos !in m[world] then None
    else Some(m[world][chunkPos])
  }

  /** `add`: creates the world's map and the chunk's set when absent, then inserts. */
  function Added<W, C, T>(m: Storage<W, C, T>, world: W, chunkPos: C, t: T): (r: Storage<W, C, T>)
    ensures r.Keys == m.Keys + {world}
    ensures chunkPos in r[world] && t in r[world][chunkPos]
    ensures forall w | w in m && w != world :: r[w] == m[w]
  {
    var chunks := if world in m then m[world] else map[];
    var elements := if chunkPos in chunks then chunks[chunkPos] else {};
    m[world := chunks[chunkPos := elements + {t}]]
  }

  /**
   * Why `remove` throws: a `NullPointerException` when the world or the chunk
   * position has no entry, a `RuntimeException` when the element is not in the set.
   */
  datatype RemoveError = NullPointer | NotRegistered

  /** `remove`: deletes the element, then prunes an emptied set and an emptied world map. */
  function Removed<W, C, T>(m: Storage<W, C, T>, world: W, chunkPos: C, t: T): (r: Result<Storage<W, C, T>, RemoveError>)
    ensures r.Failure? <==> world !in m || chunkPos !in m[world] || t !in m[world][chunkPos]
    ensures r.Success? ==> r.value.Keys <= m.Keys && (r.value.Keys == m.Keys || r.value.Keys == m.Keys - {world})
    ensures r.Success? ==> forall w | w in m && w != world :: w in r.value && r.value[w] == m[w]
  {
    if world !in m || chunkPos !in m[world] then
      Failure(NullPointer)
    else if t !in m[world][chunkPos] then
      Failure(NotRegistered)
    else
      var rest := m[world][chunkPos] - {t};
      if rest != {} then
        Success(m[world := m[world][chunkPos := rest]])
      else
        var chunks := m[world] - {chunkPos};
        if chunks != map[] then Success(m[world := chunks]) else Success(m - {world})
  }

  // ---------------------------------------------------------------------------
  // What `get` means

  /** Under the invariant, `get` yields a non-empty set, holding exactly the elements registered at the key. */
  lemma LookupMeaning<W, C, T>(m: Storage<W, C, T>, world: W, chunkPos: C)
    ensures Pruned(m) && Lookup(m, world, chunkPos).Some? ==> Lookup(m, world, chunkPos).value != {}
    ensures forall t :: (world, chunkPos, t) in Entries(m) <==>
              Lookup(m, world, chunkPos).Some? && t in Lookup(m, world, chunkPos).value
  {
  }

  /** A pruned storage is determined by its registrations: two with the same entries are equal. */
  lemma {:induction false} Canonical<W, C, T>(m1: Storage<W, C, T>, m2: Storage<W, C, T>)
    requires Pruned(m1) && Pruned(m2) && Entries(m1) == Entries(m2)
    ensures m1 == m2
  {
    forall w | w in m1 ensures w in m2 && m1[w] == m2[w] {
      SameWorld(m1, m2, w);
      SameWorld(m2, m1, w);
      forall c | c in m1[w] ensures c in m2[w] && m1[w][c] == m2[w][c] {
        SameChunk(m1, m2, w, c);
        SameChunk(m2, m1, w, c);
        forall t ensures t in m1[w][c] <==> t in m2[w][c] {
          assert t in m1[w][c] <==> (w, c, t) in Entries(m1);
          assert t in m2[w][c] <==> (w, c, t) in Entries(m2);
        }
      }
      forall c | c in m2[w] ensures c in m1[w] {
        SameChunk(m2, m1, w, c);
      }
    }
    forall w | w in m2 ensures w in m1 {
      SameWorld(m2, m1, w);
    }
  }

  lemma SameWorld<W, C, T>(m1: Storage<W, C, T>, m2: Storage<W, C, T>, w: W)
    requires Pruned(m1) && Pruned(m2) && Entries(m1) == Entries(m2) && w in m1
    ensures w in m2
  {
    var c :| c in m1[w];
    var t :| t in m1[w][c];
    assert (w, c, t) in Entries(m1);
  }

  lemma SameChunk<W, C, T>(m1: Storage<W, C, T>, m2: Storage<W, C, T>, w: W, c: C)
    requires Pruned(m1) && Pruned(m2) && Entries(m1) == Entries(m2) && w in m1 && c in m1[w]
    ensures w in m2 && c in m2[w]
  {
    var t :| t in m1[w][c];
    assert (w, c, t) in Entries(m1);
  }

  /** Under the invariant, `size` (the number of keyed worlds) counts the worlds with a registration. */
  lemma {:induction false} SizeCountsWorlds<W, C, T>(m: Storage<W, C, T>)
    ensures Pruned(m) ==> |m| == |Worlds(Entries(m))|
  {
    if Pruned(m) {
      forall w | w in m ensures w in Worlds(Entries(m)) {
        var c :| c in m[w];
        var t :| t in m[w][c];
        assert (w, c, t) in Entries(m);
      }
      assert m.Keys == Worlds(Entries(m));
    }
  }

  // ---------------------------------------------------------------------------
  // What `add` does

  /** `add` keeps the invariant. */
  lemma AddedPruned<W, C, T>(m: Storage<W, C, T>, world: W, chunkPos: C, t: T)
    requires Pruned(m)
    ensures Pruned(Added(m, world, chunkPos, t))
  {
  }

  /** `add` registers exactly the one triple. */
  lemma {:induction false} AddedEntries<W, C, T>(m: Storage<W, C, T>, world: W, chunkPos: C, t: T)
    ensures Entries(Added(m, world, chunkPos, t)) == Entries(m) + {(world, chunkPos, t)}
  {
    var a := Added(m, world, chunkPos, t);
    forall e | e in Entries(a) ensures e in Entries(m) + {(world, chunkPos, t)} {
      var (w, c, x) := e;
      assert w in a && c in a[w] && x in a[w][c];
    }
    forall e | e in Entries(m) + {(world, chunkPos, t)} ensures e in Entries(a) {
      var (w, c, x) := e;
      assert w in a && c in a[w] && x in a[w][c];
    }
  }

  /** After `add`, `get` at the key holds the element; `get` at every other key is unchanged. */
  lemma AddedLookup<W, C, T>(m: Storage<W, C, T>, world: W, chunkPos: C, t: T)
    ensures Lookup(Added(m, world, chunkPos, t), world, chunkPos).Some?
    ensures Lookup(Added(m, world, chunkPos, t), world, chunkPos).value ==
              (if Lookup(m, world, chunkPos).Some? then Lookup(m, world, chunkPos).value else {}) + {t}
    ensures forall w, c :: (w, c) != (world, chunkPos) ==>
              Lookup(Added(m, world, chunkPos, t), w, c) == Lookup(m, w, c)
  {
  }

  /** Adding the same element at the same key twice is the same as adding it once. */
  lemma AddedIdempotent<W, C, T>(m: Storage<W, C, T>, world: W, chunkPos: C, t: T)
    ensures Added(Added(m, world, chunkPos, t), world, chunkPos, t) == Added(m, world, chunkPos, t)
  {
    var a := Added(m, world, chunkPos, t);
    assert a[world][chunkPos] + {t} == a[world][chunkPos];
    assert a[world][chunkPos := a[world][chunkPos]] == a[world];
    assert a[world := a[world]] == a;
  }

  // ---------------------------------------------------------------------------
  // What `remove` does

  /** `remove` throws exactly when the triple is not registered; the null-pointer case is an absent key. */
  lemma RemovedFailure<W, C, T>(m: Storage<W, C, T>, world: W, chunkPos: C, t: T)
    ensures Removed(m, world, chunkPos, t).Failure? <==> (world, chunkPos, t) !in Entries(m)
    ensures Removed(m, world, chunkPos, t) == Failure(NullPointer) <==> Lookup(m, world, chunkPos).None?
  {
  }

  /** `remove` keeps the invariant. */
  lemma RemovedPruned<W, C, T>(m: Storage<W, C, T>, world: W, chunkPos: C, t: T)
    requires Pruned(m) && Removed(m, world, chunkPos, t).Success?
    ensures Pruned(Removed(m, world, chunkPos, t).value)
  {
  }

  /** A successful `remove` unregisters exactly the one triple. */
  lemma {:induction false} RemovedEntries<W, C, T>(m: Storage<W, C, T>, world: W, chunkPos: C, t: T)
    requires Removed(m, world, chunkPos, t).Success?
    ensures Entries(Removed(m, world, chunkPos, t).value) == Entries(m) - {(world, chunkPos, t)}
  {
    var r := Removed(m, world, chunkPos, t).value;
    forall e | e in Entries(r) ensures e in Entries(m) - {(world, chunkPos, t)} {
      var (w, c, x) := e;
      assert w in r && c in r[w] && x in r[w][c];
    }
    forall e | e in Entries(m) - {(world, chunkPos, t)} ensures e in Entries(r) {
      var (w, c, x) := e;
      assert w in m && c in m[w] && x in m[w][c];
      if w == world && c == chunkPos {
        assert x in m[world][chunkPos] - {t};
      } else if w == world {
        assert c in (m[world] - {chunkPos}).Keys;
      }
      assert w in r && c in r[w] && x in r[w][c];
    }
  }

  /**
   * A successful `remove` takes the element out of the set at the key, drops
   * the chunk when its set empties, drops the world when its last chunk goes,
   * and leaves every other key as it was.
   */
  lemma RemovedLookup<W, C, T>(m: Storage<W, C, T>, world: W, chunkPos: C, t: T)
    requires Removed(m, world, chunkPos, t).Success?
    ensures Lookup(Removed(m, world, chunkPos, t).value, world, chunkPos) ==
              if m[world][chunkPos] == {t} then None else Some(m[world][chunkPos] - {t})
    ensures world !in Removed(m, world, chunkPos, t).value <==> m[world] == map[chunkPos := {t}]
    ensures forall w, c :: (w, c) != (world, chunkPos) ==>
              Lookup(Removed(m, world, chunkPos, t).value, w, c) == Lookup(m, w, c)
  {
    var chunks := m[world] - {chunkPos};
    if m[world][chunkPos] == {t} && chunks == map[] {
      assert m[world] == map[chunkPos := {t}];
    }
  }

  /** Adding a fresh element and removing it again restores the storage exactly, pruning included. */
  lemma {:induction false} AddThenRemove<W, C, T>(m: Storage<W, C, T>, world: W, chunkPos: C, t: T)
    requires Pruned(m) && (world, chunkPos, t) !in Entries(m)
    ensures Removed(Added(m, world, chunkPos, t), world, chunkPos, t) == Success(m)
  {
    var a := Added(m, world, chunkPos, t);
    AddedPruned(m, world, chunkPos, t);
    AddedEntries(m, world, chunkPos, t);
    assert a[world][chunkPos] == (if world in m && chunkPos in m[world] then m[world][chunkPos] else {}) + {t};
    var r := Removed(a, world, chunkPos, t).value;
    RemovedPruned(a, world, chunkPos, t);
    RemovedEntries(a, world, chunkPos, t);
    Canonical(r, m);
  }

  /** Removing a registered element and adding it back restores the storage exactly. */
  lemma {:induction false} RemoveThenAdd<W, C, T>(m: Storage<W, C, T>, world: W, chunkPos: C, t: T)
    requires Pruned(m) && (world, chunkPos, t) in Entries(m)
    ensures Removed(m, world, chunkPos, t).Success?
    ensures Added(Removed(m, world, chunkPos, t).value, world, chunkPos, t) == m
  {
    var r := Removed(m, world, chunkPos, t).value;
    RemovedPruned(m, world, chunkPos, t);
    RemovedEntries(m, world, chunkPos, t);
    AddedPruned(r, world, chunkPos, t);
    AddedEntries(r, world, chunkPos, t);
    Canonical(Added(r, world, chunkPos, t), m);
  }

  // ---------------------------------------------------------------------------
  // The mutable registry

  class ChunkPosMultiMap<W(==), C(==), T(==)> {
    var storage: Storage<W, C, T>

    ghost predicate Valid()
      reads this
    {
      Pruned(storage)
    }

    constructor ()
      ensures Valid() && storage == map[]
    {
      storage := map[];
    }

    method Add(world: W, chunkPos: C, t: T)
      requires Valid()
      modifies this
      ensures Valid()
      ensures storage == Added(old(storage), world, chunkPos, t)
      ensures Entries(storage) == Entries(old(storage)) + {(world, chunkPos, t)}
    {
      AddedPruned(storage, world, chunkPos, t);
      AddedEntries(storage, world, chunkPos, t);
      var chunks := if world in storage then storage[world] else map[];
      var elements := if chunkPos in chunks then chunks[chunkPos] else {};
      elements := elements + {t};
      chunks := chunks[chunkPos := elements];
      storage := storage[world := chunks];
    }

    method Remove(world: W, chunkPos: C, t: T) returns (outcome: Outcome<RemoveError>)
      requires Valid()
      modifies this
      ensures Valid()
      ensures outcome.Pass? <==> (world, chunkPos, t) in Entries(old(storage))
      ensures match Removed(old(storage), world, chunkPos, t)
                case Success(m) => outcome == Pass && storage == m
                case Failure(e) => outcome == Fail(e) && storage == old(storage)
      ensures Entries(storage) == Entries(old(storage)) - {(world, chunkPos, t)}
    {
      RemovedFailure(storage, world, chunkPos, t);
      if world !in storage {
        return Fail(NullPointer);
      }
      var chunks := storage[world];
      if chunkPos !in chunks {
        return Fail(NullPointer);
      }
      var elements := chunks[chunkPos];
      if t !in elements {
        return Fail(NotRegistered);
      }
      RemovedPruned(storage, world, chunkPos, t);
      RemovedEntries(storage, world, chunkPos, t);
      elements := elements - {t};
      if elements == {} {
        chunks := chunks - {chunkPos};
        if chunks == map[] {
          storage := storage - {world};
        } else {
          storage := storage[world := chunks];
        }
      } else {
        storage := storage[world := chunks[chunkPos := elements]];
      }
      outcome := Pass;
    }

    /** `get`: the elements at the key, or null; under the invariant never an empty set. */
    function Get(world: W, chunkPos: C): (r: Option<set<T>>)
      reads this
      ensures r.None? <==> world !in storage || chunkPos !in storage[world]
      ensures r.Some? ==> r.value == storage[world][chunkPos]
      ensures Valid() ==> (r.Some? ==> r.value != {})
    {
      LookupMeaning(storage, world, chunkPos);
      Lookup(storage, world, chunkPos)
    }

    /** `size`: the number of worlds keyed, which under the invariant is the number with a registration. */
    function Size(): (n: nat)
      reads this
      ensures Valid() ==> n == |Worlds(Entries(storage))|
      ensures n == 0 <==> storage == map[]
    {
      SizeCountsWorlds(storage);
      |storage|
    }
  }
}
