/**
 * RebornCore's chunk event dispatcher: a process-wide registry of listeners
 * keyed by (world, chunk position), and the server-side handlers that call
 * every listener registered where a chunk loads or unloads or a block changes.
 *
 * A listener's callbacks are outside this model; each handler returns the
 * calls it makes, in the order it makes them.
 */
module ChunkEvents {
  import opened Results
  import opened ChunkPosMultiMaps

  /** A world: its identity and whether it is the client's copy. */
  datatype World<I> = World(id: I, isClient: bool)

  /** The three callbacks of a chunk event listener; a block update carries the block position. */
  datatype Event<P> = LoadChunk | UnloadChunk | BlockUpdate(pos: P)

  /** One callback invocation on one listener. */
  datatype Call<T, P> = Call(listener: T, event: Event<P>)

  /** One call of `event` on each listener in `targets`, as a bag. */
  ghost function CallsTo<T, P>(targets: set<T>, event: Event<P>): multiset<Call<T, P>> {
    multiset(set t | t in targets :: Call(t, event))
  }

  /** `calls` invokes `event` once on each listener in `targets` and makes no other call, in any order. */
  ghost predicate CallsEachOnce<T, P>(calls: seq<Call<T, P>>, targets: set<T>, event: Event<P>) {
    multiset(calls) == CallsTo(targets, event)
  }

  /** Exactly once: every call is `event` on a target, and each target is called exactly one time. */
  lemma {:induction false} CallsEachOnceMeans<T, P>(calls: seq<Call<T, P>>, targets: set<T>, event: Event<P>)
    requires CallsEachOnce(calls, targets, event)
    ensures forall x :: multiset(calls)[x] == if x.listener in targets && x.event == event then 1 else 0
    ensures forall k :: 0 <= k < |calls| ==> calls[k].event == event && calls[k].listener in targets
  {
    var called := set t | t in targets :: Call(t, event);
    forall x ensures multiset(calls)[x] == if x.listener in targets && x.event == event then 1 else 0 {
      assert multiset(calls)[x] == multiset(called)[x];
      assert x in called <==> x.listener in targets && x.event == event;
    }
    forall k | 0 <= k < |calls| ensures calls[k].event == event && calls[k].listener in targets {
      assert multiset(calls)[calls[k]] > 0;
      assert calls[k] in called;
    }
  }

  /** Calling one more listener adds exactly its call to the bag. */
  lemma CallsToAddOne<T, P>(targets: set<T>, listener: T, event: Event<P>)
    requires listener !in targets
    ensures CallsTo(targets + {listener}, event) == CallsTo(targets, event) + multiset{Call(listener, event)}
  {
    var before := set t | t in targets :: Call(t, event);
    var after := set t | t in targets + {listener} :: Call(t, event);
    assert after == before + {Call(listener, event)};
    assert Call(listener, event) !in before;
  }

  /**
   * The `for` loop of each handler: `event` is delivered to every member of
   * the looked-up set, in the set's (unspecified) iteration order.
   */
  method Notify<T, P>(targets: set<T>, event: Event<P>) returns (calls: seq<Call<T, P>>)
    ensures CallsEachOnce(calls, targets, event)
    ensures |calls| == |targets|
  {
    calls := [];
    var pending := targets;
    while pending != {}
      invariant pending <= targets
      invariant CallsEachOnce(calls, targets - pending, event)
      invariant |calls| == |targets - pending|
      decreases pending
    {
      var listener :| listener in pending;
      CallsToAddOne(targets - pending, listener, event);
      assert targets - pending + {listener} == targets - (pending - {listener});
      calls := calls + [Call(listener, event)];
      pending := pending - {listener};
    }
  }

  /** The dispatcher's static state: the registry every listener registers with. */
  class ChunkEventListeners<I(==), C(==), T(==), P> {
    var listeners: ChunkPosMultiMap<World<I>, C, T>

    ghost predicate Valid()
      reads this, listeners
    {
      listeners.Valid()
    }

    constructor ()
      ensures Valid() && fresh(listeners) && listeners.storage == map[]
    {
      listeners := new ChunkPosMultiMap();
    }

    /** The `CHUNK_LOAD` handler. */
    method OnChunkLoad(world: World<I>, chunkPos: C) returns (calls: seq<Call<T, P>>)
      ensures world.isClient || listeners.Get(world, chunkPos).None? ==> calls == []
      ensures !world.isClient && listeners.Get(world, chunkPos).Some? ==>
                CallsEachOnce(calls, listeners.Get(world, chunkPos).value, LoadChunk)
      ensures Valid() && !world.isClient ==> (calls != [] <==> listeners.Get(world, chunkPos).Some?)
    {
      calls := [];
      if !world.isClient {
        var cels := listeners.Get(world, chunkPos);
        if cels.Some? {
          calls := Notify(cels.value, LoadChunk);
        }
      }
    }

    /** The `CHUNK_UNLOAD` handler. */
    method OnChunkUnload(world: World<I>, chunkPos: C) returns (calls: seq<Call<T, P>>)
      ensures world.isClient || listeners.Get(world, chunkPos).None? ==> calls == []
      ensures !world.isClient && listeners.Get(world, chunkPos).Some? ==>
                CallsEachOnce(calls, listeners.Get(world, chunkPos).value, UnloadChunk)
      ensures Valid() && !world.isClient ==> (calls != [] <==> listeners.Get(world, chunkPos).Some?)
    {
      calls := [];
      if !world.isClient {
        var cels := listeners.Get(world, chunkPos);
        if cels.Some? {
          calls := Notify(cels.value, UnloadChunk);
        }
      }
    }

    /** `onBlockStateChange`: every listener at the block's chunk is told the block position. */
    method OnBlockStateChange(world: World<I>, chunkPos: C, pos: P) returns (calls: seq<Call<T, P>>)
      ensures world.isClient || listeners.Get(world, chunkPos).None? ==> calls == []
      ensures !world.isClient && listeners.Get(world, chunkPos).Some? ==>
                CallsEachOnce(calls, listeners.Get(world, chunkPos).value, BlockUpdate(pos))
      ensures Valid() && !world.isClient ==> (calls != [] <==> listeners.Get(world, chunkPos).Some?)
    {
      calls := [];
      if !world.isClient {
        var cels := listeners.Get(world, chunkPos);
        if cels.Some? {
          calls := Notify(cels.value, BlockUpdate(pos));
        }
      }
    }

    /** `serverStopCleanup`: a non-empty registry is replaced by a fresh empty one. */
    method ServerStopCleanup()
      modifies this
      ensures Valid()
      ensures listeners.storage == map[] && listeners.Size() == 0
      ensures forall w, c :: listeners.Get(w, c).None?
      ensures old(listeners.Size()) == 0 ==> listeners == old(listeners)
      ensures old(listeners.Size()) != 0 ==> fresh(listeners)
    {
      if listeners.Size() != 0 {
        listeners := new ChunkPosMultiMap();
      }
    }
  }
}
