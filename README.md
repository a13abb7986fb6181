# RebornCore bookkeeping core, modelled in Dafny

This project models two small pieces of RebornCore, the support library of the
Tech Reborn mod:

- **`FluidValue`**, the immutable fluid quantity: one signed 64-bit count of
  droplets (81 per millibucket, 81000 per bucket on Fabric). It has clamping
  arithmetic (`multiply`, `fraction`, `add`, `subtract`, `min` all go through
  the clamping factory `fromRaw`). The non-clamping `fromMillibuckets` and
  record constructor sit beside it. It also has an emptiness test, four
  comparisons, a structured codec, a packet codec, and `parseFluidValue` for
  recipe JSON.
- **`ChunkPosMultiMap`** and **`ChunkEventListeners`**, the chunk-keyed
  listener registry and its dispatcher. The registry is a map from world to
  chunk position to a set of listeners, pruned of empty levels. The dispatcher
  delivers chunk-load, chunk-unload and block-update callbacks to the
  listeners registered at a chunk, on server worlds only, and empties the
  registry when the server stops.

Files and modules:

- `results.dfy` (`Results`): `Option` for a nullable reference, `Result` and
  `Outcome` for a value or a void call that may throw instead.
- `java_numbers.dfy` (`JavaNumbers`): the ranges of Java `int` and `long`,
  two's-complement wrap-around (`WrapLong`, `WrapInt`), and Java's
  truncating `/` (`TruncDiv`).
- `fluid_value.dfy` (`FluidValues`): the quantity type, its codecs, its parser
  and their properties.
- `chunk_pos_multi_map.dfy` (`ChunkPosMultiMaps`): the registry. The
  operations are pure functions on the nested map (`Lookup`, `Added`,
  `Removed`), with lemmas about them. The class `ChunkPosMultiMap` updates its
  `storage` field in place and is proved against those functions.
- `chunk_event_listeners.dfy` (`ChunkEvents`): the dispatcher, a class holding
  the registry (the Java static field `listeners`) and the handlers.

Modelling choices:

- Java `long` arithmetic is modelled exactly. Every sum, difference and
  product is wrapped modulo 2^64 before clamping. The exact-result lemmas state
  their no-overflow condition as a precondition.
- Java `/` truncates toward zero, so it is modelled by `TruncDiv` rather than
  Dafny's Euclidean `/`. `Long.MIN_VALUE / -1` wraps. A zero divisor gives
  `Failure(DivideByZero)`, the `ArithmeticException` Java throws.
- JSON input is a small datatype: an object, an integral number, or anything
  else. `JsonHelper.getInt` and `getAsInt` narrow the number to its low 32
  bits. `JsonHelper.getLong` narrows it to 64 bits. A non-numeric member
  value fails, as `JsonHelper` throws.
- `remove`'s exceptions are an `Outcome`. `NullPointer` means the world or
  chunk position has no entry. `NotRegistered` means the element is missing.
  A failed remove leaves the registry unchanged.
- Callbacks are not run. Each handler returns the `Call`s it makes, in the
  order it makes them. Set iteration order is unspecified, so handler
  contracts are stated on the multiset of calls: each registered listener
  exactly once, nothing else.
- The registry's abstract value is `Entries`, the set of (world, chunk,
  listener) triples. The pruning invariant (`Pruned`, the class's `Valid()`)
  makes the nested map a canonical representation of that set (`Canonical`).

Behaviours of the code that the model keeps:

- The structured codec decodes through `fromRaw`, so it clamps. It is not the
  identity on the `value` field.
- Values are not always non-negative. `fromMillibuckets`, the record
  constructor and the packet codec do not clamp. A bare negative number parses
  to a negative quantity.
- `fraction` rounds toward zero, not down.
- `get` returns null for an absent key, never an empty set.
- `{"buckets": n}` goes through `multiply`, so a negative `n` gives empty.

## Model

| member | source | states |
|---|---|---|
| `JavaNumbers.WrapLong` | RebornCore/src/main/java/reborncore/common/fluid/FluidValue.java:56-58 | the `long` a Java computation yields: congruent to the exact value modulo 2^64, and equal to it when it fits |
| `JavaNumbers.WrapInt` | RebornCore/src/main/java/reborncore/common/fluid/FluidValue.java:125 | `getAsInt` narrowing: congruent modulo 2^32, unchanged when it fits an `int` |
| `JavaNumbers.TruncDiv` | RebornCore/src/main/java/reborncore/common/fluid/FluidValue.java:60 | Java's quotient: the remainder has the dividend's sign and is smaller in magnitude than the divisor |
| `FluidValues.FromRaw` | RebornCore/src/main/java/reborncore/common/fluid/FluidValue.java:105-111 | the result is never negative, a non-negative input is kept, a non-positive one gives `EMPTY` |
| `FluidValues.FromRawIdempotent` | RebornCore/src/main/java/reborncore/common/fluid/FluidValue.java:105-111 | clamping twice is clamping once |
| `FluidValues.FromMillibuckets` | RebornCore/src/main/java/reborncore/common/fluid/FluidValue.java:52-54 | raw value is `m * 81` when that fits a `long` (wrapped otherwise), with no clamping |
| `FluidValues.MillibucketsOfIntAreExact` | RebornCore/src/main/java/reborncore/common/fluid/FluidValue.java:52-54 | for an `int` count the product never overflows: raw value is exactly `m * 81`, negative for negative `m` |
| `FluidValues.Multiply` | RebornCore/src/main/java/reborncore/common/fluid/FluidValue.java:56-58 | never negative; equals the product when it fits and is non-negative; empty when it fits and is non-positive |
| `FluidValues.MultiplyOverflowWraps` | RebornCore/src/main/java/reborncore/common/fluid/FluidValue.java:56-58 | an overflowing product wraps before clamping: `MAX * 2` is empty, `MAX * 3` is `MAX - 2` |
| `FluidValues.Fraction` | RebornCore/src/main/java/reborncore/common/fluid/FluidValue.java:60 | fails exactly for a zero divisor; never negative; for `raw >= 0`, `d > 0` the result `q` has `q*d <= raw < (q+1)*d`; empty when the dividend is 0 or exactly one of `raw`, `d` is positive; for `raw < 0`, `d < 0` (other than `Long.MIN_VALUE / -1`) `q*(-d) <= -raw < (q+1)*(-d)` |
| `FluidValues.MultiplyThenFraction` | RebornCore/src/main/java/reborncore/common/fluid/FluidValue.java:56-60 | dividing a non-overflowing product by its positive factor returns the original amount |
| `FluidValues.FractionTruncatesTowardZero` | RebornCore/src/main/java/reborncore/common/fluid/FluidValue.java:60 | `-3 / -2` gives 1 (not Euclidean 2), `-7 / -2` gives 3, `-3 / 2` and `10 / -3` give empty |
| `FluidValues.FractionOfMinimumByMinusOne` | RebornCore/src/main/java/reborncore/common/fluid/FluidValue.java:60 | `Long.MIN_VALUE / -1` wraps and clamps to empty |
| `FluidValues.Add` | RebornCore/src/main/java/reborncore/common/fluid/FluidValue.java:62-64 | never negative; whenever the sum fits in a `long` the result is that sum clamped at 0 |
| `FluidValues.Subtract` | RebornCore/src/main/java/reborncore/common/fluid/FluidValue.java:66-68 | never negative; whenever the difference fits in a `long` the result is that difference clamped at 0; empty when `0 <= a < b` |
| `FluidValues.SubtractThenAdd` | RebornCore/src/main/java/reborncore/common/fluid/FluidValue.java:62-68 | subtracting `b <= a` then adding `b` back gives `a` |
| `FluidValues.AddThenSubtract` | RebornCore/src/main/java/reborncore/common/fluid/FluidValue.java:62-68 | adding then subtracting `b` gives `a` back when the sum fits |
| `FluidValues.SubtractEmptyIffLessOrEqual` | RebornCore/src/main/java/reborncore/common/fluid/FluidValue.java:66-92 | for non-negative amounts, `a.subtract(b)` is empty iff `a.lessThanOrEqual(b)` |
| `FluidValues.Min` | RebornCore/src/main/java/reborncore/common/fluid/FluidValue.java:70-72 | the smaller raw value clamped at 0: empty if either is negative, otherwise one of the two and at most both |
| `FluidValues.IsEmpty` | RebornCore/src/main/java/reborncore/common/fluid/FluidValue.java:74-76 | empty iff the value equals `EMPTY` |
| `FluidValues.MoreThan` | RebornCore/src/main/java/reborncore/common/fluid/FluidValue.java:78-80 | `a.moreThan(b)` is `b.lessThan(a)` |
| `FluidValues.EqualOrMoreThan` | RebornCore/src/main/java/reborncore/common/fluid/FluidValue.java:82-84 | `a.equalOrMoreThan(b)` is `b.lessThanOrEqual(a)` |
| `FluidValues.LessThan` | RebornCore/src/main/java/reborncore/common/fluid/FluidValue.java:86-88 | for non-negative amounts, `a.lessThan(b)` iff `b.subtract(a)` is not empty |
| `FluidValues.LessThanOrEqual` | RebornCore/src/main/java/reborncore/common/fluid/FluidValue.java:90-92 | `a.lessThanOrEqual(b)` iff the two are equal or `a.lessThan(b)` |
| `FluidValues.ComparisonDuality` | RebornCore/src/main/java/reborncore/common/fluid/FluidValue.java:78-92 | `moreThan` is `!lessThanOrEqual`, `equalOrMoreThan` is `!lessThan`, and each is the converse of its partner |
| `FluidValues.LessThanOrEqualIsTotalOrder` | RebornCore/src/main/java/reborncore/common/fluid/FluidValue.java:90-92 | `lessThanOrEqual` is reflexive, antisymmetric (to equality of values), transitive and total |
| `FluidValues.EmptyIsLeast` | RebornCore/src/main/java/reborncore/common/fluid/FluidValue.java:74-92 | empty is below every non-negative amount, and such an amount is empty iff it is at most empty |
| `FluidValues.EncodeRecord` | RebornCore/src/main/java/reborncore/common/fluid/FluidValue.java:44-45 | the structured encoding has exactly the one field `value`, holding the raw value |
| `FluidValues.DecodeRecord` | RebornCore/src/main/java/reborncore/common/fluid/FluidValue.java:44-46 | fails exactly when `value` is missing, whatever other fields the record has; otherwise the field clamped at 0: a negative field gives empty, a non-negative one is kept |
| `FluidValues.RecordRoundTrip` | RebornCore/src/main/java/reborncore/common/fluid/FluidValue.java:44-46 | decode after encode returns every non-negative amount unchanged and a negative one as `EMPTY` |
| `FluidValues.RecordDecodeThenEncode` | RebornCore/src/main/java/reborncore/common/fluid/FluidValue.java:44-46 | a record with a non-negative `value` encodes back to that one field |
| `FluidValues.EncodePacket` | RebornCore/src/main/java/reborncore/common/fluid/FluidValue.java:47-50 | the packet decoder reads back the encoded amount |
| `FluidValues.DecodePacket` | RebornCore/src/main/java/reborncore/common/fluid/FluidValue.java:47-50 | the decoded raw value is the `long` read, not clamped: a negative one differs from `fromRaw` of it |
| `FluidValues.PacketRoundTrip` | RebornCore/src/main/java/reborncore/common/fluid/FluidValue.java:47-50 | the packet codec round-trips every amount, negative ones included, in both directions |
| `FluidValues.GetInt` | RebornCore/src/main/java/reborncore/common/fluid/FluidValue.java:117 | succeeds iff the member is a number; the result is that number when it fits an `int` |
| `FluidValues.GetLong` | RebornCore/src/main/java/reborncore/common/fluid/FluidValue.java:120 | succeeds iff the member is a number; the result is that number when it fits a `long` |
| `FluidValues.ParseFluidValue` | RebornCore/src/main/java/reborncore/common/fluid/FluidValue.java:113-128 | a value parsed from an object is never negative; anything that is neither an object nor a number fails with the parse error |
| `FluidValues.ParseSucceedsIffRecognised` | RebornCore/src/main/java/reborncore/common/fluid/FluidValue.java:113-128 | parsing succeeds exactly on a bare number, a numeric `buckets`, or a numeric `droplets` without `buckets`; non-objects and objects with neither key fail with the parse error |
| `FluidValues.ParseBuckets` | RebornCore/src/main/java/reborncore/common/fluid/FluidValue.java:116-118 | `{"buckets": n}` is `BUCKET.multiply(n)` of `n` narrowed to `int`: raw value `n * 81000` for positive narrowed `n` and 0 otherwise, with no `long` overflow |
| `FluidValues.ParseBucketsTakesPrecedence` | RebornCore/src/main/java/reborncore/common/fluid/FluidValue.java:116-121 | with `buckets` present the result depends on that member alone |
| `FluidValues.ParseDroplets` | RebornCore/src/main/java/reborncore/common/fluid/FluidValue.java:119-121 | `{"droplets": n}` without `buckets` is `fromRaw(n)` |
| `FluidValues.ParseBareNumber` | RebornCore/src/main/java/reborncore/common/fluid/FluidValue.java:123-125 | a bare `int` number is that many millibuckets, `n * 81` droplets, unclamped |
| `FluidValues.ParseBareNumberNarrowsToInt` | RebornCore/src/main/java/reborncore/common/fluid/FluidValue.java:123-125 | `2^32 + 1` is read as 1 millibucket, and `-1` parses to a negative quantity |
| `ChunkPosMultiMaps.Lookup` | RebornCore/src/main/java/reborncore/common/misc/world/ChunkPosMultiMap.java:60-67 | null exactly when the world or the chunk has no entry, otherwise the stored set; on a pruned storage never an empty set |
| `ChunkPosMultiMaps.LookupMeaning` | RebornCore/src/main/java/reborncore/common/misc/world/ChunkPosMultiMap.java:60-67 | under the invariant `get` is null or a non-empty set, and `t` is in it iff `(world, chunk, t)` is registered |
| `ChunkPosMultiMaps.Canonical` | RebornCore/src/main/java/reborncore/common/misc/world/ChunkPosMultiMap.java:37-58 | two pruned storages holding the same registrations are equal |
| `ChunkPosMultiMaps.SizeCountsWorlds` | RebornCore/src/main/java/reborncore/common/misc/world/ChunkPosMultiMap.java:69-71 | under the invariant the number of keyed worlds is the number of worlds with a registration |
| `ChunkPosMultiMaps.Added` | RebornCore/src/main/java/reborncore/common/misc/world/ChunkPosMultiMap.java:39-41 | the world is present afterwards with `t` stored at the chunk; no other world is touched |
| `ChunkPosMultiMaps.AddedPruned` | RebornCore/src/main/java/reborncore/common/misc/world/ChunkPosMultiMap.java:39-41 | `add` keeps every stored map and set non-empty |
| `ChunkPosMultiMaps.AddedEntries` | RebornCore/src/main/java/reborncore/common/misc/world/ChunkPosMultiMap.java:39-41 | `add` registers exactly the one triple |
| `ChunkPosMultiMaps.AddedLookup` | RebornCore/src/main/java/reborncore/common/misc/world/ChunkPosMultiMap.java:39-41 | after `add`, `get` at the key is non-null and is the old set plus `t`; every other key's `get` is unchanged |
| `ChunkPosMultiMaps.AddedIdempotent` | RebornCore/src/main/java/reborncore/common/misc/world/ChunkPosMultiMap.java:40 | adding the same element at the same key twice equals adding it once |
| `ChunkPosMultiMaps.Removed` | RebornCore/src/main/java/reborncore/common/misc/world/ChunkPosMultiMap.java:43-58 | fails exactly when the triple is not registered; on success no world is added, the world at the key is kept or dropped, and every other world is untouched |
| `ChunkPosMultiMaps.RemovedFailure` | RebornCore/src/main/java/reborncore/common/misc/world/ChunkPosMultiMap.java:43-49 | `remove` throws exactly when the triple is not registered, with the null-pointer case exactly when `get` is null |
| `ChunkPosMultiMaps.RemovedPruned` | RebornCore/src/main/java/reborncore/common/misc/world/ChunkPosMultiMap.java:43-58 | a successful `remove` keeps every stored map and set non-empty |
| `ChunkPosMultiMaps.RemovedEntries` | RebornCore/src/main/java/reborncore/common/misc/world/ChunkPosMultiMap.java:43-58 | a successful `remove` unregisters exactly the one triple |
| `ChunkPosMultiMaps.RemovedLookup` | RebornCore/src/main/java/reborncore/common/misc/world/ChunkPosMultiMap.java:47-57 | `get` at the key loses `t` and becomes null when the set empties; the world disappears iff that was its only chunk and only element; other keys unchanged |
| `ChunkPosMultiMaps.AddThenRemove` | RebornCore/src/main/java/reborncore/common/misc/world/ChunkPosMultiMap.java:39-58 | adding an unregistered element and removing it again restores the storage exactly |
| `ChunkPosMultiMaps.RemoveThenAdd` | RebornCore/src/main/java/reborncore/common/misc/world/ChunkPosMultiMap.java:39-58 | removing a registered element succeeds, and adding it back restores the storage exactly |
| `ChunkPosMultiMaps.ChunkPosMultiMap.constructor` | RebornCore/src/main/java/reborncore/common/misc/world/ChunkPosMultiMap.java:37 | a new registry is empty and satisfies the invariant |
| `ChunkPosMultiMaps.ChunkPosMultiMap.Add` | RebornCore/src/main/java/reborncore/common/misc/world/ChunkPosMultiMap.java:39-41 | in place: keeps the invariant, new storage is `Added(old)`, registrations grow by exactly the triple |
| `ChunkPosMultiMaps.ChunkPosMultiMap.Remove` | RebornCore/src/main/java/reborncore/common/misc/world/ChunkPosMultiMap.java:43-58 | in place: passes iff the triple was registered; then storage is `Removed(old)`, otherwise the error and an unchanged storage; registrations shrink by exactly the triple |
| `ChunkPosMultiMaps.ChunkPosMultiMap.Get` | RebornCore/src/main/java/reborncore/common/misc/world/ChunkPosMultiMap.java:60-67 | null exactly when the world or the chunk has no entry, otherwise the stored set itself; under the invariant never an empty set |
| `ChunkPosMultiMaps.ChunkPosMultiMap.Size` | RebornCore/src/main/java/reborncore/common/misc/world/ChunkPosMultiMap.java:69-71 | zero iff the storage is empty; under the invariant the number of worlds with a registration |
| `ChunkEvents.CallsEachOnceMeans` | RebornCore/src/main/java/reborncore/common/misc/world/ChunkEventListeners.java:46-48 | the calls made carry the one event, each target is called exactly once, and nothing else is called |
| `ChunkEvents.Notify` | RebornCore/src/main/java/reborncore/common/misc/world/ChunkEventListeners.java:46-48 | the loop over the looked-up set delivers the event once per member, in any order, making exactly as many calls as the set has members |
| `ChunkEvents.ChunkEventListeners.constructor` | RebornCore/src/main/java/reborncore/common/misc/world/ChunkEventListeners.java:37 | the dispatcher starts with a fresh, empty registry |
| `ChunkEvents.ChunkEventListeners.OnChunkLoad` | RebornCore/src/main/java/reborncore/common/misc/world/ChunkEventListeners.java:42-51 | no call on a client world or an unregistered chunk; otherwise `onLoadChunk` once on each registered listener and nothing else; under the registry invariant a server-side world makes at least one call exactly when the chunk is registered; the registry is not modified |
| `ChunkEvents.ChunkEventListeners.OnChunkUnload` | RebornCore/src/main/java/reborncore/common/misc/world/ChunkEventListeners.java:52-61 | the same with `onUnloadChunk`, including the at-least-one-call property |
| `ChunkEvents.ChunkEventListeners.OnBlockStateChange` | RebornCore/src/main/java/reborncore/common/misc/world/ChunkEventListeners.java:64-73 | the same with `onBlockUpdate(pos)`, carrying the block position, including the at-least-one-call property |
| `ChunkEvents.ChunkEventListeners.ServerStopCleanup` | RebornCore/src/main/java/reborncore/common/misc/world/ChunkEventListeners.java:75-79 | afterwards the registry is empty, `size()` is 0 and every `get` is null; an already empty registry is kept, a non-empty one is replaced by a fresh one |

## Left out

- `FluidValue.toString` is left out: it delegates to `FluidTextHelper`, which is not part of this model.
- `getRawValue` is the `rawValue` field itself. `BUCKET_QUARTER` is defined but has no property of its own.
- The codec frameworks are left out: Mojang DFU `RecordCodecBuilder`, Netty `VAR_LONG` bytes, and a `value` field of the wrong type. Only the field mapping is modelled.
- The model's JSON numbers are integers. Fractional numbers (which Gson truncates) and the wording of `JsonHelper`'s exceptions are left out.
- Fabric event registration in `init()` is left out. The handler bodies are modelled as methods; the hook mechanism is not.
- A world is an identity plus an `isClient` flag, and chunk and block positions are abstract equality types. How Minecraft hashes worlds and chunk positions, and `chunk.getPos()`, are left out.
- What a listener's callbacks do is left out; they are recorded as calls. A callback that adds a new member to, or removes one from, the set being iterated makes Java's loop throw `ConcurrentModificationException` at its next step, if there is one. A change elsewhere in the registry does not disturb the loop. Neither is modelled.
- `ChunkPosMultiMaps.ChunkPosMultiMap.Get` returns the set as a value. In Java it returns the live `HashSet`, so a caller could mutate it and break the pruning invariant. That aliasing is not modelled.
- `ChunkPosMultiMaps.ChunkPosMultiMap.Add` and `ChunkPosMultiMaps.ChunkPosMultiMap.Remove` require `Valid()`. Java asks nothing of callers. `storage` is private and only `add` and `remove` change it, so every registry reached without mutating a set returned by `get` satisfies the invariant (see the aliasing line above).
- `ChunkPosMultiMaps.ChunkPosMultiMap.Size` returns an unbounded count. The wrap-around of Java's `int` past 2^31 worlds is not modelled.
- Threading is left out. Everything runs on the server thread.
