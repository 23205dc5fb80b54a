# Store service selection, read-only decoration and the Redis codec — a Dafny model

This project models three pieces of the Discord4J store abstraction and proves properties of them.

1. **StoreServiceLoader.** The loader takes the discovered `StoreService` instances in discovery
   order and appends the no-op sentinel. It stably sorts them by effective priority: the caller's
   override for the service's class if there is one, else the service's `order()`. It then takes
   the first service with generic stores and the first with long-obj stores. From those two picks
   it builds one of three results: a Forwarding service (long keys boxed onto the generic
   backend), the shared instance itself, or a `ComposedStoreService`. The model also covers the
   composed service's `order()`, its routing of capacities and factories, and its `init`.
2. **ReadOnlyStoreService.** A decorator. Capacities, `init` and `dispose` pass through to the
   delegate. Both factories wrap the delegate's store in a read-only store.
3. **StoreRedisCodec.** Pairs one key serializer with one value serializer. Decoding copies the
   buffer's readable bytes through a duplicate, then deserializes. Encoding serializes, then
   wraps the result; a null result becomes an empty buffer.

Files:

- `wrappers.dfy`: `Option` and `Result`.
- `store_services.dfy`: service descriptors, the service shapes, and what each shape answers
  through the `StoreService` interface.
- `priority_order.dfy`: effective priority and the stable sort. It proves that the sort is sorted,
  is a permutation and is stable, and that any other stable sort gives the same order.
- `store_service_loader.dfy`: candidates, `findFirst`, composition and selection. It also defines
  a reference pick that does not sort: the service with the lowest priority, and among equal
  priorities the earliest discovered. The selection theorems are stated against that pick.
- `read_only_store_service.dfy`: the decorator.
- `store_redis_codec.dfy`: models NIO `ByteBuffer` and Netty `ByteBuf` as values, plus the codec.

Modelling choices:

- A service instance is a `Descriptor`. Its `instance` field gives it object identity, so
  `generic == primitive` compares two descriptors.
- `instanceof NoOpStoreService` becomes a test of the class identity, `IsNoOp`. Overrides are
  looked up by the same class identity, so the model cannot represent a subclass of
  `NoOpStoreService`: Java would treat one as no-op when composing, but look up its own override
  key.
- `NoOpStoreService` is not part of this model. The model assumes the sentinel reports both
  capacities: the predicate `SentinelContract`.
- An empty `Optional.get()` becomes `Failure(NoSuchElement)`. `SelectNeverFails` proves that it
  cannot happen when the sentinel honours `SentinelContract`.
- The library's `List.sort` becomes a stable insertion sort. `StableSortIsUnique` proves that every
  sorted, stable ordering of the candidates is this one, so the model does not depend on the sort
  algorithm.
- A serializer is a pair of total functions. `serialize` throws (`Failure`), returns null (`None`)
  or returns an array. `deserialize` throws or returns a value.

The fallback is meant to prefer real services over the sentinel, but the code does not guarantee
this. The sentinel goes through the same priority sort as every other service, so an override for
its class can put it ahead: `SentinelWinsWhenSortedFirst` proves that a sentinel sorting below
every discovered service is selected, and `OverrideOnSentinelClassBeatsRealService` gives a
concrete case (see "## Findings"). A real service whose order is larger than the sentinel's could
do the same, but only if the sentinel's `order()` is below the largest Java `int`; its value is not
part of this model. The theorems that prefer real services (`SelectMatchesExpected`, `SelectOutcomes`, the "only
if" direction of `SentinelOnlyWhenNothingOffered`, and the two routing lemmas) therefore assume
`SentinelLast`. That predicate says the sentinel honours its contract, no discovered service is of
the no-op class, and no discovered service sorts after the sentinel. `SelectPicksPreferred`,
`SelectedServiceOffersBoth`, `NothingOfferedSelectsSentinel` and `SentinelWinsWhenSortedFirst`
assume only `SentinelContract`.

## Model

| member | source | states |
|---|---|---|
| `StoreServiceLoader.Candidates` | api/src/main/java/discord4j/store/api/service/StoreServiceLoader.java:54-59 | the candidates are the discovered services in discovery order followed by the sentinel; when no discovered service is of the no-op class, the last position is the only no-op one |
| `PriorityOrder.SortByPriority` | api/src/main/java/discord4j/store/api/service/StoreServiceLoader.java:61-67 | the sorted list has non-decreasing effective priority (override if present, else `order()`), is a permutation of the candidates, and keeps discovery order among services of equal priority |
| `PriorityOrder.InsertionSortCorrect` | api/src/main/java/discord4j/store/api/service/StoreServiceLoader.java:61-67 | the stable insertion sort is sorted, a permutation, and keeps the order of every priority class |
| `PriorityOrder.StableSortIsUnique` | api/src/main/java/discord4j/store/api/service/StoreServiceLoader.java:61-67 | any sorted ordering that keeps discovery order within each priority equals the loader's order, so any stable sort gives the same result |
| `PriorityOrder.DiscoveryOrderIrrelevantWhenPrioritiesDistinct` | api/src/main/java/discord4j/store/api/service/StoreServiceLoader.java:61-67 | when no two candidates share an effective priority, the sorted order does not depend on discovery order |
| `PriorityOrder.OverridesDecideOrder` | api/src/main/java/discord4j/store/api/service/StoreServiceLoader.java:61-67 | with overrides {A: 1, B: 2} and a sentinel of larger order, both [B, A, sentinel] and [A, B, sentinel] sort to [A, B, sentinel] |
| `StoreServiceLoader.FindFirst` | api/src/main/java/discord4j/store/api/service/StoreServiceLoader.java:69-71 | finds nothing exactly when no service has the capacity; otherwise returns a service that has it, with none before it |
| `StoreServiceLoader.PreferredIndex` | api/src/main/java/discord4j/store/api/service/StoreServiceLoader.java:61-71 | reference pick without sorting: finds nothing exactly when no service offers the capacity; otherwise its pick has the lowest priority among those that do, and every earlier one that does has a strictly higher priority |
| `StoreServiceLoader.PreferredIndexIsUnique` | api/src/main/java/discord4j/store/api/service/StoreServiceLoader.java:61-71 | only one index meets the reference pick's contract |
| `StoreServiceLoader.FirstOfferingInsert` | api/src/main/java/discord4j/store/api/service/StoreServiceLoader.java:61-71 | inserting a service into a sorted list moves the first match to it exactly when it has the capacity and no higher priority than the previous match |
| `StoreServiceLoader.FirstOfferingSortedIsPreferred` | api/src/main/java/discord4j/store/api/service/StoreServiceLoader.java:61-71 | the first capable service in the stably sorted list is the reference pick: lowest effective priority, earliest discovered among equals |
| `StoreServiceLoader.PreferredAppendLast` | api/src/main/java/discord4j/store/api/service/StoreServiceLoader.java:59-71 | appending a capable service that sorts after all others (the sentinel) changes the pick only when nothing else was capable |
| `StoreServiceLoader.Select` | api/src/main/java/discord4j/store/api/service/StoreServiceLoader.java:53-79 | selection fails (an empty `Optional.get()`) exactly when no candidate offers generic stores or no candidate offers long-obj stores |
| `StoreServiceLoader.SelectPicksPreferred` | api/src/main/java/discord4j/store/api/service/StoreServiceLoader.java:61-78 | when the sentinel offers both capacities, the result is the composition of the preferred generic candidate and the preferred long-obj candidate |
| `StoreServiceLoader.SelectNeverFails` | api/src/main/java/discord4j/store/api/service/StoreServiceLoader.java:59-71 | when the sentinel offers both capacities, both `.get()` calls succeed |
| `StoreServiceLoader.SelectedServiceOffersBoth` | api/src/main/java/discord4j/store/api/service/StoreServiceLoader.java:69-78 | when the sentinel offers both capacities, the selected service reports both generic and long-obj stores |
| `StoreServiceLoader.SelectMatchesExpected` | api/src/main/java/discord4j/store/api/service/StoreServiceLoader.java:61-78 | with the sentinel sorting last: no real service for either capacity gives the sentinel; real generic only gives Forwarding over it; real long-obj only gives Composed(sentinel, it); both give the shared instance or Composed(generic, primitive) |
| `StoreServiceLoader.SelectOutcomes` | api/src/main/java/discord4j/store/api/service/StoreServiceLoader.java:72-78 | with the sentinel sorting last, the result is Forwarding exactly when a real generic service exists and no real long-obj one does; it is unwrapped exactly when both picks are the same; in every other case it is Composed, including a sentinel generic paired with a real primitive |
| `StoreServiceLoader.NothingOfferedSelectsSentinel` | api/src/main/java/discord4j/store/api/service/StoreServiceLoader.java:59-78 | when the sentinel offers both capacities and no discovered service offers either, the sentinel itself is selected, for any overrides and any sentinel order |
| `StoreServiceLoader.SentinelOnlyWhenNothingOffered` | api/src/main/java/discord4j/store/api/service/StoreServiceLoader.java:59-78 | the sentinel itself is selected exactly when no discovered service offers either capacity; the "only if" direction assumes the sentinel sorts last, the "if" direction does not need it |
| `StoreServiceLoader.GenericStoresRouteToPreferred` | api/src/main/java/discord4j/store/api/service/StoreServiceLoader.java:101-104 | with the sentinel sorting last, `newGenericStore` returns a store of the preferred generic-capable discovered service, or of the sentinel when there is none |
| `StoreServiceLoader.LongObjStoresRouteToPreferred` | api/src/main/java/discord4j/store/api/service/StoreServiceLoader.java:113-115 | with the sentinel sorting last, `newLongObjStore` returns a store of the preferred long-obj-capable service; failing that, a boxed store over the preferred generic-capable one; failing that, the sentinel's |
| `StoreServiceLoader.Compose` | api/src/main/java/discord4j/store/api/service/StoreServiceLoader.java:72-78 | generic stores always come from the generic pick; long-obj stores come from the primitive pick, except that a no-op primitive next to a real generic pick gives boxed long keys on the generic backend; `init` reaches the generic pick first and reaches a backend picked for both capacities only once |
| `StoreServiceLoader.GetStoreService` | api/src/main/java/discord4j/store/api/service/StoreServiceLoader.java:87-89 | when the sentinel offers both capacities, the service handed out exists and reports both generic and long-obj stores |
| `StoreServiceLoader.NewGenericStore` | api/src/main/java/discord4j/store/api/service/StoreServiceLoader.java:101-104 | fails exactly when selection fails; when the sentinel offers both capacities, it is a store with the requested key and value types from a generic-capable candidate |
| `StoreServiceLoader.NewLongObjStore` | api/src/main/java/discord4j/store/api/service/StoreServiceLoader.java:113-115 | fails exactly when selection fails; when the sentinel offers both capacities, it is either a long-obj store of a long-obj-capable candidate or a store boxing long keys onto a real generic-capable candidate |
| `StoreServiceLoader.SentinelWinsWhenSortedFirst` | api/src/main/java/discord4j/store/api/service/StoreServiceLoader.java:59-78 | a sentinel whose effective priority is below every discovered service's is selected itself, whatever the discovered services offer |
| `StoreServiceLoader.OverrideOnSentinelClassBeatsRealService` | api/src/main/java/discord4j/store/api/service/StoreServiceLoader.java:59-78 | with the override {NoOpClass: -1}, a sentinel of order 100 is selected over a real service of order 0 that offers both kinds of store |
| `StoreServiceLoader.ComposedOf` | api/src/main/java/discord4j/store/api/service/StoreServiceLoader.java:117-157 | a composed service's `order()` is the larger of its delegates' orders; generic capacity and generic stores come from the generic delegate, long-obj capacity and stores from the primitive delegate; `init` calls the generic delegate and then the primitive delegate with the same context |
| `ReadOnlyStoreService.Decorate` | api/src/main/java/discord4j/store/api/readonly/ReadOnlyStoreService.java:32-75 | capacity flags, `init` and `dispose` equal the delegate's; each factory returns a read-only wrapper around exactly the delegate's store; `order()` is the interface default, whatever the delegate's |
| `ReadOnlyStoreService.DecoratedSelectionOffersBoth` | api/src/main/java/discord4j/store/api/readonly/ReadOnlyStoreService.java:45-59 | a read-only view of the loader's selection still reports both capacities |
| `StoreRedisCodec.DecodeBuffer` | redis/src/main/java/discord4j/store/redis/StoreRedisCodec.java:69-74 | the copied array has `remaining()` bytes and holds exactly the buffer's bytes from position to limit |
| `StoreRedisCodec.EncodeBuffer` | redis/src/main/java/discord4j/store/redis/StoreRedisCodec.java:76-81 | a null array gives a non-null buffer with no remaining bytes; a non-null array gives a buffer whose readable bytes are exactly that array |
| `StoreRedisCodec.DecodeKey` | redis/src/main/java/discord4j/store/redis/StoreRedisCodec.java:50-52 | the key is the key serializer's reading of exactly the readable bytes |
| `StoreRedisCodec.DecodeValue` | redis/src/main/java/discord4j/store/redis/StoreRedisCodec.java:55-57 | the value is the value serializer's reading of exactly the readable bytes |
| `StoreRedisCodec.Encode` | redis/src/main/java/discord4j/store/redis/StoreRedisCodec.java:60-81 | a serializer exception propagates unchanged; otherwise the buffer's readable bytes are the serializer's array, or nothing for null |
| `StoreRedisCodec.EncodeKey` | redis/src/main/java/discord4j/store/redis/StoreRedisCodec.java:50-81 | if the key serializer maps a key to a non-null array that it reads back as the same key, decoding the encoded key returns that key; a null from the key serializer is encoded as an empty, non-null buffer, which decodes as the serializer's reading of no bytes |
| `StoreRedisCodec.EncodeValue` | redis/src/main/java/discord4j/store/redis/StoreRedisCodec.java:55-81 | the same round trip and null rule for values through the value serializer |
| `StoreRedisCodec.SerializersAreNotMixed` | redis/src/main/java/discord4j/store/redis/StoreRedisCodec.java:35-67 | encoding and decoding keys depend only on the key serializer; encoding and decoding values depend only on the value serializer |

## Left out

- The `Lazy` holder and its once-only computation under concurrent first access are not modelled. Selection is a pure function, so each call gives the same result, but the model says nothing about concurrency.
- `ServiceLoader` discovery is reflective classpath I/O. The discovered services are an input sequence.
- `ComposedStoreService.dispose` is only modelled as the pair of the two delegates' disposals (`BothDisposed`). How `Mono.and` subscribes to them and reports failures is concurrency plumbing, so it is left out.
- `ForwardingStoreService` is not part of this model. The loader's comment at line 72 says only that it falls back to a boxed implementation. Everything else about the `Forwarding` variant is this model's assumption about the missing class: generic stores, the generic capacity, `order()`, `init` and `dispose` go to the wrapped service; long-obj stores are the wrapped service's generic stores keyed by boxed longs; and it reports long-obj stores whenever the wrapped service reports generic stores.
- `NoOpStoreService` is not part of this model. Its class is `NoOpClass`, its order is an input, and its capacity flags are the assumption `SentinelContract`.
- `ReadOnlyStore` and `ReadOnlyLongObjStore` are not part of this model. They are opaque wrappers, so rejecting mutations is not modelled.
- The `StoreService` interface is not part of this model, so the value of its default `order()` is unknown. `DefaultOrder` fixes it at 0. The only property stated about it is that a read-only service's `order()` does not depend on its delegate.
- `JdkRedisSerializer` and `SecureJdkRedisSerializer` are left out: the codec takes serializers as abstract functions. JDK object streams and the cipher are not modelled.
- Netty and NIO buffers are modelled by content, position/limit and reader/writer indices only. Capacity, marks, array offsets, direct memory and reference counting are left out.
- `order()` values and overrides are unbounded integers, not Java `int`. `Integer.compare` and the composed service's maximum cannot overflow. But the model also admits orders above `Integer.MAX_VALUE`, which Java cannot produce, so it can show a real service sorting after a sentinel of order `Integer.MAX_VALUE`.
- StoreServiceLoader.ComposedOf: `Init` always lists the generic call and then the primitive call, so the model assumes the generic delegate's `init` returns normally. `ComposedStoreService.init` has no try/finally, so Java skips the primitive's `init` when the generic one throws. Exceptions from delegates are not modelled.
- StoreServiceLoader.Compose: the same assumption holds for the `init` sequence in its contract. When the two picks differ, the primitive's `init` is listed even though Java would skip it after a throwing generic `init`.
- StoreServiceLoader.Select: override values are plain integers and never null. A Java map may hold a null `Integer`, which makes `getOrDefault` return null, and unboxing it throws `NullPointerException` inside the sort. The model's only failure is the empty `Optional.get()`.
- StoreRedisCodec.DecodeBuffer: buffers are immutable values, so the model does not capture in-place mutation. That the caller's buffer is not consumed holds only because values cannot change. Reading through the duplicate makes no difference in the model: reading the view directly would give the same copy.

## Findings

| source | as written | input that shows it | evidently intended | confidence | as-written member | corrected member |
|---|---|---|---|---|---|---|
| api/src/main/java/discord4j/store/api/service/StoreServiceLoader.java:59-78 | the sentinel is sorted with the discovered services, so a priority override on its class can put it ahead of real services | overrides {NoOpClass: -1}, one discovered service of order 0 offering both kinds of store, sentinel of order 100: the sentinel itself is selected | real services win every capacity they offer, and the sentinel only fills gaps | low: overrides are caller input and may be meant to allow this; not executed | `StoreServiceLoader.OverrideOnSentinelClassBeatsRealService` | `StoreServiceLoader.SelectMatchesExpected` |
