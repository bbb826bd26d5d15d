# Entity pool and context of the TenIO entity-component-system

This project models the core of the TenIO game server's entity-component-system
(ECS) layer in Dafny and proves properties of that model.

- **Entity pool.** A fixed-then-growing array of reusable entities with one in-use
  flag per slot. Operations: `get()`, `repay()`, `cleanup()`.
- **Context.** The directory of live entities layered over one entity pool and one
  component pool per schema slot. Operations: create, look up, destroy, destroy all,
  reset.
- **`GameComponents` schema.** A fixed schema with a gap at slot 2.
- **`MoveSystem.execute`.** One tick of the example movement system.
- **Stress-client bubble sort.** The sort used by the stress-test client.

How the model represents the source:

- **Ids.** Entities are identified by their id. The source stamps each constructed
  entity with a random UUID, unique across all pools. In the model an id is a pair
  `Id(origin, serial)`. `origin` names the pool's identifier supply and is fixed
  when the pool is constructed. `serial` comes from a counter (`nextSerial`) carried
  in the pool. Within a pool, freshly constructed entities get ids that differ from
  every id already there. Pools constructed with different origins never share an
  id, so an entity of another context is foreign to this one, as it is in the source.
- **Free slots.** The pool invariant also says that every free slot holds a blank
  entity, ready for reuse. This holds in the model because nothing changes an
  entity after it was repaid; see "Left out" for how the source can break it.
- **Directory.** The source keeps the directory as a `HashMap` from id to entity. The
  model keeps its key set, and each entity's state lives in the pool's storage.
- **Dropped pool.** After `cleanup()` the pool's arrays are null, so every later
  `get()`, `repay()` or `cleanup()` dereferences null. The model makes this the
  `Released` variant, on which those operations return `Err(StorageReleased)`.
- **Other failures.** Errors that the source only logs are modelled as no-ops.

Modules:

| file | module | content |
|---|---|---|
| wrappers.dfy | `Wrappers` | `Option`, `Result` |
| schema.dfy | `Schema` | the context descriptor (`ContextInfo`) |
| entity.dfy | `Entities` | entities, component slots, `reset()` |
| entity_pool.dfy | `EntityPools` | the pool, `get()` as written and corrected, `repay()`, `cleanup()` |
| entity_pool_lemmas.dfy | `EntityPoolLemmas` | multi-call properties of the pool |
| context.dfy | `Contexts` | the context and its operations |
| context_lemmas.dfy | `ContextLemmas` | multi-call properties, including the 33rd creation |
| move_system.dfy | `MoveSystem` | one tick of the movement system |
| stress_sort.dfy | `StressSort` | the bubble sort |
| game_components.dfy | `GameComponents` | the test schema |

## Model

| member | source | states |
|---|---|---|
| EntityPools.New | ten-io/src/main/java/com/tenio/engine/ecs/pool/EntityPool.java:50-68 | a new pool has 32 slots, none in use, each holding a blank entity of the schema's width; the ids are pairwise distinct and all of the pool's own origin |
| EntityPools.FirstFree | ten-io/src/main/java/com/tenio/engine/ecs/pool/EntityPool.java:72-77 | the scan finds the lowest free index at or after its start, or reports that every later slot is in use |
| EntityPools.Grow | ten-io/src/main/java/com/tenio/engine/ecs/pool/EntityPool.java:81-100 | growth adds exactly 10 slots; old flags and entities are kept; the new slots are free and hold blank entities whose ids are new and distinct; validity is kept |
| EntityPools.Get | ten-io/src/main/java/com/tenio/engine/ecs/pool/EntityPool.java:70-108 | on a dropped pool it fails. Otherwise, with a free slot, it takes the lowest free slot, whose entity is blank, and changes only that flag. When full, it grows by 10 and hands out the last old slot, which was already in use (the defect). Validity and ids are preserved |
| EntityPools.GetFixed | ten-io/src/main/java/com/tenio/engine/ecs/pool/EntityPool.java:81-107 | with a free slot it hands out the lowest free slot, and on a full pool the corrected growth path hands out the first new slot, index old-capacity; in every case the slot handed out was free, or its entity is new, and the entity is blank |
| EntityPools.IndexOf | ten-io/src/main/java/com/tenio/engine/ecs/pool/EntityPool.java:113-119 | the identity scan finds the slot holding the element, or reports that no slot from its start on holds it |
| EntityPools.Repay | ten-io/src/main/java/com/tenio/engine/ecs/pool/EntityPool.java:110-124 | on a dropped pool it fails. Otherwise the element's slot is marked free and its entity reset, and nothing else changes. A foreign element leaves the pool unchanged, because the not-found error is only logged |
| EntityPools.Cleanup | ten-io/src/main/java/com/tenio/engine/ecs/pool/EntityPool.java:126-133 | a live pool becomes dropped; cleaning up a dropped pool fails |
| EntityPoolLemmas.GrowthHandsOutLiveElement | ten-io/src/main/java/com/tenio/engine/ecs/pool/EntityPool.java:105-107 | on a full pool, `get()` returns the entity at the last old slot, which was already in use, although the growth leaves free slots behind |
| EntityPoolLemmas.GrowthThenNextGet | ten-io/src/main/java/com/tenio/engine/ecs/pool/EntityPool.java:70-107 | after that defective growth, the next `get()` hands out slot old-capacity, the first of the new slots |
| EntityPoolLemmas.GetFixedHandsOutFreeElement | ten-io/src/main/java/com/tenio/engine/ecs/pool/EntityPool.java:81-107 | with the corrected growth, `get()` never hands out an entity that was in use: the slot was free before the call, or it is a new slot whose id differs from every id already in the pool |
| EntityPoolLemmas.GetThenRepayRestoresFlags | ten-io/src/main/java/com/tenio/engine/ecs/pool/EntityPool.java:70-124 | repaying what `get()` took from a free slot restores every in-use flag and leaves the storage unchanged apart from resetting that entity |
| EntityPoolLemmas.RepayIdempotent | ten-io/src/main/java/com/tenio/engine/ecs/pool/EntityPool.java:110-124 | repaying the same element twice has the effect of repaying it once |
| EntityPoolLemmas.RepayForeignIsNoOp | ten-io/src/main/java/com/tenio/engine/ecs/pool/EntityPool.java:120-123 | repaying an element the pool does not hold changes nothing |
| EntityPoolLemmas.IdsAndCapacityStable | ten-io/src/main/java/com/tenio/engine/ecs/pool/EntityPool.java:70-124 | `get()` never shrinks the pool or changes an existing slot's entity id; `repay()` keeps capacity and ids |
| Contexts.New | ten-io/src/main/java/com/tenio/engine/ecs/base/Context.java:48-58 | a new context has an empty directory and a fresh 32-slot pool; it has a live component pool exactly at the slots whose schema type is present |
| Contexts.GetEntity | ten-io/src/main/java/com/tenio/engine/ecs/base/Context.java:69-72 | lookup returns nothing for an unregistered id; for a registered id it returns the in-use pooled entity carrying that id |
| Contexts.HasEntity | ten-io/src/main/java/com/tenio/engine/ecs/base/Context.java:81-84 | `hasEntity` holds exactly when `getEntity` finds the entity |
| Contexts.EntityCount | ten-io/src/main/java/com/tenio/engine/ecs/base/Context.java:96-99 | the count of directory entries never exceeds the number of pooled entities in use, hence never the pool's capacity, and is zero once the pool is dropped |
| Contexts.CreateEntity | ten-io/src/main/java/com/tenio/engine/ecs/base/Context.java:60-67 | on a dropped pool it fails. Otherwise the returned entity is registered and can be looked up; exactly its key is added; the count rises by one iff the key was new; validity is kept; while a slot is free the entity handed out is blank |
| Contexts.CreateEntityFixed | ten-io/src/main/java/com/tenio/engine/ecs/base/Context.java:60-67 | built on the corrected `get()`, every creation on a live pool returns a blank entity whose id was not a key and raises the count by exactly one |
| Contexts.DestroyEntity | ten-io/src/main/java/com/tenio/engine/ecs/base/Context.java:74-79 | there is no membership guard: the key is removed, and the pooled entity with that id is reset and freed; all other slots and entries are unchanged. It fails once the pool is dropped |
| Contexts.DestroyAllEntities | ten-io/src/main/java/com/tenio/engine/ecs/base/Context.java:101-107 | the directory becomes empty and registered entities are reset, but no entity is repaid: every in-use flag stays as it was |
| Contexts.Reset | ten-io/src/main/java/com/tenio/engine/ecs/base/Context.java:109-119 | it empties the directory and drops the entity pool; every component pool is cleaned up, yet each array entry stays present; it fails when the pool is already dropped |
| ContextLemmas.RunHandsOutInOrder | ten-io/src/main/java/com/tenio/engine/ecs/base/Context.java:60-67 | along any run of up to 32 creations from a fresh context, the entities returned are the pooled entities in storage order, each registered and in use, and no other slot is in use |
| ContextLemmas.ThirtyTwoCreatesRegisterAll | ten-io/src/main/java/com/tenio/engine/ecs/base/Context.java:60-67 | 32 creations on a fresh context return 32 entities with distinct ids, all registered, and the count is 32 |
| ContextLemmas.ThirtyThirdCreateReturnsLiveEntity | ten-io/src/main/java/com/tenio/engine/ecs/pool/EntityPool.java:105-107 | after 32 creations on a fresh context, the 33rd creation grows the pool to 42 but returns the entity of the 32nd creation, which is still registered, and the count stays 32 |
| ContextLemmas.ThirtyThirdFixedCreateAddsEntry | ten-io/src/main/java/com/tenio/engine/ecs/pool/EntityPool.java:105-107 | with the corrected `get()` the 33rd creation raises the count to 33 |
| ContextLemmas.CreateThenDestroyRestores | ten-io/src/main/java/com/tenio/engine/ecs/base/Context.java:60-79 | creating an entity while a slot is free and then destroying it restores the directory and every in-use flag |
| ContextLemmas.DestroyForeignEntityIsNoOp | ten-io/src/main/java/com/tenio/engine/ecs/base/Context.java:74-79 | an entity of a context whose pool has another origin is not registered here, and destroying it here leaves the context unchanged: the key is absent and `repay()` does not find the element (EntityPool.java:113-122) |
| ContextLemmas.DestroyUnregisteredStillRepays | ten-io/src/main/java/com/tenio/engine/ecs/base/Context.java:74-79 | destroying a pooled entity that is not registered leaves the directory alone but still resets and frees it |
| ContextLemmas.DestroyAllKeepsEntitiesInUse | ten-io/src/main/java/com/tenio/engine/ecs/base/Context.java:101-107 | after `destroyAllEntities()` a formerly registered entity is no longer registered, yet its slot is still in use |
| MoveSystem.MoveEntity | tenio-examples/src/main/java/com/tenio/examples/example5/systems/MoveSystem.java:52-58 | an entity lacking POSITION or MOTION is unchanged. Otherwise only `x` changes: it becomes `x + deltaTime` below the design width, and 0 at or above it |
| MoveSystem.Execute | tenio-examples/src/main/java/com/tenio/examples/example5/systems/MoveSystem.java:49-61 | a tick moves exactly the registered entities with both components; the directory, flags, ids, component occupancy and all other entities are unchanged |
| MoveSystem.RunInOrderMovesAll | tenio-examples/src/main/java/com/tenio/examples/example5/systems/MoveSystem.java:51-60 | running the loop body once per id in any duplicate-free order moves exactly the listed entities |
| MoveSystem.ExecuteOrderIndependent | tenio-examples/src/main/java/com/tenio/examples/example5/systems/MoveSystem.java:51-60 | the result of a tick does not depend on the directory's iteration order |
| StressSort.BubblePass | tenio-examples/src/main/java/com/tenio/example/example6/TestServerStress.java:177-184 | one inner pass settles one more maximal element at the end, permutes the array and leaves the settled suffix untouched |
| StressSort.BubbleSort | tenio-examples/src/main/java/com/tenio/example/example6/TestServerStress.java:174-185 | the result is sorted ascending and is a permutation of the input |
| StressSort.SortRandomNumberArray | tenio-examples/src/main/java/com/tenio/example/example6/TestServerStress.java:167-188 | the ten draws come back as a sorted permutation of length 10 |
| GameComponents.Info | ten-io/src/test/java/com/tenio/ecs/model/GameComponents.java:41-43 | the descriptor has 5 slots, and its names and types arrays both have exactly 5 entries |
| GameComponents.SlotIdsDistinctAndInRange | ten-io/src/test/java/com/tenio/ecs/model/GameComponents.java:36-41 | ANIMATION, MOTION, POSITION and VIEW are four distinct slots below 5 |
| GameComponents.NamesAndTypesAgree | ten-io/src/test/java/com/tenio/ecs/model/GameComponents.java:36-43 | names and types are absent at the same slots, and every declared slot has a type |
| GameComponents.GapAtSlotTwo | ten-io/src/test/java/com/tenio/ecs/model/GameComponents.java:42-43 | slot 2 has no name and no type, so a context built from this schema has no component pool at 2 and has one at every declared slot |

## Left out

- Reflective construction failure in the pool's constructor and growth loop is not modelled. The source logs it and leaves a null slot; the model always constructs the entity.
- `EntityPools.New`, `Contexts.New`: ids are not random UUIDs. The constructor's caller supplies the `origin`, and the model assumes that distinct pools are given distinct origins. This stands in for the source's reliance on random UUIDs not colliding; the model does not express that probability.
- `Contexts.New`: it requires the schema's types array to cover every slot (`WellFormed`). The source constructor reads `getComponentTypes()[i]` for every slot below the count (Context.java:53-54), so a shorter array makes it throw ArrayIndexOutOfBoundsException. That failure is not modelled.
- Logging (`info`, `error`) has no observable effect and is not modelled.
- `entity.setComponentPools` and `setContextInfo`, the binding of an entity to its context's pools, are not modelled. The Entity and ComponentPool classes' internals are not part of this model. `addComponent`, `removeComponent` and component storage are represented only by the entity's component slots.
- `Contexts.DestroyEntity`: the unconditional `entity.reset()` of an entity that this pool does not hold is not modelled, because the model keeps entity state only in each context's own pool. In the source it is observable: Context.java:76 resets the object passed in, so destroying another context's registered entity clears all of its components there. That entity stays registered in its own context (`hasEntity` still holds), and `MoveSystem.execute` on that context then skips it.
- `Contexts.DestroyEntity`, `Contexts.Reset`: when the pool is already dropped, the source first runs the reset and the directory removal and then fails. The model returns only the failure, so the directory it would have left is not modelled.
- `MoveSystem.MoveEntity`: `x` and `deltaTime` are Java `float`s; the model uses `real`, so rounding is not modelled.
- `MoveSystem.MoveEntity`: the example's POSITION and MOTION slot ids and its DESIGN_WIDTH are parameters (`Layout`). The example's own GameComponents and Constants classes are not part of this model.
- `MoveSystem.MoveEntity`, `MoveSystem.Execute`: the source throws a ClassCastException when a registered entity with both POSITION and MOTION holds something other than a Position at POSITION (MoveSystem.java:53). The model requires that no such entity exists (`PositionTyped` for `MoveEntity`, `TypedFor` over the directory for `Execute`), so the exception is not modelled.
- `StressSort.SortRandomNumberArray`: `MathUtility.randInt(0, 100)` is not part of this model. The ten draws are an input, and the sort is proved for any integers.
- Concurrency is not modelled: the source's structures are not synchronised, and the model is sequential.
- The server, the other context and system classes, the state machine, the messaging and the heartbeat scheduler are not part of this model.
- `EntityPools.Get`, `Contexts.CreateEntity`: the promise that a free slot hands out a blank entity rests on the model having no operation that changes an entity after it was repaid. The source does not keep free slots blank, since `get()` never resets (EntityPool.java:72-76). The growth defect breaks this without any caller mistake. After 32 creations, the 33rd hands entity 31 to a second holder (EntityPool.java:106-107). If the first holder then destroys it, the slot is freed and reset. If the second holder then adds a component, the 34th creation hands out slot 31 with that component. The model cannot express the second holder's change, because component updates outside `MoveSystem` are not modelled.
- `Contexts.CreateEntity`: it promises a blank entity only while a slot is free. It is built on `EntityPools.Get` as written, so on a full pool it hands out the entity of the last old slot. That entity is already in use and may hold components.
- The model follows the code where it departs from what a reader of the interfaces might expect:
  - `destroyEntity` has no membership guard (Context.java:74-79).
  - `repay()` of an element the pool does not hold catches its own exception and only logs it (EntityPool.java:120-123).
  - `reset()` leaves the component-pool array entries in place, because it nulls only its loop variable (Context.java:113-118).

## Findings

| source | as written | input that shows it | evidently intended | confidence | as-written member | corrected member |
|---|---|---|---|---|---|---|
| ten-io/src/main/java/com/tenio/engine/ecs/pool/EntityPool.java:105-107 | after growing a full pool, `get()` marks and returns slot `oldPool.length - 1`, which is already in use | 33 consecutive `createEntity()` calls on a fresh context: the 33rd returns the same entity as the 32nd, and `getEntitesCount()` stays 32 | return the first new slot `oldPool.length`, so the 33rd creation adds a 33rd entity | high; not executed | EntityPoolLemmas.GrowthHandsOutLiveElement | EntityPoolLemmas.GetFixedHandsOutFreeElement |
