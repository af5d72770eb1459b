# entity-manager, modelled in Dafny

A Dafny model of the core of `entity-manager`, a small Java entity–component–system library. Its core pieces are:

- `EntityManager` hands out numeric ids to entities, components and systems. It keeps them in three registries and sends lifecycle callbacks (`create`, `dispose`, `componentAdded`, `componentRemoved`, `update`) to the objects involved.
- `ComponentMap` is the double index behind the component registry: components by id, and per entity one component per class.
- `AbstractComponent`, `AbstractEntity` and `AbstractSystem` are the lifecycle base classes.
- `AbstractAssemblage` is a recipe of components from which an entity is built in one call.

## How the model is built

- **Objects are references.** Entities, components and systems are `Ref`s into a `Heap` of lifecycle records (`Lifecycle.ComponentObj`, `EntityObj`, `SystemObj`). The manager is `Uninitialized` or `Initialized(Registry)`. A `World` pairs the manager with the heap.
- **Operations return a trace.** Every manager operation returns the new world and the callbacks it made, in order. The trace is a `seq<Event>` (`Create`, `Dispose`, `Added`, `Removed`, `Update`).
- **Errors are values.** A call on an uninitialized manager is `Failure(IllegalState)`, the model of the thrown `IllegalStateException`. The failure carries no world, so nothing changes.
- **Trace views.** `Trace.Project` reads one view out of a trace: the objects disposed, the objects created, the components one system was told about, the systems updated. Properties such as "each component is released exactly once" are stated on these views.
- **Class tags.** A Java class is a `Tag` (an `int`). `getClass() == clazz` becomes tag equality.
- **Hash order is a parameter.** `HashMap` and `HashSet` iterate in an order nobody may rely on. The model takes that order as a parameter, `HashOrders`: one repetition-free sequence of keys per registry. Iterating a map means filtering the order down to the map's keys (`HashOrder.Enumerate`). Every property is proved for all orders. Where a property needs every key to be visited, it assumes an order that covers the keys (`Covers`, `Fits`).
- **The index stores snapshots.** `ComponentMap` stores a `Component(ref, id, entityId, tag)` snapshot, taken when the component is put. The Java map reads the component's mutable fields each time instead. The two agree as long as no component that is still indexed is registered a second time. `RegisterComponent` requires exactly that (see Left out). `RegisterEntity` and `RegisterSystem` accept any object, as the Java code does.
- **The invariant.** `EntityManagerProofs.Valid` says:
  - the counters are positive;
  - every id held in a registry is below its counter;
  - each registry entry's heap record carries that id and is managed;
  - the component index is `ComponentMap.Consistent`: its by-id map and its per-entity buckets describe the same components.

  Every operation preserves `Valid`, except a second registration of an entity or system that is already stored (see Left out).

Where the code does something a reader might not expect, the model follows the code:

- `put` hands back a component it evicts from the same (entity, class) slot. The manager drops that component without disposing it and without notifying any system (`RegisterComponent`'s trace is exactly the create plus one `componentAdded` per system).
- Iteration order is hash order, not insertion order.
- `removeByEntityId` returns an empty collection for an unknown entity, while `getByEntityId` returns null. The model keeps both (`GetByEntityId` gives `None`; `RemoveByEntityId` gives an empty map).
- `removeByClass`, used on its own, removes the component from its entity's bucket but not from the id map. `ComponentMap.RemoveByClassBreaksConsistency` exhibits this. `put` repairs it straight after, and nothing else calls `removeByClass`.

## Model

| member | source | states |
|---|---|---|
| Lifecycle.NewComponent | entity-manager/src/main/java/es/molabs/ecs/base/AbstractComponent.java:23-29 | a new component has no id, no owner and is not managed; only its class is set |
| Lifecycle.ComponentCreate | entity-manager/src/main/java/es/molabs/ecs/base/AbstractComponent.java:46-53 | create records the given id and owning entity, marks the component managed, keeps its class and makes exactly one create callback on that component |
| Lifecycle.ComponentDispose | entity-manager/src/main/java/es/molabs/ecs/base/AbstractComponent.java:55-62 | dispose clears id, owner and manager, bringing the component back to the state of a new one of its class, and makes one dispose callback |
| Lifecycle.ComponentCreateDispose | entity-manager/src/main/java/es/molabs/ecs/base/AbstractComponent.java:46-62 | create followed by dispose returns a component to its initial state |
| Lifecycle.ComponentCreateOverwrites | entity-manager/src/main/java/es/molabs/ecs/base/AbstractComponent.java:46-53 | a second create overwrites the first: only the last id and owner count |
| Lifecycle.NewEntity | entity-manager/src/main/java/es/molabs/ecs/base/AbstractEntity.java:23-28 | a new entity has no id and is not managed |
| Lifecycle.EntityCreate | entity-manager/src/main/java/es/molabs/ecs/base/AbstractEntity.java:40-46 | create stores the id handed out, marks the entity managed and makes one create callback on it |
| Lifecycle.EntityDispose | entity-manager/src/main/java/es/molabs/ecs/base/AbstractEntity.java:48-54 | dispose brings the entity back to a new entity's state and makes one dispose callback |
| Lifecycle.EntityIdIsLatest | entity-manager/src/main/java/es/molabs/ecs/base/AbstractEntity.java:30-54 | getId reports the id of the most recent create, whether or not a dispose came between |
| Lifecycle.NewSystem | entity-manager/src/main/java/es/molabs/ecs/base/AbstractSystem.java:29-37 | a new system keeps the concurrency flag it was constructed with and has no id |
| Lifecycle.SystemCreate | entity-manager/src/main/java/es/molabs/ecs/base/AbstractSystem.java:54-62 | create stores the id, marks the system managed, keeps its class and concurrency flag and makes one create callback |
| Lifecycle.SystemDispose | entity-manager/src/main/java/es/molabs/ecs/base/AbstractSystem.java:64-72 | dispose returns the system to its constructed state, concurrency flag included, with one dispose callback |
| Lifecycle.ConcurrencyHintIsStable | entity-manager/src/main/java/es/molabs/ecs/base/AbstractSystem.java:39-42 | isConcurrent reports the constructor's flag before create, after create and after dispose |
| Lifecycle.ComponentAdded | entity-manager/src/main/java/es/molabs/ecs/base/AbstractSystem.java:74-77 | componentAdded is one notification to that system about that component |
| Lifecycle.ComponentRemoved | entity-manager/src/main/java/es/molabs/ecs/base/AbstractSystem.java:79-82 | componentRemoved is one notification to that system about that component |
| Lifecycle.SystemUpdate | entity-manager/src/main/java/es/molabs/ecs/base/AbstractSystem.java:84-87 | update is one update callback on that system carrying the given delta |
| HashOrder.Enumerate | entity-manager/src/main/java/es/molabs/ecs/util/ComponentMap.java:195-198 | iterating a collection in a hash order visits exactly the keys both hold, each at most once |
| HashOrder.EnumerateLength | entity-manager/src/main/java/es/molabs/ecs/util/ComponentMap.java:190-198 | iterating in an order that covers the keys visits as many entries as the collection's size |
| HashOrder.PickAll | entity-manager/src/main/java/es/molabs/ecs/util/ComponentMap.java:195-198 | iterating a map in a covering order yields exactly the values the map holds |
| ComponentMap.GetById | entity-manager/src/main/java/es/molabs/ecs/util/ComponentMap.java:38-41 | a lookup by id finds a component exactly when that id is indexed, and the component found is one the index holds |
| ComponentMap.GetByEntityId | entity-manager/src/main/java/es/molabs/ecs/util/ComponentMap.java:43-48 | the per-entity lookup is null exactly when the entity has no bucket |
| ComponentMap.GetByClass | entity-manager/src/main/java/es/molabs/ecs/util/ComponentMap.java:50-64 | the class lookup finds a component exactly when the entity has a bucket holding that class |
| ComponentMap.LookupsAgree | entity-manager/src/main/java/es/molabs/ecs/util/ComponentMap.java:38-64 | on a consistent index, the component found by id carries that id and sits in its entity's bucket; the one found by (entity, class) belongs to that entity, has that class and is indexed by id; the per-entity collection holds exactly the indexed components of that entity |
| ComponentMap.HasComponent | entity-manager/src/main/java/es/molabs/ecs/util/ComponentMap.java:86-99 | hasComponent is true exactly when getByClass finds something |
| ComponentMap.Values | entity-manager/src/main/java/es/molabs/ecs/util/ComponentMap.java:195-198 | values yields only components the index holds |
| ComponentMap.ValuesComplete | entity-manager/src/main/java/es/molabs/ecs/util/ComponentMap.java:190-198 | in a covering order, values yields every indexed component and exactly size() of them |
| ComponentMap.OfClass | entity-manager/src/main/java/es/molabs/ecs/util/ComponentMap.java:66-84 | the class filter keeps exactly the members of that class |
| ComponentMap.GetCollectionByClass | entity-manager/src/main/java/es/molabs/ecs/util/ComponentMap.java:66-84 | the collection for a class holds only indexed components of that class and, in a covering order, all of them |
| ComponentMap.RemoveByClass | entity-manager/src/main/java/es/molabs/ecs/util/ComponentMap.java:174-188 | removeByClass returns what getByClass would, empties only that (entity, class) slot, keeps the entity's bucket and leaves the id map untouched |
| ComponentMap.Put | entity-manager/src/main/java/es/molabs/ecs/util/ComponentMap.java:101-136 | put returns the previous occupant of the (entity, class) slot, drops that occupant from the id map, makes the new component findable by id and by class, creates the bucket if missing and changes no other slot |
| ComponentMap.RemoveById | entity-manager/src/main/java/es/molabs/ecs/util/ComponentMap.java:138-151 | removeById returns what getById would; an unknown id changes nothing; a known one leaves the id and empties exactly its own slot, keeping the entity's bucket |
| ComponentMap.RemoveByEntityId | entity-manager/src/main/java/es/molabs/ecs/util/ComponentMap.java:153-172 | removeByEntityId drops the entity's bucket; an unknown entity changes nothing and yields nothing; every removed id left the id map and every id either stays unchanged or is removed |
| ComponentMap.Clear | entity-manager/src/main/java/es/molabs/ecs/util/ComponentMap.java:200-204 | after clear the size is 0, no entity has a component and no bucket exists |
| ComponentMap.ConsistentMembership | entity-manager/src/main/java/es/molabs/ecs/util/ComponentMap.java:29-30 | in a consistent index a component is held by the id map exactly when it sits in its entity's bucket under its class |
| ComponentMap.EmptyConsistent | entity-manager/src/main/java/es/molabs/ecs/util/ComponentMap.java:32-36 | a new map is consistent and empty |
| ComponentMap.PutPreservesConsistency | entity-manager/src/main/java/es/molabs/ecs/util/ComponentMap.java:101-136 | putting a component with a new id keeps the two maps in agreement, the eviction included |
| ComponentMap.PutSize | entity-manager/src/main/java/es/molabs/ecs/util/ComponentMap.java:101-136 | put grows the size by one unless it evicted a component, in which case the size stays the same |
| ComponentMap.ExactClassKeying | entity-manager/src/main/java/es/molabs/ecs/util/ComponentMap.java:111-133 | two components of different classes for one entity occupy separate slots and do not evict each other |
| ComponentMap.RemoveByIdPreservesConsistency | entity-manager/src/main/java/es/molabs/ecs/util/ComponentMap.java:138-151 | on a consistent map, removeById never meets a missing bucket and keeps the maps in agreement |
| ComponentMap.RemoveByIdLeavesEmptyBucket | entity-manager/src/main/java/es/molabs/ecs/util/ComponentMap.java:138-151 | removing an entity's last component by id leaves an empty, non-null bucket for it |
| ComponentMap.RemoveByEntityIdExact | entity-manager/src/main/java/es/molabs/ecs/util/ComponentMap.java:153-172 | removeByEntityId removes exactly that entity's components, keeps every other entity's, and keeps the maps in agreement |
| ComponentMap.RemoveByClassBreaksConsistency | entity-manager/src/main/java/es/molabs/ecs/util/ComponentMap.java:174-188 | removeByClass used on its own leaves a stale entry in the id map |
| ComponentMap.ClearConsistent | entity-manager/src/main/java/es/molabs/ecs/util/ComponentMap.java:200-204 | a cleared map is consistent |
| ComponentMapExample.PutB | entity-manager/src/test/java/es/molabs/ecs/test/ComponentMapTest.java:89-90 | a second component of the same class for entity 1 evicts the first |
| ComponentMapExample.FourPutsOneCollision | entity-manager/src/test/java/es/molabs/ecs/test/ComponentMapTest.java:89-110 | four puts with one collision leave 3 components, 2 for entity 1 and 1 for entity 2; removing entity 1 leaves it without a bucket and entity 2 untouched |
| EntityManager.RefsOf | entity-manager/src/main/java/es/molabs/ecs/EntityManager.java:299-303 | iterating the component index yields only indexed components; in a covering order, all of them, each once |
| EntityManager.AddedToAll | entity-manager/src/main/java/es/molabs/ecs/EntityManager.java:249-254 | announcing a new component makes one componentAdded per system, in iteration order |
| EntityManager.RemovedToAll | entity-manager/src/main/java/es/molabs/ecs/EntityManager.java:279-284 | retiring a component makes one componentRemoved per system, in iteration order |
| EntityManager.ReleaseComponent | entity-manager/src/main/java/es/molabs/ecs/EntityManager.java:275-288 | releasing a component notifies every system and then disposes that component and nothing else |
| EntityManager.ReleaseComponents | entity-manager/src/main/java/es/molabs/ecs/EntityManager.java:224-233 | releasing a batch disposes exactly the batch, leaves every other object alone and makes only removal and component-dispose callbacks |
| EntityManager.ReleaseEntity | entity-manager/src/main/java/es/molabs/ecs/EntityManager.java:218-237 | tearing down an entity disposes that entity and no other, leaves systems alone and makes only removal and dispose callbacks |
| EntityManager.Destroy | entity-manager/src/main/java/es/molabs/ecs/EntityManager.java:75-99 | destroy leaves the manager uninitialized, is a no-op when it already is, keeps every object and makes only removal and dispose callbacks |
| EntityManager.Init | entity-manager/src/main/java/es/molabs/ecs/EntityManager.java:50-73 | init on an uninitialized manager starts all three counters at 1 with empty, consistent registries; on an initialized one it changes nothing |
| EntityManager.RegisterEntity | entity-manager/src/main/java/es/molabs/ecs/EntityManager.java:187-198 | registering fails with IllegalState exactly when uninitialized; otherwise the entity gets the next id, is stored under it, is created once, and nothing else changes |
| EntityManager.RegisterComponent | entity-manager/src/main/java/es/molabs/ecs/EntityManager.java:239-255 | registering fails exactly when uninitialized; otherwise the component gets the next id and its owner, becomes findable by (entity, class), is created once and announced once to every system |
| EntityManager.UnregisterComponent | entity-manager/src/main/java/es/molabs/ecs/EntityManager.java:257-288 | unregistering fails exactly when uninitialized; an unknown id changes nothing; a known one leaves the index, every system is told, then the component is disposed |
| EntityManager.UnregisterEntity | entity-manager/src/main/java/es/molabs/ecs/EntityManager.java:200-237 | unregistering fails exactly when uninitialized; an unknown id changes nothing; a known entity leaves the registry, its components are detached and released, and the entity's dispose is the last callback |
| EntityManager.RegisterSystem | entity-manager/src/main/java/es/molabs/ecs/EntityManager.java:290-304 | registering fails exactly when uninitialized; otherwise the system gets the next id, is created, and is then told about every indexed component |
| EntityManager.UnregisterSystem | entity-manager/src/main/java/es/molabs/ecs/EntityManager.java:306-327 | unregistering fails exactly when uninitialized; an unknown id changes nothing; a known system leaves the registry and is disposed, with no component notification |
| EntityManager.Update | entity-manager/src/main/java/es/molabs/ecs/EntityManager.java:329-347 | update fails exactly when uninitialized and otherwise runs the systems in iteration order |
| EntityManager.GetSystemByClass | entity-manager/src/main/java/es/molabs/ecs/EntityManager.java:161-180 | returns the first registered system of the class in iteration order, or nothing when no system has that class |
| EntityManagerProofs.InitValid | entity-manager/src/main/java/es/molabs/ecs/EntityManager.java:50-73 | init preserves the registry invariant |
| EntityManagerProofs.RegisterEntityValid | entity-manager/src/main/java/es/molabs/ecs/EntityManager.java:187-198 | registering an entity that is not already stored preserves the registry invariant |
| EntityManagerProofs.RegisterComponentValid | entity-manager/src/main/java/es/molabs/ecs/EntityManager.java:239-255 | registering a component preserves the registry invariant, the eviction included |
| EntityManagerProofs.UnregisterComponentValid | entity-manager/src/main/java/es/molabs/ecs/EntityManager.java:257-273 | under the invariant removeById never hits a missing bucket, and unregistering preserves the invariant |
| EntityManagerProofs.RegisterSystemValid | entity-manager/src/main/java/es/molabs/ecs/EntityManager.java:290-304 | registering a system that is not already stored preserves the registry invariant |
| EntityManagerProofs.UnregisterSystemValid | entity-manager/src/main/java/es/molabs/ecs/EntityManager.java:306-327 | unregistering a system preserves the registry invariant |
| EntityManagerProofs.UnregisterEntityValid | entity-manager/src/main/java/es/molabs/ecs/EntityManager.java:200-237 | unregistering an entity preserves the registry invariant |
| EntityManagerProofs.UpdateValid | entity-manager/src/main/java/es/molabs/ecs/EntityManager.java:329-347 | update preserves the registry invariant, including when a system destroys the manager |
| EntityManagerProofs.DestroyResets | entity-manager/src/main/java/es/molabs/ecs/EntityManager.java:75-99 | after destroy every entity and system that was registered, and every component that was indexed, is back in the state of a new object: no id, no owner, not managed, its class (and a system's flags) kept |
| EntityManagerProofs.ReleaseEntitiesResets | entity-manager/src/main/java/es/molabs/ecs/EntityManager.java:354-364 | releasing entities in turn disposes each of them and every component whose entry left the index, and leaves every other entity and component as it was |
| EntityManagerProofs.ReleaseEntityResets | entity-manager/src/main/java/es/molabs/ecs/EntityManager.java:218-237 | releasing one entity disposes it and every component taken out of the index with it, and leaves every other entity and component as it was |
| EntityManagerProofs.DestroyReleasesEachComponentOnce | entity-manager/src/main/java/es/molabs/ecs/EntityManager.java:75-99 | destroy disposes every indexed component exactly once, and every registered system hears componentRemoved for each of them exactly once, whether released with its entity or as an orphan |
| EntityManagerProofs.DestroyDisposalCount | entity-manager/src/main/java/es/molabs/ecs/EntityManager.java:354-376 | the number of component disposals during destroy equals the index's size before it |
| EntityManagerProofs.DestroyEntityOrder | entity-manager/src/main/java/es/molabs/ecs/EntityManager.java:354-364 | destroy disposes the registered entities one by one in the entity map's iteration order |
| EntityManagerProofs.DestroySystemOrder | entity-manager/src/main/java/es/molabs/ecs/EntityManager.java:378-388 | destroy disposes the registered systems one by one in the system map's iteration order |
| EntityManagerProofs.DestroyDisposesEntitiesAndSystems | entity-manager/src/main/java/es/molabs/ecs/EntityManager.java:75-99 | destroy disposes every registered entity and every registered system exactly once, and nothing else of those kinds |
| EntityManagerProofs.DestroyRunsNoUpdate | entity-manager/src/main/java/es/molabs/ecs/EntityManager.java:75-99 | destroy never calls update on a system |
| EntityManagerProofs.UpdateStopsAfterDestroy | entity-manager/src/main/java/es/molabs/ecs/EntityManager.java:333-346 | the systems updated are the pending ones up to and including the first that destroys the manager, and none after it |
| EntityManagerProofs.UpdateOutcome | entity-manager/src/main/java/es/molabs/ecs/EntityManager.java:329-347 | when no system destroys the manager the world is unchanged and no system is disposed; otherwise the manager ends uninitialized and every system is disposed in iteration order |
| EntityManagerProofs.RegisterComponentAnnounces | entity-manager/src/main/java/es/molabs/ecs/EntityManager.java:249-254 | each registered system is told about a newly registered component exactly once, and nothing is removed or disposed |
| EntityManagerProofs.LateSystemSeesEveryComponent | entity-manager/src/main/java/es/molabs/ecs/EntityManager.java:298-303 | a system registered late is told about every component already indexed, each exactly once, size() times in all |
| EntityManagerProofs.UnregisterComponentNotifies | entity-manager/src/main/java/es/molabs/ecs/EntityManager.java:275-288 | unregistering a known component tells each registered system about it once and disposes exactly it |
| EntityManagerProofs.RemovedAreOwned | entity-manager/src/main/java/es/molabs/ecs/util/ComponentMap.java:153-172 | the components removeByEntityId takes out are exactly the ones the entity owned |
| EntityManagerProofs.UnregisterEntityEffect | entity-manager/src/main/java/es/molabs/ecs/EntityManager.java:200-237 | unregistering an entity leaves the index as removeByEntityId left it and disposes that entity and no other |
| EntityManagerProofs.UnregisterEntityCascade | entity-manager/src/main/java/es/molabs/ecs/EntityManager.java:200-237 | unregistering an entity leaves it without components, keeps every other entity's, releases each of its own components exactly once to every system and disposes the entity |
| EntityManagerProofs.UnregisterEntityDetaches | entity-manager/src/main/java/es/molabs/ecs/EntityManager.java:218-224 | after unregistering, the entity has no bucket and every other entity's components are unchanged |
| EntityManagerProofs.UnregisterEntityReleasesOwned | entity-manager/src/main/java/es/molabs/ecs/EntityManager.java:224-233 | the components released are exactly the entity's own, each once |
| Assemblage.Without | entity-manager/src/main/java/es/molabs/ecs/base/AbstractAssemblage.java:41-44 | removal from the linked set keeps every other member, drops the given one and keeps members distinct |
| Assemblage.AddComponent | entity-manager/src/main/java/es/molabs/ecs/base/AbstractAssemblage.java:36-39 | adding puts the component in the set, keeps every old member, keeps members distinct, and adding a present member changes nothing |
| Assemblage.RemoveComponent | entity-manager/src/main/java/es/molabs/ecs/base/AbstractAssemblage.java:41-44 | removing keeps exactly the other members, still distinct |
| Assemblage.WithoutConcat | entity-manager/src/main/java/es/molabs/ecs/base/AbstractAssemblage.java:41-44 | removal from the linked set keeps the insertion order of the rest: removing from two joined runs is removing from each |
| Assemblage.AddComponentIsLast | entity-manager/src/main/java/es/molabs/ecs/base/AbstractAssemblage.java:36-39 | a newly added component comes last in insertion order, so it is the one of its class that registration keeps in the (entity, class) slot; the slot of every other class is unchanged |
| Assemblage.WithoutKeepsOtherClasses | entity-manager/src/main/java/es/molabs/ecs/base/AbstractAssemblage.java:41-44 | removing a component does not change which member of any other class comes last |
| Assemblage.RemoveComponentKeepsOtherClasses | entity-manager/src/main/java/es/molabs/ecs/base/AbstractAssemblage.java:41-44 | removing a component from an assemblage leaves the last member of every other class unchanged |
| Assemblage.AddThenRemove | entity-manager/src/main/java/es/molabs/ecs/base/AbstractAssemblage.java:36-44 | adding a new component and removing it again restores the assemblage, order included |
| Assemblage.AddIdempotent | entity-manager/src/main/java/es/molabs/ecs/base/AbstractAssemblage.java:36-39 | adding the same component twice is the same as adding it once |
| Assemblage.LastOfClass | entity-manager/src/main/java/es/molabs/ecs/base/AbstractAssemblage.java:46-64 | the component found has the class asked for and no later member has it; nothing is found exactly when no member has it |
| Assemblage.GetComponent | entity-manager/src/main/java/es/molabs/ecs/base/AbstractAssemblage.java:46-64 | the iteration without early exit returns the last member of the class in insertion order |
| Assemblage.RegisterAll | entity-manager/src/main/java/es/molabs/ecs/base/AbstractAssemblage.java:72-77 | registering the members in order numbers them consecutively from the component counter, gives each the new entity as owner and fills one (entity, class) slot per class with the last member of that class |
| Assemblage.CreateEntity | entity-manager/src/main/java/es/molabs/ecs/base/AbstractAssemblage.java:66-80 | createEntity fails exactly when the manager is uninitialized; otherwise it registers one new entity under the next id, then each member in order under consecutive ids, and its trace creates the entity first and then exactly the members |
| Assemblage.RegisterAssemblage | entity-manager/src/main/java/es/molabs/ecs/EntityManager.java:182-185 | registering an assemblage yields a registered entity with the next id that has a component of every class the assemblage holds |
| Assemblage.RegisterAllCreates | entity-manager/src/main/java/es/molabs/ecs/base/AbstractAssemblage.java:72-77 | registering the members creates exactly them, in order, and no entity |
| AssemblageProofs.RegisterAllValid | entity-manager/src/main/java/es/molabs/ecs/base/AbstractAssemblage.java:72-77 | registering an assemblage's members preserves the registry invariant |
| AssemblageProofs.CreateEntityValid | entity-manager/src/main/java/es/molabs/ecs/base/AbstractAssemblage.java:66-80 | building an entity from an assemblage preserves the registry invariant |
| Numbering.RegisterEntities | entity-manager/src/main/java/es/molabs/ecs/EntityManager.java:187-198 | registering entities in turn stores each under the counter's next value and gives it that id |
| Numbering.EntityIdsRunFromOne | entity-manager/src/main/java/es/molabs/ecs/EntityManager.java:50-56 | after init, the entities registered get ids 1, 2, 3, … in registration order, and the next id is one past the last |
| Numbering.ComponentIdsRunFromOne | entity-manager/src/main/java/es/molabs/ecs/EntityManager.java:239-247 | after init, the components registered in turn get ids 1, 2, 3, … |
| Numbering.ReregisteredEntityGetsNewId | entity-manager/src/test/java/es/molabs/ecs/test/EntityManagerTest.java:82-103 | an entity unregistered and registered again gets a fresh, larger id, not its old one |

## Left out

- The `EventBus` that `init` creates and `destroy` clears is not modelled. No core operation posts to it.
- Logging (`slf4j` warnings for unknown ids and repeated `init`/`destroy`) is not modelled. It has no effect on state.
- `AbstractTaskSystem`, `System.java` and the test doubles are not part of this model. They are context, not core.
- The frame time passed to `update` is a `float`. It is modelled as an opaque `real` that is only passed along.
- Reflection (`getClass() == clazz`) is replaced by class tags.
- The manager's getters are plain reads of its registries, and they are modelled only through the `ComponentMap` functions and registry maps they read. This covers `getEntity`, `getEntityCount`, `getComponent` (by id and by entity and class), `getComponentCollection`, `getComponentCollectionByClass`, `hasComponent`, `getComponentCount`, `getSystem` and `getSystemCount`.
- `EntityManager.GetSystemByClass` requires an initialized manager. After `destroy` the Java field is null and the call fails on a null dereference, which is not modelled.
- `EntityManager.RegisterComponent` requires that the component is not currently indexed. Registering a live component a second time makes the Java map alias one mutable object under two ids, which the snapshot index does not represent.
- `EntityManagerProofs.RegisterEntityValid` and `EntityManagerProofs.RegisterSystemValid` prove the invariant only for an object that is not already registered. A second registration leaves the old key pointing at an object whose id is now the new one, so "each entry's record carries that id" no longer holds.
- `EntityManager.RegisterEntity`, `EntityManager.RegisterComponent` and `EntityManager.RegisterSystem` count ids with unbounded integers. Java's `AtomicInteger.getAndIncrement` (EntityManager.java:34-36, 191, 243, 294) wraps to negative values after 2^31 − 1 registrations, and that wrap is not modelled. So `EntityManagerProofs.Valid`'s bound `1 <= id < counter` and the fresh-id results hold only below 2^31 − 1 registrations.
- `Numbering.RegisterEntities`, `Numbering.EntityIdsRunFromOne`, `Numbering.NumberedFromOne`, `Numbering.ComponentIdsRunFromOne` and `Numbering.ReregisteredEntityGetsNewId` rely on the same unbounded counters. Consecutive numbering and `nextEntityId > id` are not promised once the 32-bit counter wraps.
- `ComponentMap.RemoveById` requires `CanRemoveById`: the stored component's entity must have a bucket. Otherwise the Java code dereferences null at ComponentMap.java:147. `EntityManagerProofs.UnregisterComponentValid` shows that a valid manager always meets this.
- `ComponentMap.RemoveByEntityId` drops the nulls the Java set could collect from `mapById.remove`. Its only caller skips nulls anyway.
- The `HashSet` that `removeByEntityId` returns is iterated in the component index's hash order (`ord.components`), the same order as the index's own map. In Java the set's order is unspecified in the same way as the maps' order.
- `Assemblage.CreateEntity` and `Assemblage.RegisterAssemblage` require the members to be known, distinct and not yet indexed, and the new entity to be fresh. The Java code allocates the entity itself.
- `Assemblage.RegisterAll` requires an initialized manager. Its caller has already registered the entity, which fails first otherwise.
- `Lifecycle.IsConcurrent` is carried through but used by nothing in the core. Only `AbstractTaskSystem` reads it.
- Re-entrant calls from callbacks are not modelled, except a system whose `update` destroys the manager. That one is in the model (`DestroysOnUpdate`).
- The `onCreate`, `onDispose` and other hook methods of the base classes are empty in the core. Subclasses' overrides are calls into unseen code and appear only as trace events.
