/**
 * `EntityManager`: the registry facade.
 *
 * The manager is either uninitialized (its stores are `null`) or initialized with
 * three id counters, the entity store, the component index and the system store.
 * The lifecycle objects themselves live outside the manager, in a `Heap`; every
 * operation answers the new world and the trace of hooks it ran, or
 * `IllegalState` (Java's `IllegalStateException`) with nothing changed.
 *
 * The stores are `HashMap`s, so every loop over them follows a `HashOrders`
 * parameter: a fixed order of the keys that is otherwise unspecified.
 */
module EntityManager {
  import opened Wrappers
  import opened Lifecycle
  import HashOrder
  import CM = ComponentMap

  /** The state an initialized manager owns. */
  datatype Registry = Registry(
    nextEntityId: int,
    nextComponentId: int,
    nextSystemId: int,
    entityMap: map<int, Ref>,
    componentMap: CM.Index,
    systemMap: map<int, Ref>)

  /** The `initialized` flag; the stores exist only while it is set. */
  datatype Manager = Uninitialized | Initialized(reg: Registry)

  /** The lifecycle objects the client has constructed, by reference. */
  datatype Heap = Heap(
    entities: map<Ref, EntityObj>,
    components: map<Ref, ComponentObj>,
    systems: map<Ref, SystemObj>)

  datatype World = World(manager: Manager, heap: Heap)

  /** A completed call: the new world and the hooks it ran, in order. */
  datatype Step = Step(world: World, trace: seq<Event>)

  /** A heap and the hooks run while changing it. */
  datatype Effect = Effect(heap: Heap, trace: seq<Event>)

  /** An index, a heap and the hooks run while tearing objects down. */
  datatype Teardown = Teardown(index: CM.Index, heap: Heap, trace: seq<Event>)

  /** `checkInitialized()` fails with `IllegalStateException`. */
  datatype Error = IllegalState

  /** The hash-iteration order of each id namespace. */
  datatype HashOrders = HashOrders(entities: seq<int>, components: seq<int>, systems: seq<int>)

  predicate SystemsCovered(ord: HashOrders, reg: Registry)
  {
    HashOrder.Covers(ord.systems, reg.systemMap.Keys)
  }

  predicate ComponentsCovered(ord: HashOrders, reg: Registry)
  {
    HashOrder.Covers(ord.components, reg.componentMap.byId.Keys)
  }

  /** The orders cover every store the manager iterates. */
  predicate Fits(ord: HashOrders, reg: Registry)
  {
    && HashOrder.Covers(ord.entities, reg.entityMap.Keys)
    && ComponentsCovered(ord, reg)
    && SystemsCovered(ord, reg)
  }

  /** The component object `c` is not in the component index. */
  predicate NotIndexed(ix: CM.Index, c: Ref)
  {
    forall k :: k in ix.byId ==> ix.byId[k].ref != c
  }

  // ------------------------------------------------------------------ iteration

  /** `systemMap.values()`, in hash-iteration order. */
  function Systems(reg: Registry, ord: HashOrders): seq<Ref>
  {
    HashOrder.Pick(reg.systemMap, HashOrder.Enumerate(ord.systems, reg.systemMap.Keys))
  }

  /** `entityMap.values()`, in hash-iteration order. */
  function Entities(reg: Registry, ord: HashOrders): seq<Ref>
  {
    HashOrder.Pick(reg.entityMap, HashOrder.Enumerate(ord.entities, reg.entityMap.Keys))
  }

  /** The objects behind a sequence of indexed components. */
  function Refs(cs: seq<CM.Component>): (r: seq<Ref>)
    ensures |r| == |cs|
    ensures forall i :: 0 <= i < |cs| ==> r[i] == cs[i].ref
  {
    if cs == [] then [] else [cs[0].ref] + Refs(cs[1..])
  }

  /** The objects behind the components of `m`. */
  function RefSet(m: map<int, CM.Component>): (r: set<Ref>)
    ensures forall k :: k in m ==> m[k].ref in r
    ensures forall x :: x in r ==> exists k :: k in m && m[k].ref == x
  {
    set k | k in m :: m[k].ref
  }

  /** No object stands behind two ids of `m`. */
  predicate RefInjective(m: map<int, CM.Component>)
  {
    forall k1, k2 :: k1 in m && k2 in m && m[k1].ref == m[k2].ref ==> k1 == k2
  }

  /**
   * The objects behind the components of `m`, in the hash-iteration order of
   * their ids: once each, and all of them when the order covers the ids.
   */
  function RefsOf(m: map<int, CM.Component>, order: seq<int>): (r: seq<Ref>)
    ensures forall x :: x in r ==> x in RefSet(m)
    ensures HashOrder.Covers(order, m.Keys) ==> |r| == |m| && forall x :: x in RefSet(m) ==> x in r
    ensures HashOrder.NoDup(order) && RefInjective(m) ==> HashOrder.NoDup(r)
  {
    RefsOfSound(m, order);
    RefsOfComplete(m, order);
    RefsOfDistinct(m, order);
    Refs(HashOrder.Pick(m, HashOrder.Enumerate(order, m.Keys)))
  }

  lemma RefsOfSound(m: map<int, CM.Component>, order: seq<int>)
    ensures var r := Refs(HashOrder.Pick(m, HashOrder.Enumerate(order, m.Keys)));
      forall x :: x in r ==> x in RefSet(m)
  {
    var ks := HashOrder.Enumerate(order, m.Keys);
    var r := Refs(HashOrder.Pick(m, ks));
    forall x | x in r ensures x in RefSet(m) {
      var i :| 0 <= i < |r| && r[i] == x;
      assert ks[i] in ks;
      assert r[i] == m[ks[i]].ref;
    }
  }

  lemma RefsOfComplete(m: map<int, CM.Component>, order: seq<int>)
    ensures var r := Refs(HashOrder.Pick(m, HashOrder.Enumerate(order, m.Keys)));
      HashOrder.Covers(order, m.Keys) ==> |r| == |m| && forall x :: x in RefSet(m) ==> x in r
  {
    if HashOrder.Covers(order, m.Keys) {
      HashOrder.EnumerateLength(order, m.Keys);
      RefsOfReachesAll(m, order);
    }
  }

  lemma RefsOfReachesAll(m: map<int, CM.Component>, order: seq<int>)
    requires HashOrder.Covers(order, m.Keys)
    ensures forall x :: x in RefSet(m) ==> x in Refs(HashOrder.Pick(m, HashOrder.Enumerate(order, m.Keys)))
  {
    var ks := HashOrder.Enumerate(order, m.Keys);
    var ps := HashOrder.Pick(m, ks);
    var r := Refs(ps);
    forall x | x in RefSet(m) ensures x in r {
      var k :| k in m && m[k].ref == x;
      assert k in ks;
      var i :| 0 <= i < |ks| && ks[i] == k;
      assert ps[i] == m[k];
      assert r[i] == x;
    }
  }

  lemma RefsOfDistinct(m: map<int, CM.Component>, order: seq<int>)
    ensures var r := Refs(HashOrder.Pick(m, HashOrder.Enumerate(order, m.Keys)));
      HashOrder.NoDup(order) && RefInjective(m) ==> HashOrder.NoDup(r)
  {
    var ks := HashOrder.Enumerate(order, m.Keys);
    var r := Refs(HashOrder.Pick(m, ks));
    if HashOrder.NoDup(order) && RefInjective(m) {
      forall i, j | 0 <= i < j < |r| ensures r[i] != r[j] {
        assert HashOrder.NoDup(ks);
        assert ks[i] in ks && ks[j] in ks && ks[i] != ks[j];
        assert r[i] == m[ks[i]].ref && r[j] == m[ks[j]].ref;
      }
    }
  }

  // ---------------------------------------------------------------- fan-out

  /** `componentAdded(c)` on each system in turn. */
  function AddedToAll(systems: seq<Ref>, c: Ref): (r: seq<Event>)
    ensures |r| == |systems|
    ensures forall i :: 0 <= i < |systems| ==> r[i] == Added(systems[i], c)
  {
    if systems == [] then [] else ComponentAdded(systems[0], c) + AddedToAll(systems[1..], c)
  }

  /** `componentRemoved(c)` on each system in turn. */
  function RemovedToAll(systems: seq<Ref>, c: Ref): (r: seq<Event>)
    ensures |r| == |systems|
    ensures forall i :: 0 <= i < |systems| ==> r[i] == Removed(systems[i], c)
  {
    if systems == [] then [] else ComponentRemoved(systems[0], c) + RemovedToAll(systems[1..], c)
  }

  /** `componentAdded` on one system for each component in turn. */
  function AddedFromAll(s: Ref, comps: seq<Ref>): (r: seq<Event>)
    ensures |r| == |comps|
    ensures forall i :: 0 <= i < |comps| ==> r[i] == Added(s, comps[i])
  {
    if comps == [] then [] else ComponentAdded(s, comps[0]) + AddedFromAll(s, comps[1..])
  }

  // ------------------------------------------------------------ heap updates

  function EntityIdOf(h: Heap, e: Ref): Option<int>
  {
    if e in h.entities then h.entities[e].id else None
  }

  function DisposeComponentIn(h: Heap, c: Ref): (r: Heap)
    ensures r.entities == h.entities && r.systems == h.systems
    ensures r.components.Keys == h.components.Keys
    ensures forall x :: x in h.components && x != c ==> r.components[x] == h.components[x]
    ensures c in h.components ==> r.components[c] == NewComponent(h.components[c].tag)
  {
    if c in h.components then h.(components := h.components[c := ComponentDispose(h.components[c], c).obj]) else h
  }

  function DisposeEntityIn(h: Heap, e: Ref): (r: Heap)
    ensures r.components == h.components && r.systems == h.systems
    ensures r.entities.Keys == h.entities.Keys
    ensures forall x :: x in h.entities && x != e ==> r.entities[x] == h.entities[x]
    ensures e in h.entities ==> r.entities[e] == NewEntity()
  {
    if e in h.entities then h.(entities := h.entities[e := EntityDispose(h.entities[e], e).obj]) else h
  }

  function DisposeSystemIn(h: Heap, s: Ref): (r: Heap)
    ensures r.components == h.components && r.entities == h.entities
    ensures r.systems.Keys == h.systems.Keys
    ensures forall x :: x in h.systems && x != s ==> r.systems[x] == h.systems[x]
    ensures s in h.systems ==> var o := h.systems[s]; r.systems[s] == NewSystem(o.tag, o.concurrent, o.destroysOnUpdate)
  {
    if s in h.systems then h.(systems := h.systems[s := SystemDispose(h.systems[s], s).obj]) else h
  }

  // ------------------------------------------------------------------ teardown

  /**
   * The private `unregisterComponent(Component)`: every system is told of the
   * removal, then the component is disposed.
   */
  function ReleaseComponent(h: Heap, systems: seq<Ref>, c: Ref): (r: Effect)
    ensures r.heap == DisposeComponentIn(h, c)
    ensures r.trace == RemovedToAll(systems, c) + [Dispose(Comp(c))]
  {
    Effect(DisposeComponentIn(h, c), RemovedToAll(systems, c) + [Dispose(Comp(c))])
  }

  /** `ReleaseComponent` for each component in turn. */
  function ReleaseComponents(h: Heap, systems: seq<Ref>, comps: seq<Ref>): (r: Effect)
    ensures r.heap.entities == h.entities && r.heap.systems == h.systems
    ensures r.heap.components.Keys == h.components.Keys
    ensures forall x :: x in h.components && x !in comps ==> r.heap.components[x] == h.components[x]
    ensures forall x :: x in h.components && x in comps ==> r.heap.components[x] == NewComponent(h.components[x].tag)
    ensures forall i :: 0 <= i < |r.trace| ==> r.trace[i].Removed? || (r.trace[i].Dispose? && r.trace[i].obj.Comp?)
    decreases |comps|
  {
    if comps == [] then Effect(h, [])
    else
      var first := ReleaseComponent(h, systems, comps[0]);
      var rest := ReleaseComponents(first.heap, systems, comps[1..]);
      Effect(rest.heap, first.trace + rest.trace)
  }

  /** The components filed under entity `e`'s current id, taken out of the index. */
  function DetachComponents(ix: CM.Index, h: Heap, e: Ref): (r: CM.BulkRemoval)
    ensures EntityIdOf(h, e).None? ==> r == CM.BulkRemoval(ix, map[])
  {
    match EntityIdOf(h, e)
    case Some(id) => CM.RemoveByEntityId(ix, id)
    case None => CM.BulkRemoval(ix, map[])
  }

  /**
   * The private `unregisterEntity(Entity)`: removes the components filed under the
   * entity's current id, releases each of them, then disposes the entity.
   */
  function ReleaseEntity(ix: CM.Index, h: Heap, ord: HashOrders, systems: seq<Ref>, e: Ref): (r: Teardown)
    ensures r.heap.entities.Keys == h.entities.Keys
    ensures forall x :: x in h.entities && x != e ==> r.heap.entities[x] == h.entities[x]
    ensures e in h.entities ==> r.heap.entities[e] == NewEntity()
    ensures forall i :: 0 <= i < |r.trace| ==>
      r.trace[i].Removed? || (r.trace[i].Dispose? && (r.trace[i].obj.Comp? || r.trace[i].obj == Ent(e)))
    ensures r.heap.components.Keys == h.components.Keys
    ensures r.heap.systems == h.systems
  {
    var removal := DetachComponents(ix, h, e);
    var released := ReleaseComponents(h, systems, RefsOf(removal.removed, ord.components));
    Teardown(removal.index, DisposeEntityIn(released.heap, e), released.trace + [Dispose(Ent(e))])
  }

  /** `destroyEntityMap()`: releases each entity in turn. */
  function ReleaseEntities(ix: CM.Index, h: Heap, ord: HashOrders, systems: seq<Ref>, ents: seq<Ref>): (r: Teardown)
    ensures r.heap.entities.Keys == h.entities.Keys
    ensures r.heap.components.Keys == h.components.Keys
    ensures r.heap.systems == h.systems
    ensures forall i :: 0 <= i < |r.trace| ==>
      r.trace[i].Removed? || (r.trace[i].Dispose? && (r.trace[i].obj.Comp? || r.trace[i].obj.Ent?))
    decreases |ents|
  {
    if ents == [] then Teardown(ix, h, [])
    else
      var first := ReleaseEntity(ix, h, ord, systems, ents[0]);
      var rest := ReleaseEntities(first.index, first.heap, ord, systems, ents[1..]);
      Teardown(rest.index, rest.heap, first.trace + rest.trace)
  }

  /** The private `unregisterSystem(System)`: disposes the system. */
  function ReleaseSystem(h: Heap, s: Ref): (r: Effect)
    ensures r.heap == DisposeSystemIn(h, s)
    ensures r.trace == [Dispose(Sys(s))]
  {
    Effect(DisposeSystemIn(h, s), [Dispose(Sys(s))])
  }

  /** `destroySystemMap()`: disposes each system in turn. */
  function DisposeSystems(h: Heap, systems: seq<Ref>): (r: Effect)
    ensures r.heap.entities == h.entities && r.heap.components == h.components
    ensures r.heap.systems.Keys == h.systems.Keys
    ensures forall x :: x in h.systems && x !in systems ==> r.heap.systems[x] == h.systems[x]
    ensures forall x :: x in h.systems && x in systems ==>
      var o := h.systems[x]; r.heap.systems[x] == NewSystem(o.tag, o.concurrent, o.destroysOnUpdate)
    ensures forall i :: 0 <= i < |r.trace| ==> r.trace[i].Dispose? && r.trace[i].obj.Sys?
    decreases |systems|
  {
    if systems == [] then Effect(h, [])
    else
      var first := ReleaseSystem(h, systems[0]);
      var rest := DisposeSystems(first.heap, systems[1..]);
      Effect(rest.heap, first.trace + rest.trace)
  }

  /**
   * `destroy()`. When initialized, the flag is cleared first; then every entity is
   * released (with its components), every component left in the index is
   * released, and every system is disposed. When uninitialized, nothing happens.
   */
  function Destroy(w: World, ord: HashOrders): (r: Step)
    ensures r.world.manager.Uninitialized?
    ensures w.manager.Uninitialized? ==> r == Step(w, [])
    ensures r.world.heap.entities.Keys == w.heap.entities.Keys
    ensures r.world.heap.components.Keys == w.heap.components.Keys
    ensures r.world.heap.systems.Keys == w.heap.systems.Keys
    ensures forall i :: 0 <= i < |r.trace| ==> r.trace[i].Removed? || r.trace[i].Dispose?
  {
    match w.manager
    case Uninitialized => Step(w, [])
    case Initialized(reg) =>
      var systems := Systems(reg, ord);
      var t := ReleaseEntities(reg.componentMap, w.heap, ord, systems, Entities(reg, ord));
      var orphans := ReleaseComponents(t.heap, systems, RefsOf(t.index.byId, ord.components));
      var d := DisposeSystems(orphans.heap, systems);
      Step(World(Uninitialized, d.heap), t.trace + orphans.trace + d.trace)
  }

  // ---------------------------------------------------------------- operations

  /** `isInitialized()`. */
  function IsInitialized(w: World): bool
  {
    w.manager.Initialized?
  }

  /** `init()`: fresh stores and counters at 1; a no-op when already initialized. */
  function Init(w: World): (r: World)
    ensures r.manager.Initialized?
    ensures r.heap == w.heap
    ensures w.manager.Initialized? ==> r == w
    ensures w.manager.Uninitialized? ==>
      var reg := r.manager.reg;
      && reg.nextEntityId == 1 && reg.nextComponentId == 1 && reg.nextSystemId == 1
      && reg.entityMap == map[] && reg.systemMap == map[]
      && reg.componentMap == CM.Empty()
      && CM.Size(reg.componentMap) == 0 && CM.Consistent(reg.componentMap)
  {
    match w.manager
    case Initialized(_) => w
    case Uninitialized => World(Initialized(Registry(1, 1, 1, map[], CM.Empty(), map[])), w.heap)
  }

  /**
   * `registerEntity(Entity)`: the entity gets the next entity id and is created with
   * it. An entity that is already stored is stored again: its old key stays and
   * names the same object, which now carries the new id.
   */
  function RegisterEntity(w: World, e: Ref): (r: Result<Step, Error>)
    requires e in w.heap.entities
    ensures r.Failure? <==> w.manager.Uninitialized?
    ensures r.Failure? ==> r.error == IllegalState
    ensures r.Success? ==>
      var reg := w.manager.reg;
      var w' := r.value.world;
      && w'.manager.Initialized?
      && w'.manager.reg == reg.(nextEntityId := reg.nextEntityId + 1,
                                entityMap := reg.entityMap[reg.nextEntityId := e])
      && w'.heap.entities.Keys == w.heap.entities.Keys
      && w'.heap.entities[e].id == Some(reg.nextEntityId) && w'.heap.entities[e].managed
      && (forall x :: x in w.heap.entities && x != e ==> w'.heap.entities[x] == w.heap.entities[x])
      && w'.heap.components == w.heap.components && w'.heap.systems == w.heap.systems
      && r.value.trace == [Create(Ent(e))]
  {
    match w.manager
    case Uninitialized => Failure(IllegalState)
    case Initialized(reg) =>
      var id := reg.nextEntityId;
      var created := EntityCreate(w.heap.entities[e], e, id);
      var reg' := reg.(nextEntityId := id + 1, entityMap := reg.entityMap[id := e]);
      Success(Step(World(Initialized(reg'), w.heap.(entities := w.heap.entities[e := created.obj])), created.events))
  }

  /**
   * `registerComponent(entityId, component)`: the component gets the next component
   * id and is created with it, is put in the index (whether or not the entity
   * exists), and every system is told it was added. A component the index evicts
   * is dropped silently: no `componentRemoved`, no `dispose`.
   */
  function RegisterComponent(w: World, ord: HashOrders, entityId: int, c: Ref): (r: Result<Step, Error>)
    requires c in w.heap.components
    requires w.manager.Initialized? ==> NotIndexed(w.manager.reg.componentMap, c) && SystemsCovered(ord, w.manager.reg)
    ensures r.Failure? <==> w.manager.Uninitialized?
    ensures r.Failure? ==> r.error == IllegalState
    ensures r.Success? ==>
      var reg := w.manager.reg;
      var w' := r.value.world;
      var snap := CM.Component(c, reg.nextComponentId, entityId, w.heap.components[c].tag);
      && w'.manager.Initialized?
      && w'.manager.reg == reg.(nextComponentId := reg.nextComponentId + 1,
                                componentMap := CM.Put(reg.componentMap, snap).index)
      && CM.GetByClass(w'.manager.reg.componentMap, entityId, snap.tag) == Some(snap)
      && w'.heap.components.Keys == w.heap.components.Keys
      && w'.heap.components[c].id == Some(reg.nextComponentId)
      && w'.heap.components[c].entityId == Some(entityId)
      && w'.heap.components[c].managed
      && w'.heap.components[c].tag == w.heap.components[c].tag
      && (forall x :: x in w.heap.components && x != c ==> w'.heap.components[x] == w.heap.components[x])
      && w'.heap.entities == w.heap.entities && w'.heap.systems == w.heap.systems
      && r.value.trace == [Create(Comp(c))] + AddedToAll(Systems(reg, ord), c)
  {
    match w.manager
    case Uninitialized => Failure(IllegalState)
    case Initialized(reg) =>
      var id := reg.nextComponentId;
      var created := ComponentCreate(w.heap.components[c], c, id, entityId);
      var put := CM.Put(reg.componentMap, CM.Component(c, id, entityId, created.obj.tag));
      var reg' := reg.(nextComponentId := id + 1, componentMap := put.index);
      var heap' := w.heap.(components := w.heap.components[c := created.obj]);
      Success(Step(World(Initialized(reg'), heap'), created.events + AddedToAll(Systems(reg, ord), c)))
  }

  /**
   * `unregisterComponent(componentId)`: a present component leaves the index, every
   * system is told of the removal, then it is disposed. An absent id changes nothing.
   */
  function UnregisterComponent(w: World, ord: HashOrders, id: int): (r: Result<Step, Error>)
    requires w.manager.Initialized? ==>
      CM.CanRemoveById(w.manager.reg.componentMap, id) && SystemsCovered(ord, w.manager.reg)
    ensures r.Failure? <==> w.manager.Uninitialized?
    ensures r.Failure? ==> r.error == IllegalState
    ensures r.Success? && id !in w.manager.reg.componentMap.byId ==> r.value == Step(w, [])
    ensures r.Success? && id in w.manager.reg.componentMap.byId ==>
      var reg := w.manager.reg;
      var x := reg.componentMap.byId[id];
      var w' := r.value.world;
      && w'.manager == Initialized(reg.(componentMap := CM.RemoveById(reg.componentMap, id).index))
      && CM.GetById(w'.manager.reg.componentMap, id).None?
      && r.value.trace == RemovedToAll(Systems(reg, ord), x.ref) + [Dispose(Comp(x.ref))]
      && w'.heap == DisposeComponentIn(w.heap, x.ref)
  {
    match w.manager
    case Uninitialized => Failure(IllegalState)
    case Initialized(reg) =>
      var removal := CM.RemoveById(reg.componentMap, id);
      match removal.removed
      case None => Success(Step(w, []))
      case Some(x) =>
        var released := ReleaseComponent(w.heap, Systems(reg, ord), x.ref);
        Success(Step(World(Initialized(reg.(componentMap := removal.index)), released.heap), released.trace))
  }

  /**
   * `unregisterEntity(entityId)`: a present entity leaves the entity store and is
   * released with its components. An absent id changes nothing.
   */
  function UnregisterEntity(w: World, ord: HashOrders, id: int): (r: Result<Step, Error>)
    requires w.manager.Initialized? ==> SystemsCovered(ord, w.manager.reg)
    ensures r.Failure? <==> w.manager.Uninitialized?
    ensures r.Failure? ==> r.error == IllegalState
    ensures r.Success? && id !in w.manager.reg.entityMap ==> r.value == Step(w, [])
    ensures r.Success? && id in w.manager.reg.entityMap ==>
      var reg := w.manager.reg;
      var e := reg.entityMap[id];
      var t := ReleaseEntity(reg.componentMap, w.heap, ord, Systems(reg, ord), e);
      && r.value.world.manager == Initialized(reg.(entityMap := reg.entityMap - {id}, componentMap := t.index))
      && r.value == Step(World(r.value.world.manager, t.heap), t.trace)
      && |r.value.trace| > 0 && r.value.trace[|r.value.trace| - 1] == Dispose(Ent(e))
  {
    match w.manager
    case Uninitialized => Failure(IllegalState)
    case Initialized(reg) =>
      if id !in reg.entityMap then Success(Step(w, []))
      else
        var e := reg.entityMap[id];
        var t := ReleaseEntity(reg.componentMap, w.heap, ord, Systems(reg, ord), e);
        var reg' := reg.(entityMap := reg.entityMap - {id}, componentMap := t.index);
        Success(Step(World(Initialized(reg'), t.heap), t.trace))
  }

  /**
   * `registerSystem(system)`: the system gets the next system id, is created and
   * stored, then is told of every component already in the index, and only it is.
   * A system that is already stored is stored again under the new key as well.
   */
  function RegisterSystem(w: World, ord: HashOrders, s: Ref): (r: Result<Step, Error>)
    requires s in w.heap.systems
    ensures r.Failure? <==> w.manager.Uninitialized?
    ensures r.Failure? ==> r.error == IllegalState
    ensures r.Success? ==>
      var reg := w.manager.reg;
      var w' := r.value.world;
      && w'.manager.Initialized?
      && w'.manager.reg == reg.(nextSystemId := reg.nextSystemId + 1,
                                systemMap := reg.systemMap[reg.nextSystemId := s])
      && w'.heap.systems.Keys == w.heap.systems.Keys
      && w'.heap.systems[s].id == Some(reg.nextSystemId) && w'.heap.systems[s].managed
      && (forall x :: x in w.heap.systems && x != s ==> w'.heap.systems[x] == w.heap.systems[x])
      && w'.heap.entities == w.heap.entities && w'.heap.components == w.heap.components
      && r.value.trace == [Create(Sys(s))] + AddedFromAll(s, RefsOf(reg.componentMap.byId, ord.components))
  {
    match w.manager
    case Uninitialized => Failure(IllegalState)
    case Initialized(reg) =>
      var id := reg.nextSystemId;
      var created := SystemCreate(w.heap.systems[s], s, id);
      var reg' := reg.(nextSystemId := id + 1, systemMap := reg.systemMap[id := s]);
      var heap' := w.heap.(systems := w.heap.systems[s := created.obj]);
      var told := AddedFromAll(s, RefsOf(reg.componentMap.byId, ord.components));
      Success(Step(World(Initialized(reg'), heap'), created.events + told))
  }

  /** `unregisterSystem(systemId)`: a present system leaves the store and is disposed. */
  function UnregisterSystem(w: World, id: int): (r: Result<Step, Error>)
    ensures r.Failure? <==> w.manager.Uninitialized?
    ensures r.Failure? ==> r.error == IllegalState
    ensures r.Success? && id !in w.manager.reg.systemMap ==> r.value == Step(w, [])
    ensures r.Success? && id in w.manager.reg.systemMap ==>
      var reg := w.manager.reg;
      var s := reg.systemMap[id];
      && r.value.world.manager == Initialized(reg.(systemMap := reg.systemMap - {id}))
      && r.value.world.heap == DisposeSystemIn(w.heap, s)
      && r.value.trace == [Dispose(Sys(s))]
  {
    match w.manager
    case Uninitialized => Failure(IllegalState)
    case Initialized(reg) =>
      if id !in reg.systemMap then Success(Step(w, []))
      else
        var s := reg.systemMap[id];
        var disposed := ReleaseSystem(w.heap, s);
        Success(Step(World(Initialized(reg.(systemMap := reg.systemMap - {id})), disposed.heap), disposed.trace))
  }

  /** Whether `s`'s `onUpdate` destroys the manager. */
  function DestroysOnUpdate(h: Heap, s: Ref): bool
  {
    s in h.systems && h.systems[s].destroysOnUpdate
  }

  /**
   * The loop of `update(delta)` over the systems still to be updated: before each
   * system it checks the flag and stops once a system has destroyed the manager.
   */
  function UpdateLoop(w: World, ord: HashOrders, delta: Delta, pending: seq<Ref>): (r: Step)
    requires w.manager.Initialized? ==> Fits(ord, w.manager.reg)
    decreases |pending|
  {
    if pending == [] || w.manager.Uninitialized? then Step(w, [])
    else
      var s := pending[0];
      var ran := SystemUpdate(s, delta);
      if DestroysOnUpdate(w.heap, s) then
        var destroyed := Destroy(w, ord);
        var rest := UpdateLoop(destroyed.world, ord, delta, pending[1..]);
        Step(rest.world, ran + destroyed.trace + rest.trace)
      else
        var rest := UpdateLoop(w, ord, delta, pending[1..]);
        Step(rest.world, ran + rest.trace)
  }

  /** `update(delta)`: each system's update in turn, until one destroys the manager. */
  function Update(w: World, ord: HashOrders, delta: Delta): (r: Result<Step, Error>)
    requires w.manager.Initialized? ==> Fits(ord, w.manager.reg)
    ensures r.Failure? <==> w.manager.Uninitialized?
    ensures r.Failure? ==> r.error == IllegalState
    ensures r.Success? ==> r.value == UpdateLoop(w, ord, delta, Systems(w.manager.reg, ord))
  {
    match w.manager
    case Uninitialized => Failure(IllegalState)
    case Initialized(reg) => Success(UpdateLoop(w, ord, delta, Systems(reg, ord)))
  }

  /**
   * `getSystemByClass(clazz)`: the first system, in hash-iteration order, whose
   * exact class is `tag`; `null` if there is none.
   */
  method GetSystemByClass(w: World, ord: HashOrders, tag: Tag) returns (r: Option<Ref>)
    requires w.manager.Initialized?
    ensures var sys := Systems(w.manager.reg, ord);
      r.Some? ==> (exists i :: 0 <= i < |sys| && sys[i] == r.value && sys[i] in w.heap.systems
                    && w.heap.systems[sys[i]].tag == tag
                    && forall j :: 0 <= j < i ==> !(sys[j] in w.heap.systems && w.heap.systems[sys[j]].tag == tag))
    ensures var sys := Systems(w.manager.reg, ord);
      r.None? ==> forall j :: 0 <= j < |sys| ==> !(sys[j] in w.heap.systems && w.heap.systems[sys[j]].tag == tag)
  {
    var sys := Systems(w.manager.reg, ord);
    var i := 0;
    r := None;
    while i < |sys|
      invariant 0 <= i <= |sys|
      invariant r.None?
      invariant forall j :: 0 <= j < i ==> !(sys[j] in w.heap.systems && w.heap.systems[sys[j]].tag == tag)
    {
      var item := sys[i];
      if item in w.heap.systems && w.heap.systems[item].tag == tag {
        r := Some(item);
        return;
      }
      i := i + 1;
    }
  }
}
