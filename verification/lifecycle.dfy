/**
 * The lifecycle records behind `AbstractComponent`, `AbstractEntity` and
 * `AbstractSystem`, and the hook calls the registry makes on them.
 *
 * Java objects are identified by a reference (`Ref`); their exact runtime class
 * is an explicit integer tag (`Tag`). The back-reference to the owning manager
 * is only ever set or cleared, so it is a flag (`managed`). Every call into a
 * user-overridable hook (`onCreate`, `onDispose`, `onComponentAdded`, ...) is
 * recorded as an `Event`; the registry's observable behaviour is its trace.
 */
module Lifecycle {
  import opened Wrappers

  /** A Java object reference. */
  type Ref = nat

  /** The exact runtime class of an object (what `getClass()` returns). */
  type Tag = int

  /** The per-tick time step; it is passed through untouched. */
  type Delta = real

  /** Which kind of object a lifecycle hook ran on. */
  datatype Obj = Ent(ref: Ref) | Comp(ref: Ref) | Sys(ref: Ref)

  /** One hook invocation, in the order the registry makes them. */
  datatype Event =
    | Create(obj: Obj)               // onCreate()
    | Dispose(obj: Obj)              // onDispose()
    | Added(sys: Ref, comp: Ref)     // System.componentAdded -> onComponentAdded
    | Removed(sys: Ref, comp: Ref)   // System.componentRemoved -> onComponentRemoved
    | Update(sys: Ref, delta: Delta) // System.update -> onUpdate

  /** An object's new state together with the hooks that ran while producing it. */
  datatype Hooked<T> = Hooked(obj: T, events: seq<Event>)

  /** `AbstractComponent`: id, owning entity id and manager handle, all null until created. */
  datatype ComponentObj = ComponentObj(tag: Tag, id: Option<int>, entityId: Option<int>, managed: bool)

  /** `AbstractEntity`: id and manager handle. */
  datatype EntityObj = EntityObj(id: Option<int>, managed: bool)

  /**
   * `AbstractSystem`: the constructor's concurrency hint, id and manager handle.
   * `destroysOnUpdate` marks a system whose `onUpdate` destroys the manager.
   */
  datatype SystemObj = SystemObj(tag: Tag, concurrent: bool, destroysOnUpdate: bool, id: Option<int>, managed: bool)

  // ---------------------------------------------------------------- components

  /** A freshly constructed component: no id, no entity, no manager. */
  function NewComponent(tag: Tag): (c: ComponentObj)
    ensures c.tag == tag && c.id.None? && c.entityId.None? && !c.managed
  {
    ComponentObj(tag, None, None, false)
  }

  /** `create(id, entityId, manager)`: overwrite the three fields, then run `onCreate` once. */
  function ComponentCreate(c: ComponentObj, self: Ref, id: int, entityId: int): (r: Hooked<ComponentObj>)
    ensures r.obj.tag == c.tag
    ensures r.obj.id == Some(id) && r.obj.entityId == Some(entityId) && r.obj.managed
    ensures r.events == [Create(Comp(self))]
  {
    Hooked(c.(id := Some(id), entityId := Some(entityId), managed := true), [Create(Comp(self))])
  }

  /** `dispose()`: run `onDispose` once, then clear the manager, the entity id and the id. */
  function ComponentDispose(c: ComponentObj, self: Ref): (r: Hooked<ComponentObj>)
    ensures r.obj == NewComponent(c.tag)
    ensures r.events == [Dispose(Comp(self))]
  {
    Hooked(c.(id := None, entityId := None, managed := false), [Dispose(Comp(self))])
  }

  /** Disposing a created component brings it back to its freshly constructed state. */
  lemma ComponentCreateDispose(tag: Tag, self: Ref, id: int, entityId: int)
    ensures ComponentDispose(ComponentCreate(NewComponent(tag), self, id, entityId).obj, self).obj == NewComponent(tag)
  {
  }

  /** A second `create` overwrites everything the first one stored. */
  lemma ComponentCreateOverwrites(c: ComponentObj, self: Ref, id1: int, e1: int, id2: int, e2: int)
    ensures ComponentCreate(ComponentCreate(c, self, id1, e1).obj, self, id2, e2).obj
         == ComponentCreate(c, self, id2, e2).obj
  {
  }

  // ------------------------------------------------------------------ entities

  /** A freshly constructed entity: no id, no manager. */
  function NewEntity(): (e: EntityObj)
    ensures e.id.None? && !e.managed
  {
    EntityObj(None, false)
  }

  /** `create(id, manager)`: store both, then run `onCreate` once. */
  function EntityCreate(e: EntityObj, self: Ref, id: int): (r: Hooked<EntityObj>)
    ensures r.obj.id == Some(id) && r.obj.managed
    ensures r.events == [Create(Ent(self))]
  {
    Hooked(EntityObj(Some(id), true), [Create(Ent(self))])
  }

  /** `dispose()`: run `onDispose` once, then clear the manager and the id. */
  function EntityDispose(e: EntityObj, self: Ref): (r: Hooked<EntityObj>)
    ensures r.obj == NewEntity()
    ensures r.events == [Dispose(Ent(self))]
  {
    Hooked(EntityObj(None, false), [Dispose(Ent(self))])
  }

  /** `getId()` answers the id of the most recent `create`, whatever came before. */
  lemma EntityIdIsLatest(e: EntityObj, self: Ref, id1: int, id2: int)
    ensures EntityCreate(EntityCreate(e, self, id1).obj, self, id2).obj.id == Some(id2)
    ensures EntityCreate(EntityDispose(EntityCreate(e, self, id1).obj, self).obj, self, id2).obj.id == Some(id2)
  {
  }

  // ------------------------------------------------------------------- systems

  /** A freshly constructed system with the given concurrency hint. */
  function NewSystem(tag: Tag, concurrent: bool, destroysOnUpdate: bool): (s: SystemObj)
    ensures s.tag == tag && s.concurrent == concurrent && s.destroysOnUpdate == destroysOnUpdate
    ensures s.id.None? && !s.managed
  {
    SystemObj(tag, concurrent, destroysOnUpdate, None, false)
  }

  /** `isConcurrent()`: the flag given to the constructor. */
  function IsConcurrent(s: SystemObj): bool
  {
    s.concurrent
  }

  /** `create(id, manager)`: store both, then run `onCreate` once. */
  function SystemCreate(s: SystemObj, self: Ref, id: int): (r: Hooked<SystemObj>)
    ensures r.obj.id == Some(id) && r.obj.managed
    ensures IsConcurrent(r.obj) == IsConcurrent(s)
    ensures r.obj.tag == s.tag && r.obj.destroysOnUpdate == s.destroysOnUpdate
    ensures r.events == [Create(Sys(self))]
  {
    Hooked(s.(id := Some(id), managed := true), [Create(Sys(self))])
  }

  /** `dispose()`: run `onDispose` once, then clear the manager and the id. */
  function SystemDispose(s: SystemObj, self: Ref): (r: Hooked<SystemObj>)
    ensures r.obj == NewSystem(s.tag, s.concurrent, s.destroysOnUpdate)
    ensures r.events == [Dispose(Sys(self))]
  {
    Hooked(s.(id := None, managed := false), [Dispose(Sys(self))])
  }

  /** The concurrency hint is fixed at construction: no lifecycle step changes it. */
  lemma ConcurrencyHintIsStable(tag: Tag, concurrent: bool, d: bool, self: Ref, id: int)
    ensures var s := NewSystem(tag, concurrent, d);
      && IsConcurrent(SystemCreate(s, self, id).obj) == concurrent
      && IsConcurrent(SystemDispose(SystemCreate(s, self, id).obj, self).obj) == concurrent
  {
  }

  /** `componentAdded(c)`: forwards to `onComponentAdded(c)` exactly once. */
  function ComponentAdded(self: Ref, comp: Ref): (events: seq<Event>)
    ensures |events| == 1 && events[0].Added? && events[0].sys == self && events[0].comp == comp
  {
    [Added(self, comp)]
  }

  /** `componentRemoved(c)`: forwards to `onComponentRemoved(c)` exactly once. */
  function ComponentRemoved(self: Ref, comp: Ref): (events: seq<Event>)
    ensures |events| == 1 && events[0].Removed? && events[0].sys == self && events[0].comp == comp
  {
    [Removed(self, comp)]
  }

  /** `update(delta)`: forwards to `onUpdate(delta)` exactly once, with the same delta. */
  function SystemUpdate(self: Ref, delta: Delta): (events: seq<Event>)
    ensures |events| == 1 && events[0].Update? && events[0].sys == self && events[0].delta == delta
  {
    [Update(self, delta)]
  }
}
