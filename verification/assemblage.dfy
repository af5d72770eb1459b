/**
 * `AbstractAssemblage`: a template of components that becomes an entity.
 *
 * The components are kept as a `LinkedHashSet`, so they iterate in insertion
 * order and each instance occurs once. An instance's class is its `Tag`, read
 * from the heap of lifecycle objects.
 */
module Assemblage {
  import opened Wrappers
  import opened Lifecycle
  import opened Trace
  import HashOrder
  import CM = ComponentMap
  import EM = EntityManager

  datatype Assemblage = Assemblage(components: seq<Ref>)

  /** A freshly constructed assemblage holds no component. */
  function NewAssemblage(): Assemblage
  {
    Assemblage([])
  }

  /** `cs` without `c`, in the same order. */
  function Without(cs: seq<Ref>, c: Ref): (r: seq<Ref>)
    ensures forall x :: x in r <==> x in cs && x != c
    ensures HashOrder.NoDup(cs) ==> HashOrder.NoDup(r)
    ensures |r| <= |cs|
  {
    if cs == [] then []
    else
      var rest := Without(cs[1..], c);
      assert HashOrder.NoDup(cs) ==> HashOrder.NoDup(cs[1..]) && cs[0] !in cs[1..];
      if cs[0] == c then rest else [cs[0]] + rest
  }

  /** `addComponent(c)`: appended unless the instance is already held. */
  function AddComponent(a: Assemblage, c: Ref): (r: Assemblage)
    ensures c in r.components
    ensures forall x :: x in a.components ==> x in r.components
    ensures HashOrder.NoDup(a.components) ==> HashOrder.NoDup(r.components)
    ensures c in a.components ==> r == a
  {
    if c in a.components then a else Assemblage(a.components + [c])
  }

  /** `removeComponent(c)`: drops that instance and keeps the rest in order. */
  function RemoveComponent(a: Assemblage, c: Ref): (r: Assemblage)
    ensures forall x :: x in r.components <==> x in a.components && x != c
    ensures HashOrder.NoDup(a.components) ==> HashOrder.NoDup(r.components)
  {
    Assemblage(Without(a.components, c))
  }

  /** Removing what was just added restores the assemblage. */
  lemma {:induction false} WithoutAppended(cs: seq<Ref>, c: Ref)
    requires c !in cs
    ensures Without(cs + [c], c) == cs
  {
    if cs == [] {
      assert [c][1..] == [];
    } else {
      assert (cs + [c])[1..] == cs[1..] + [c];
      WithoutAppended(cs[1..], c);
    }
  }

  lemma AddThenRemove(a: Assemblage, c: Ref)
    requires c !in a.components
    ensures RemoveComponent(AddComponent(a, c), c) == a
  {
    WithoutAppended(a.components, c);
  }

  /** Adding the same instance twice is adding it once. */
  lemma AddIdempotent(a: Assemblage, c: Ref)
    ensures AddComponent(AddComponent(a, c), c) == AddComponent(a, c)
  {
  }

  /** Dropping an instance from a concatenation drops it from each part: the rest keep their order. */
  lemma {:induction false} WithoutConcat(a: seq<Ref>, b: seq<Ref>, c: Ref)
    ensures Without(a + b, c) == Without(a, c) + Without(b, c)
  {
    if a == [] {
      assert a + b == b;
    } else {
      assert (a + b)[1..] == a[1..] + b;
      WithoutConcat(a[1..], b, c);
    }
  }

  /** Every component of `cs` is a known object. */
  predicate Known(h: EM.Heap, cs: seq<Ref>)
  {
    forall i :: 0 <= i < |cs| ==> cs[i] in h.components
  }

  /** The last component of `cs` whose class is `t`, if any. */
  function LastOfClass(h: EM.Heap, cs: seq<Ref>, t: Tag): (r: Option<Ref>)
    requires Known(h, cs)
    ensures r.None? <==> forall i :: 0 <= i < |cs| ==> h.components[cs[i]].tag != t
    ensures r.Some? ==> exists i :: 0 <= i < |cs| && cs[i] == r.value && h.components[cs[i]].tag == t
                          && forall j :: i < j < |cs| ==> h.components[cs[j]].tag != t
    decreases |cs|
  {
    if cs == [] then None
    else if h.components[cs[|cs| - 1]].tag == t then Some(cs[|cs| - 1])
    else
      var r := LastOfClass(h, cs[..|cs| - 1], t);
      assert forall i :: 0 <= i < |cs| - 1 ==> cs[..|cs| - 1][i] == cs[i];
      r
  }

  /** A sequence drawn from known components is known. */
  lemma KnownWithin(h: EM.Heap, cs: seq<Ref>, r: seq<Ref>)
    requires Known(h, cs)
    requires forall x :: x in r ==> x in cs
    ensures Known(h, r)
  {
    forall i | 0 <= i < |r| ensures r[i] in h.components {
      assert r[i] in r;
    }
  }

  /**
   * A component added to the assemblage comes after all the others: it is what
   * `getComponent` answers for its class, and every other class answers as before.
   */
  lemma AddComponentIsLast(a: Assemblage, h: EM.Heap, c: Ref, t: Tag)
    requires Known(h, a.components) && c in h.components && c !in a.components
    ensures Known(h, AddComponent(a, c).components)
    ensures LastOfClass(h, AddComponent(a, c).components, h.components[c].tag) == Some(c)
    ensures t != h.components[c].tag ==>
      LastOfClass(h, AddComponent(a, c).components, t) == LastOfClass(h, a.components, t)
  {
    var cs := AddComponent(a, c).components;
    assert cs == a.components + [c];
    assert cs[..|cs| - 1] == a.components;
  }

  /**
   * Removing a component leaves the others in their order: every other class
   * answers `getComponent` as before.
   */
  lemma {:induction false} WithoutKeepsOtherClasses(h: EM.Heap, cs: seq<Ref>, c: Ref, t: Tag)
    requires Known(h, cs) && c in h.components && t != h.components[c].tag
    ensures Known(h, Without(cs, c))
    ensures LastOfClass(h, Without(cs, c), t) == LastOfClass(h, cs, t)
    decreases |cs|
  {
    KnownWithin(h, cs, Without(cs, c));
    if cs != [] {
      var init := cs[..|cs| - 1];
      var l := cs[|cs| - 1];
      assert cs == init + [l];
      WithoutConcat(init, [l], c);
      assert [l][1..] == [];
      KnownWithin(h, cs, init);
      WithoutKeepsOtherClasses(h, init, c, t);
      var rest := Without(init, c);
      if l != c {
        assert Without(cs, c) == rest + [l];
        assert (rest + [l])[..|rest|] == rest;
      } else {
        assert Without(cs, c) == rest;
      }
    }
  }

  lemma RemoveComponentKeepsOtherClasses(a: Assemblage, h: EM.Heap, c: Ref, t: Tag)
    requires Known(h, a.components) && c in h.components && t != h.components[c].tag
    ensures Known(h, RemoveComponent(a, c).components)
    ensures LastOfClass(h, RemoveComponent(a, c).components, t) == LastOfClass(h, a.components, t)
  {
    WithoutKeepsOtherClasses(h, a.components, c, t);
  }

  /**
   * `getComponent(clazz)`: scans every component, without stopping early, and
   * keeps the last whose class is `clazz`; `null` if none is.
   */
  method GetComponent(a: Assemblage, h: EM.Heap, t: Tag) returns (r: Option<Ref>)
    requires Known(h, a.components)
    ensures r == LastOfClass(h, a.components, t)
  {
    var cs := a.components;
    r := None;
    var i := 0;
    while i < |cs|
      invariant 0 <= i <= |cs|
      invariant Known(h, cs[..i])
      invariant r == LastOfClass(h, cs[..i], t)
    {
      var item := cs[i];
      assert cs[..i + 1][..i] == cs[..i];
      if h.components[item].tag == t {
        r := Some(item);
      }
      i := i + 1;
    }
    assert cs[..i] == cs;
  }

  /**
   * The counters, maps and heap after registering `n` components: only the
   * component counter moves, and no object changes class.
   */
  predicate Bookkept(w: EM.World, w': EM.World, n: nat)
  {
    && w.manager.Initialized? && w'.manager.Initialized?
    && var reg := w.manager.reg;
       var reg' := w'.manager.reg;
       && reg'.entityMap == reg.entityMap && reg'.systemMap == reg.systemMap
       && reg'.nextEntityId == reg.nextEntityId && reg'.nextSystemId == reg.nextSystemId
       && reg'.nextComponentId == reg.nextComponentId + n
       && w'.heap.entities == w.heap.entities && w'.heap.systems == w.heap.systems
       && w'.heap.components.Keys == w.heap.components.Keys
       && forall x :: x in w.heap.components ==> w'.heap.components[x].tag == w.heap.components[x].tag
  }

  /** Every entry of `ix'` was already in `ix` or stores one of `cs`. */
  predicate OnlyAdds(ix: CM.Index, ix': CM.Index, cs: seq<Ref>)
  {
    forall k :: k in ix'.byId ==>
      (k in ix.byId && ix'.byId[k] == ix.byId[k]) || ix'.byId[k].ref in cs
  }

  /**
   * The class slots of `entityId` in `ix'`: each class of `cs` holds the last
   * component of that class; every other slot, of any entity, is as in `ix`.
   */
  ghost predicate FillsSlots(h: EM.Heap, ix: CM.Index, ix': CM.Index, entityId: int, cs: seq<Ref>)
    requires Known(h, cs)
  {
    && (forall t :: LastOfClass(h, cs, t).Some? ==>
          CM.GetByClass(ix', entityId, t).Some?
          && CM.GetByClass(ix', entityId, t).value.ref == LastOfClass(h, cs, t).value)
    && (forall t :: LastOfClass(h, cs, t).None? ==>
          CM.GetByClass(ix', entityId, t) == CM.GetByClass(ix, entityId, t))
    && (forall e, t :: e != entityId ==> CM.GetByClass(ix', e, t) == CM.GetByClass(ix, e, t))
  }

  /** The components of `cs` carry the ids `first`, `first + 1`, ... and belong to `entityId`. */
  predicate Numbered(h: EM.Heap, cs: seq<Ref>, first: int, entityId: int)
  {
    forall i :: 0 <= i < |cs| ==>
      && cs[i] in h.components
      && h.components[cs[i]].id == Some(first + i)
      && h.components[cs[i]].entityId == Some(entityId)
  }

  lemma NumberedStep(mid: EM.World, ord: EM.HashOrders, entityId: int, init: seq<Ref>, first: int, c: Ref)
    requires mid.manager.Initialized? && c in mid.heap.components && c !in init
    requires EM.NotIndexed(mid.manager.reg.componentMap, c) && EM.SystemsCovered(ord, mid.manager.reg)
    requires Numbered(mid.heap, init, first, entityId)
    requires mid.manager.reg.nextComponentId == first + |init|
    ensures Numbered(EM.RegisterComponent(mid, ord, entityId, c).value.world.heap, init + [c], first, entityId)
  {
    var h' := EM.RegisterComponent(mid, ord, entityId, c).value.world.heap;
    var cs := init + [c];
    forall i | 0 <= i < |cs|
      ensures cs[i] in h'.components && h'.components[cs[i]].id == Some(first + i)
      ensures h'.components[cs[i]].entityId == Some(entityId)
    {
      if i < |init| {
        assert cs[i] == init[i] && init[i] != c;
      }
    }
  }

  lemma BookkeptStep(w: EM.World, mid: EM.World, ord: EM.HashOrders, entityId: int, n: nat, c: Ref)
    requires Bookkept(w, mid, n)
    requires c in mid.heap.components
    requires EM.NotIndexed(mid.manager.reg.componentMap, c) && EM.SystemsCovered(ord, mid.manager.reg)
    ensures Bookkept(w, EM.RegisterComponent(mid, ord, entityId, c).value.world, n + 1)
  {
  }

  lemma OnlyAddsStep(ix: CM.Index, mid: CM.Index, snap: CM.Component, init: seq<Ref>)
    requires OnlyAdds(ix, mid, init)
    ensures OnlyAdds(ix, CM.Put(mid, snap).index, init + [snap.ref])
  {
    var ix' := CM.Put(mid, snap).index;
    forall k | k in ix'.byId
      ensures (k in ix.byId && ix'.byId[k] == ix.byId[k]) || ix'.byId[k].ref in init + [snap.ref]
    {
      if k != snap.id {
        assert k in mid.byId && ix'.byId[k] == mid.byId[k];
      }
    }
  }

  lemma FillsSlotsStep(h: EM.Heap, ix: CM.Index, mid: CM.Index, entityId: int, init: seq<Ref>, snap: CM.Component)
    requires Known(h, init) && snap.ref in h.components
    requires snap.entityId == entityId && snap.tag == h.components[snap.ref].tag
    requires FillsSlots(h, ix, mid, entityId, init)
    ensures Known(h, init + [snap.ref])
    ensures FillsSlots(h, ix, CM.Put(mid, snap).index, entityId, init + [snap.ref])
  {
    var cs := init + [snap.ref];
    assert cs[..|cs| - 1] == init;
  }

  /** A component outside `ix` and `init` is outside anything `init` was added to. */
  lemma NotIndexedStep(ix: CM.Index, mid: CM.Index, init: seq<Ref>, c: Ref)
    requires OnlyAdds(ix, mid, init)
    requires EM.NotIndexed(ix, c) && c !in init
    ensures EM.NotIndexed(mid, c)
  {
  }

  /**
   * The loop of `createEntity` that registers the held components, in set order,
   * against one entity id.
   */
  function RegisterAll(w: EM.World, ord: EM.HashOrders, entityId: int, cs: seq<Ref>): (r: EM.Step)
    requires w.manager.Initialized? && EM.SystemsCovered(ord, w.manager.reg)
    requires Known(w.heap, cs) && HashOrder.NoDup(cs)
    requires forall i :: 0 <= i < |cs| ==> EM.NotIndexed(w.manager.reg.componentMap, cs[i])
    ensures Bookkept(w, r.world, |cs|)
    ensures OnlyAdds(w.manager.reg.componentMap, r.world.manager.reg.componentMap, cs)
    ensures FillsSlots(w.heap, w.manager.reg.componentMap, r.world.manager.reg.componentMap, entityId, cs)
    ensures Numbered(r.world.heap, cs, w.manager.reg.nextComponentId, entityId)
    decreases |cs|
  {
    if cs == [] then EM.Step(w, [])
    else
      var init := cs[..|cs| - 1];
      var c := cs[|cs| - 1];
      assert forall i :: 0 <= i < |init| ==> init[i] == cs[i];
      assert cs == init + [c];
      var prev := RegisterAll(w, ord, entityId, init);
      var mid := prev.world;
      assert c !in init;
      NotIndexedStep(w.manager.reg.componentMap, mid.manager.reg.componentMap, init, c);
      var last := EM.RegisterComponent(mid, ord, entityId, c).value;
      var snap := CM.Component(c, mid.manager.reg.nextComponentId, entityId, mid.heap.components[c].tag);
      BookkeptStep(w, mid, ord, entityId, |init|, c);
      NumberedStep(mid, ord, entityId, init, w.manager.reg.nextComponentId, c);
      OnlyAddsStep(w.manager.reg.componentMap, mid.manager.reg.componentMap, snap, init);
      FillsSlotsStep(w.heap, w.manager.reg.componentMap, mid.manager.reg.componentMap, entityId, init, snap);
      EM.Step(last.world, prev.trace + last.trace)
  }

  /**
   * What a successful `createEntity` from world `w` answered with `step`: the
   * blank entity took the next entity id, its components the next component ids
   * in their order, each class slot of the new id holds the last held component
   * of that class, and the trace created the entity before its components.
   */
  ghost predicate Creates(a: Assemblage, w: EM.World, blank: Ref, step: EM.Step)
    requires w.manager.Initialized? && Known(w.heap, a.components)
  {
    var reg := w.manager.reg;
    var id := reg.nextEntityId;
    var w' := step.world;
    && w'.manager.Initialized?
    && w'.manager.reg.entityMap == reg.entityMap[id := blank]
    && w'.manager.reg.nextEntityId == id + 1
    && w'.manager.reg.nextComponentId == reg.nextComponentId + |a.components|
    && blank in w'.heap.entities && w'.heap.entities[blank].id == Some(id)
    && Numbered(w'.heap, a.components, reg.nextComponentId, id)
    && |step.trace| > 0 && step.trace[0] == Create(Ent(blank))
    && Project(CreatedEntities, step.trace) == [blank]
    && Project(CreatedComponents, step.trace) == a.components
    && forall t :: LastOfClass(w.heap, a.components, t).Some? ==>
         CM.GetByClass(w'.manager.reg.componentMap, id, t).Some?
         && CM.GetByClass(w'.manager.reg.componentMap, id, t).value.ref == LastOfClass(w.heap, a.components, t).value
  }

  /**
   * `createEntity(manager)`: a blank entity is registered, then every held
   * component is registered against its id, in set order; the entity is returned.
   */
  function CreateEntity(a: Assemblage, w: EM.World, ord: EM.HashOrders, blank: Ref): (r: Result<(EM.Step, Ref), EM.Error>)
    requires blank !in w.heap.entities
    requires Known(w.heap, a.components) && HashOrder.NoDup(a.components)
    requires w.manager.Initialized? ==>
      && EM.SystemsCovered(ord, w.manager.reg)
      && blank !in HashOrder.Range(w.manager.reg.entityMap)
      && forall i :: 0 <= i < |a.components| ==> EM.NotIndexed(w.manager.reg.componentMap, a.components[i])
    ensures r.Failure? <==> w.manager.Uninitialized?
    ensures r.Failure? ==> r.error == EM.IllegalState
    ensures r.Success? ==> r.value.1 == blank && Creates(a, w, blank, r.value.0)
  {
    var w0 := EM.World(w.manager, w.heap.(entities := w.heap.entities[blank := NewEntity()]));
    match EM.RegisterEntity(w0, blank)
    case Failure(e) => Failure(e)
    case Success(made) =>
      var filled := Assembled(a, w, ord, blank, made);
      Success((EM.Step(filled.world, made.trace + filled.trace), blank))
  }

  /**
   * The components registered against the allocated entity, in order; together
   * with the entity's registration they make what `createEntity` promises.
   */
  function Assembled(a: Assemblage, w: EM.World, ord: EM.HashOrders, blank: Ref, made: EM.Step): (filled: EM.Step)
    requires blank !in w.heap.entities
    requires Known(w.heap, a.components) && HashOrder.NoDup(a.components)
    requires w.manager.Initialized? && EM.SystemsCovered(ord, w.manager.reg)
    requires blank !in HashOrder.Range(w.manager.reg.entityMap)
    requires forall i :: 0 <= i < |a.components| ==> EM.NotIndexed(w.manager.reg.componentMap, a.components[i])
    requires EM.RegisterEntity(EM.World(w.manager, w.heap.(entities := w.heap.entities[blank := NewEntity()])), blank)
      == Success(made)
    ensures Creates(a, w, blank, EM.Step(filled.world, made.trace + filled.trace))
  {
    Allocated(a, w, ord, blank, made);
    var id := w.manager.reg.nextEntityId;
    var filled := RegisterAll(made.world, ord, id, a.components);
    RegisterAllCreates(made.world, ord, id, a.components);
    EntityThenComponents(blank, filled.trace, a.components);
    filled
  }

  /**
   * Registering the allocated entity leaves the held components known, unindexed
   * and of the classes they had.
   */
  lemma Allocated(a: Assemblage, w: EM.World, ord: EM.HashOrders, blank: Ref, made: EM.Step)
    requires blank !in w.heap.entities
    requires Known(w.heap, a.components)
    requires w.manager.Initialized? && EM.SystemsCovered(ord, w.manager.reg)
    requires blank !in HashOrder.Range(w.manager.reg.entityMap)
    requires forall i :: 0 <= i < |a.components| ==> EM.NotIndexed(w.manager.reg.componentMap, a.components[i])
    requires EM.RegisterEntity(EM.World(w.manager, w.heap.(entities := w.heap.entities[blank := NewEntity()])), blank)
      == Success(made)
    ensures made.world.manager.Initialized? && EM.SystemsCovered(ord, made.world.manager.reg)
    ensures made.world.manager.reg == w.manager.reg.(nextEntityId := w.manager.reg.nextEntityId + 1,
      entityMap := w.manager.reg.entityMap[w.manager.reg.nextEntityId := blank])
    ensures blank in made.world.heap.entities && made.world.heap.entities[blank].id == Some(w.manager.reg.nextEntityId)
    ensures made.trace == [Create(Ent(blank))]
    ensures Known(made.world.heap, a.components)
    ensures forall t :: LastOfClass(made.world.heap, a.components, t) == LastOfClass(w.heap, a.components, t)
  {
    forall t ensures LastOfClass(made.world.heap, a.components, t) == LastOfClass(w.heap, a.components, t) {
      SameTagsSameLast(w.heap, made.world.heap, a.components, t);
    }
  }

  /** The world `createEntity` answers: the allocated entity registered, then its components. */
  lemma CreateEntityWorld(a: Assemblage, w: EM.World, ord: EM.HashOrders, blank: Ref, made: EM.Step)
    requires blank !in w.heap.entities
    requires Known(w.heap, a.components) && HashOrder.NoDup(a.components)
    requires w.manager.Initialized? && EM.SystemsCovered(ord, w.manager.reg)
    requires blank !in HashOrder.Range(w.manager.reg.entityMap)
    requires forall i :: 0 <= i < |a.components| ==> EM.NotIndexed(w.manager.reg.componentMap, a.components[i])
    requires EM.RegisterEntity(EM.World(w.manager, w.heap.(entities := w.heap.entities[blank := NewEntity()])), blank)
      == Success(made)
    ensures made.world.manager.Initialized? && EM.SystemsCovered(ord, made.world.manager.reg)
    ensures Known(made.world.heap, a.components)
    ensures forall i :: 0 <= i < |a.components| ==> EM.NotIndexed(made.world.manager.reg.componentMap, a.components[i])
    ensures CreateEntity(a, w, ord, blank).Success?
    ensures CreateEntity(a, w, ord, blank).value.0.world
         == RegisterAll(made.world, ord, w.manager.reg.nextEntityId, a.components).world
  {
    Allocated(a, w, ord, blank, made);
    var filled := Assembled(a, w, ord, blank, made);
    assert CreateEntity(a, w, ord, blank) == Success((EM.Step(filled.world, made.trace + filled.trace), blank));
  }

  /** The last of a class depends only on the classes of the components. */
  lemma {:induction false} SameTagsSameLast(h: EM.Heap, h': EM.Heap, cs: seq<Ref>, t: Tag)
    requires Known(h, cs) && Known(h', cs)
    requires forall i :: 0 <= i < |cs| ==> h.components[cs[i]].tag == h'.components[cs[i]].tag
    ensures LastOfClass(h, cs, t) == LastOfClass(h', cs, t)
    decreases |cs|
  {
    if cs != [] && h.components[cs[|cs| - 1]].tag != t {
      SameTagsSameLast(h, h', cs[..|cs| - 1], t);
    }
  }

  /**
   * `EntityManager.registerEntity(assemblage)`: delegates to `createEntity`. The
   * entity it answers is stored under its id and has a component of every class
   * the assemblage holds.
   */
  function RegisterAssemblage(w: EM.World, ord: EM.HashOrders, a: Assemblage, blank: Ref): (r: Result<(EM.Step, Ref), EM.Error>)
    requires blank !in w.heap.entities
    requires Known(w.heap, a.components) && HashOrder.NoDup(a.components)
    requires w.manager.Initialized? ==>
      && EM.SystemsCovered(ord, w.manager.reg)
      && blank !in HashOrder.Range(w.manager.reg.entityMap)
      && forall i :: 0 <= i < |a.components| ==> EM.NotIndexed(w.manager.reg.componentMap, a.components[i])
    ensures r.Failure? <==> w.manager.Uninitialized?
    ensures r.Success? ==>
      var w' := r.value.0.world;
      var id := w.manager.reg.nextEntityId;
      && w'.manager.Initialized?
      && id in w'.manager.reg.entityMap && w'.manager.reg.entityMap[id] == r.value.1
      && r.value.1 in w'.heap.entities && w'.heap.entities[r.value.1].id == Some(id)
      && forall i :: 0 <= i < |a.components| ==>
           CM.HasComponent(w'.manager.reg.componentMap, id, w.heap.components[a.components[i]].tag)
  {
    var r := CreateEntity(a, w, ord, blank);
    assert r.Success? ==> forall i :: 0 <= i < |a.components| ==>
      LastOfClass(w.heap, a.components, w.heap.components[a.components[i]].tag).Some?;
    r
  }

  /** The hooks of one registration create that component and no entity. */
  lemma AnnouncementCreates(systems: seq<Ref>, c: Ref)
    ensures Project(CreatedComponents, [Create(Comp(c))] + EM.AddedToAll(systems, c)) == [c]
    ensures Project(CreatedEntities, [Create(Comp(c))] + EM.AddedToAll(systems, c)) == []
  {
    var added := EM.AddedToAll(systems, c);
    ProjectConcat(CreatedComponents, [Create(Comp(c))], added);
    ProjectConcat(CreatedEntities, [Create(Comp(c))], added);
    ProjectSingle(CreatedComponents, Create(Comp(c)));
    ProjectSingle(CreatedEntities, Create(Comp(c)));
    assert Silent(CreatedComponents, added) && Silent(CreatedEntities, added);
    SilentProject(CreatedComponents, added);
    SilentProject(CreatedEntities, added);
  }

  lemma AppendCreates(a: seq<Event>, b: seq<Event>, init: seq<Ref>, c: Ref)
    requires Project(CreatedComponents, a) == init && Project(CreatedEntities, a) == []
    requires Project(CreatedComponents, b) == [c] && Project(CreatedEntities, b) == []
    ensures Project(CreatedComponents, a + b) == init + [c]
    ensures Project(CreatedEntities, a + b) == []
  {
    ProjectConcat(CreatedComponents, a, b);
    ProjectConcat(CreatedEntities, a, b);
  }

  /** Registering `cs` creates exactly those components, in order, and no entity. */
  lemma {:induction false} RegisterAllCreates(w: EM.World, ord: EM.HashOrders, entityId: int, cs: seq<Ref>)
    requires w.manager.Initialized? && EM.SystemsCovered(ord, w.manager.reg)
    requires Known(w.heap, cs) && HashOrder.NoDup(cs)
    requires forall i :: 0 <= i < |cs| ==> EM.NotIndexed(w.manager.reg.componentMap, cs[i])
    ensures Project(CreatedComponents, RegisterAll(w, ord, entityId, cs).trace) == cs
    ensures Project(CreatedEntities, RegisterAll(w, ord, entityId, cs).trace) == []
    decreases |cs|
  {
    if cs != [] {
      var init := cs[..|cs| - 1];
      var c := cs[|cs| - 1];
      assert forall i :: 0 <= i < |init| ==> init[i] == cs[i];
      assert cs == init + [c];
      var prev := RegisterAll(w, ord, entityId, init);
      var mid := prev.world;
      NotIndexedStep(w.manager.reg.componentMap, mid.manager.reg.componentMap, init, c);
      var systems := EM.Systems(mid.manager.reg, ord);
      var last := EM.RegisterComponent(mid, ord, entityId, c).value;
      assert last.trace == [Create(Comp(c))] + EM.AddedToAll(systems, c);
      assert RegisterAll(w, ord, entityId, cs).trace == prev.trace + last.trace;
      RegisterAllCreates(w, ord, entityId, init);
      AnnouncementCreates(systems, c);
      AppendCreates(prev.trace, last.trace, init, c);
    }
  }

  lemma EntityThenComponents(e: Ref, tr: seq<Event>, cs: seq<Ref>)
    requires Project(CreatedComponents, tr) == cs && Project(CreatedEntities, tr) == []
    ensures Project(CreatedEntities, [Create(Ent(e))] + tr) == [e]
    ensures Project(CreatedComponents, [Create(Ent(e))] + tr) == cs
  {
    ProjectConcat(CreatedEntities, [Create(Ent(e))], tr);
    ProjectConcat(CreatedComponents, [Create(Ent(e))], tr);
    ProjectSingle(CreatedEntities, Create(Ent(e)));
    ProjectSingle(CreatedComponents, Create(Ent(e)));
  }
}
