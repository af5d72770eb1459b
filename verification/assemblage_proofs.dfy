/**
 * The manager invariant survives creating an entity from an assemblage.
 */
module AssemblageProofs {
  import opened Wrappers
  import opened Lifecycle
  import HashOrder
  import opened EntityManager
  import opened EntityManagerProofs
  import opened Assemblage

  /** Registering the components of an assemblage one by one keeps the world valid. */
  lemma {:induction false} RegisterAllValid(w: World, ord: HashOrders, entityId: int, cs: seq<Ref>)
    requires Valid(w)
    requires w.manager.Initialized? && SystemsCovered(ord, w.manager.reg)
    requires Known(w.heap, cs) && HashOrder.NoDup(cs)
    requires forall i :: 0 <= i < |cs| ==> NotIndexed(w.manager.reg.componentMap, cs[i])
    ensures Valid(RegisterAll(w, ord, entityId, cs).world)
    decreases |cs|
  {
    if cs != [] {
      var init := cs[..|cs| - 1];
      var c := cs[|cs| - 1];
      assert forall i :: 0 <= i < |init| ==> init[i] == cs[i];
      assert cs == init + [c];
      var mid := RegisterAll(w, ord, entityId, init).world;
      RegisterAllValid(w, ord, entityId, init);
      NotIndexedStep(w.manager.reg.componentMap, mid.manager.reg.componentMap, init, c);
      RegisterComponentValid(mid, ord, entityId, c);
    }
  }

  /** A blank entity outside the entity map can join the heap of a valid world. */
  lemma AllocateEntityValid(w: World, blank: Ref)
    requires Valid(w) && blank !in w.heap.entities
    ensures Valid(World(w.manager, w.heap.(entities := w.heap.entities[blank := NewEntity()])))
  {
  }

  /** `registerEntity(assemblage)` keeps the world valid. */
  lemma CreateEntityValid(a: Assemblage, w: World, ord: HashOrders, blank: Ref)
    requires Valid(w)
    requires blank !in w.heap.entities
    requires Known(w.heap, a.components) && HashOrder.NoDup(a.components)
    requires w.manager.Initialized? ==>
      && SystemsCovered(ord, w.manager.reg)
      && blank !in HashOrder.Range(w.manager.reg.entityMap)
      && forall i :: 0 <= i < |a.components| ==> NotIndexed(w.manager.reg.componentMap, a.components[i])
    ensures var r := CreateEntity(a, w, ord, blank); r.Success? ==> Valid(r.value.0.world)
  {
    if w.manager.Initialized? {
      var w0 := World(w.manager, w.heap.(entities := w.heap.entities[blank := NewEntity()]));
      AllocateEntityValid(w, blank);
      RegisterEntityValid(w0, blank);
      var made := RegisterEntity(w0, blank).value;
      CreateEntityWorld(a, w, ord, blank, made);
      RegisterAllValid(made.world, ord, w.manager.reg.nextEntityId, a.components);
    }
  }
}
