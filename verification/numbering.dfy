/**
 * Id assignment: each registration takes the current value of its namespace's
 * counter and then increments it, so after `init` the ids run 1, 2, 3, ... and
 * an entity registered again never gets its earlier id back. The counters are
 * unbounded here; the Java `AtomicInteger` wraps after 2^31 - 1 registrations.
 */
module Numbering {
  import opened Wrappers
  import opened Lifecycle
  import HashOrder
  import CM = ComponentMap
  import opened EntityManager
  import opened EntityManagerProofs
  import Assemblage

  /** Every entity of `es` is known to the heap and none is stored by the manager. */
  predicate Unregistered(w: World, es: seq<Ref>)
  {
    && w.manager.Initialized?
    && forall i :: 0 <= i < |es| ==>
         es[i] in w.heap.entities && es[i] !in HashOrder.Range(w.manager.reg.entityMap)
  }

  /** The keys `lo`, ..., `lo + n - 1`. */
  function Span(lo: int, n: nat): (r: set<int>)
    ensures forall k :: k in r <==> lo <= k < lo + n
  {
    if n == 0 then {} else Span(lo, n - 1) + {lo + n - 1}
  }

  /** The registry side: `es[i]` stored under `next + i`; other keys untouched. */
  ghost predicate StoredInTurn(reg: Registry, reg': Registry, es: seq<Ref>)
  {
    && reg'.nextEntityId == reg.nextEntityId + |es|
    && reg'.entityMap.Keys == reg.entityMap.Keys + Span(reg.nextEntityId, |es|)
    && (forall k :: k in reg.entityMap && k !in Span(reg.nextEntityId, |es|) ==> reg'.entityMap[k] == reg.entityMap[k])
    && (forall i :: 0 <= i < |es| ==> reg'.entityMap[reg.nextEntityId + i] == es[i])
    && reg'.componentMap == reg.componentMap && reg'.systemMap == reg.systemMap
  }

  /** The heap side: `es[i]` created with the id `first + i`. */
  ghost predicate CreatedInTurn(h: Heap, h': Heap, es: seq<Ref>, first: int)
  {
    && h'.entities.Keys == h.entities.Keys
    && (forall i :: 0 <= i < |es| ==> es[i] in h'.entities && h'.entities[es[i]].id == Some(first + i))
    && h'.components == h.components && h'.systems == h.systems
  }

  /**
   * What registering `es` in turn leaves behind: `es[i]` is stored under, and
   * created with, the id `next + i`, where `next` is the counter before the first
   * call; the entry of any other key is untouched.
   */
  ghost predicate EntitiesNumbered(w: World, w': World, es: seq<Ref>)
  {
    && w.manager.Initialized? && w'.manager.Initialized?
    && StoredInTurn(w.manager.reg, w'.manager.reg, es)
    && CreatedInTurn(w.heap, w'.heap, es, w.manager.reg.nextEntityId)
  }

  /** An entity outside `w` and outside `init` is outside what registering `init` stored. */
  lemma StillUnregistered(w: World, mid: World, init: seq<Ref>, e: Ref)
    requires EntitiesNumbered(w, mid, init)
    requires e !in HashOrder.Range(w.manager.reg.entityMap) && e !in init
    ensures e !in HashOrder.Range(mid.manager.reg.entityMap)
  {
    var reg := w.manager.reg;
    var m := mid.manager.reg.entityMap;
    forall k | k in m ensures m[k] != e {
      if reg.nextEntityId <= k < reg.nextEntityId + |init| {
        var i := k - reg.nextEntityId;
        assert m[reg.nextEntityId + i] == init[i];
      } else {
        assert reg.entityMap[k] in HashOrder.Range(reg.entityMap);
      }
    }
  }

  lemma StoredStep(reg: Registry, mid: Registry, init: seq<Ref>, e: Ref)
    requires StoredInTurn(reg, mid, init)
    ensures StoredInTurn(reg, mid.(nextEntityId := mid.nextEntityId + 1, entityMap := mid.entityMap[mid.nextEntityId := e]), init + [e])
  {
    var es := init + [e];
    var reg' := mid.(nextEntityId := mid.nextEntityId + 1, entityMap := mid.entityMap[mid.nextEntityId := e]);
    assert Span(reg.nextEntityId, |es|) == Span(reg.nextEntityId, |init|) + {reg.nextEntityId + |init|};
    forall i | 0 <= i < |es| ensures reg'.entityMap[reg.nextEntityId + i] == es[i] {
      if i < |init| {
        assert es[i] == init[i];
      }
    }
  }

  lemma CreatedStep(h: Heap, mid: Heap, h': Heap, init: seq<Ref>, e: Ref, first: int)
    requires CreatedInTurn(h, mid, init, first) && e !in init
    requires h'.entities.Keys == mid.entities.Keys
    requires e in h'.entities && h'.entities[e].id == Some(first + |init|)
    requires forall x :: x in mid.entities && x != e ==> h'.entities[x] == mid.entities[x]
    requires h'.components == mid.components && h'.systems == mid.systems
    ensures CreatedInTurn(h, h', init + [e], first)
  {
    var es := init + [e];
    forall i | 0 <= i < |es|
      ensures es[i] in h'.entities && h'.entities[es[i]].id == Some(first + i)
    {
      if i < |init| {
        assert es[i] == init[i] && init[i] != e;
      }
    }
  }

  lemma EntitiesNumberedStep(w: World, mid: World, init: seq<Ref>, e: Ref)
    requires EntitiesNumbered(w, mid, init)
    requires e in mid.heap.entities && e !in init
    requires e !in HashOrder.Range(mid.manager.reg.entityMap)
    ensures EntitiesNumbered(w, RegisterEntity(mid, e).value.world, init + [e])
  {
    var w' := RegisterEntity(mid, e).value.world;
    StoredStep(w.manager.reg, mid.manager.reg, init, e);
    CreatedStep(w.heap, mid.heap, w'.heap, init, e, w.manager.reg.nextEntityId);
  }

  /** `registerEntity` on each of `es` in turn, against one manager. */
  function RegisterEntities(w: World, es: seq<Ref>): (r: Step)
    requires Unregistered(w, es) && HashOrder.NoDup(es)
    ensures EntitiesNumbered(w, r.world, es)
    decreases |es|
  {
    if es == [] then Step(w, [])
    else
      var init := es[..|es| - 1];
      var e := es[|es| - 1];
      assert forall i :: 0 <= i < |init| ==> init[i] == es[i];
      assert es == init + [e];
      var prev := RegisterEntities(w, init);
      assert e !in init;
      StillUnregistered(w, prev.world, init, e);
      var last := RegisterEntity(prev.world, e).value;
      EntitiesNumberedStep(w, prev.world, init, e);
      Step(last.world, prev.trace + last.trace)
  }

  /** After `init`, the entities registered in turn get the ids 1, 2, 3, ... */
  lemma EntityIdsRunFromOne(w: World, es: seq<Ref>)
    requires w.manager.Uninitialized?
    requires forall i :: 0 <= i < |es| ==> es[i] in w.heap.entities
    requires HashOrder.NoDup(es)
    ensures Unregistered(Init(w), es)
    ensures var r := RegisterEntities(Init(w), es).world;
      && r.manager.reg.entityMap.Keys == Span(1, |es|)
      && (forall i :: 0 <= i < |es| ==> r.manager.reg.entityMap[i + 1] == es[i])
      && (forall i :: 0 <= i < |es| ==> r.heap.entities[es[i]].id == Some(i + 1))
      && r.manager.reg.nextEntityId == |es| + 1
  {
    var w0 := Init(w);
    InitStoresNothing(w, es);
    NumberedFromOne(w0, RegisterEntities(w0, es).world, es);
  }

  /** Right after `init`, no entity is stored. */
  lemma InitStoresNothing(w: World, es: seq<Ref>)
    requires w.manager.Uninitialized?
    requires forall i :: 0 <= i < |es| ==> es[i] in w.heap.entities
    ensures Unregistered(Init(w), es)
    ensures Init(w).manager.reg.entityMap == map[] && Init(w).manager.reg.nextEntityId == 1
  {
    assert HashOrder.Range(Init(w).manager.reg.entityMap) == {};
  }

  lemma NumberedFromOne(w0: World, r: World, es: seq<Ref>)
    requires EntitiesNumbered(w0, r, es)
    requires w0.manager.reg.entityMap == map[] && w0.manager.reg.nextEntityId == 1
    ensures r.manager.reg.entityMap.Keys == Span(1, |es|)
    ensures forall i :: 0 <= i < |es| ==> r.manager.reg.entityMap[i + 1] == es[i]
    ensures forall i :: 0 <= i < |es| ==> r.heap.entities[es[i]].id == Some(i + 1)
    ensures r.manager.reg.nextEntityId == |es| + 1
  {
    assert r.manager.reg.entityMap.Keys == {} + Span(1, |es|);
  }

  /**
   * After `init`, the components an assemblage registers get the ids 1, 2, 3, ...
   * in set order.
   */
  lemma ComponentIdsRunFromOne(w: World, ord: HashOrders, entityId: int, cs: seq<Ref>)
    requires w.manager.Uninitialized? && HashOrder.NoDup(ord.systems)
    requires Assemblage.Known(w.heap, cs) && HashOrder.NoDup(cs)
    ensures var w0 := Init(w);
      && SystemsCovered(ord, w0.manager.reg)
      && (forall i :: 0 <= i < |cs| ==> NotIndexed(w0.manager.reg.componentMap, cs[i]))
      && var r := Assemblage.RegisterAll(w0, ord, entityId, cs).world;
         && (forall i :: 0 <= i < |cs| ==> r.heap.components[cs[i]].id == Some(i + 1))
         && r.manager.reg.nextComponentId == |cs| + 1
  {
    var w0 := Init(w);
    assert w0.manager.reg.componentMap == CM.Empty();
  }

  /**
   * An entity unregistered and then registered again is stored under a new id:
   * the counter has moved past every id it ever handed out.
   */
  lemma ReregisteredEntityGetsNewId(w: World, ord: HashOrders, id: int)
    requires Valid(w) && w.manager.Initialized? && SystemsCovered(ord, w.manager.reg)
    requires id in w.manager.reg.entityMap
    ensures var e := w.manager.reg.entityMap[id];
      var u := UnregisterEntity(w, ord, id).value.world;
      && e in u.heap.entities && u.manager.Initialized?
      && e !in HashOrder.Range(u.manager.reg.entityMap)
      && var again := RegisterEntity(u, e).value.world;
         && again.heap.entities[e].id == Some(w.manager.reg.nextEntityId)
         && again.manager.reg.entityMap[w.manager.reg.nextEntityId] == e
         && w.manager.reg.nextEntityId > id
  {
    var reg := w.manager.reg;
    var e := reg.entityMap[id];
    var u := UnregisterEntity(w, ord, id).value.world;
  }
}
