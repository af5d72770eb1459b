/**
 * Properties of the `EntityManager` model: the invariant every operation keeps,
 * and what the hook traces of teardown, update and registration promise.
 */
module EntityManagerProofs {
  import opened Wrappers
  import opened Lifecycle
  import opened Trace
  import HashOrder
  import CM = ComponentMap
  import opened EntityManager

  // ----------------------------------------------------------------- invariant

  /** Each stored entity carries its key as its id and is managed, and keys come from the counter. */
  ghost predicate EntitiesAgree(reg: Registry, h: Heap)
  {
    forall k :: k in reg.entityMap ==>
      && 1 <= k < reg.nextEntityId
      && reg.entityMap[k] in h.entities
      && h.entities[reg.entityMap[k]].id == Some(k)
      && h.entities[reg.entityMap[k]].managed
  }

  /** Each stored system carries its key as its id and is managed, and keys come from the counter. */
  ghost predicate SystemsAgree(reg: Registry, h: Heap)
  {
    forall k :: k in reg.systemMap ==>
      && 1 <= k < reg.nextSystemId
      && reg.systemMap[k] in h.systems
      && h.systems[reg.systemMap[k]].id == Some(k)
      && h.systems[reg.systemMap[k]].managed
  }

  /** The index is consistent, and each indexed object carries its key as its id and is managed. */
  ghost predicate ComponentsAgree(reg: Registry, h: Heap)
  {
    && CM.Consistent(reg.componentMap)
    && forall k :: k in reg.componentMap.byId ==>
      && 1 <= k < reg.nextComponentId
      && reg.componentMap.byId[k].ref in h.components
      && h.components[reg.componentMap.byId[k].ref].id == Some(k)
      && h.components[reg.componentMap.byId[k].ref].managed
  }

  /** The invariant of every world reachable from an uninitialized one. */
  ghost predicate Valid(w: World)
  {
    w.manager.Initialized? ==>
      var reg := w.manager.reg;
      && reg.nextEntityId >= 1 && reg.nextComponentId >= 1 && reg.nextSystemId >= 1
      && EntitiesAgree(reg, w.heap)
      && ComponentsAgree(reg, w.heap)
      && SystemsAgree(reg, w.heap)
  }

  /** In a valid world no object is indexed under two ids. */
  lemma ValidRefInjective(w: World)
    requires Valid(w) && w.manager.Initialized?
    ensures RefInjective(w.manager.reg.componentMap.byId)
  {
  }

  lemma InitValid(w: World)
    requires Valid(w)
    ensures Valid(Init(w))
  {
    if w.manager.Uninitialized? {
      CM.EmptyConsistent();
    }
  }

  lemma RegisterEntityValid(w: World, e: Ref)
    requires Valid(w) && e in w.heap.entities
    requires w.manager.Initialized? ==> e !in HashOrder.Range(w.manager.reg.entityMap)
    ensures var r := RegisterEntity(w, e); r.Success? ==> Valid(r.value.world)
  {
    if w.manager.Initialized? {
      var reg := w.manager.reg;
      var w' := RegisterEntity(w, e).value.world;
      forall k | k in reg.entityMap
        ensures reg.entityMap[k] != e
      {
        assert reg.entityMap[k] in HashOrder.Range(reg.entityMap);
      }
    }
  }

  lemma RegisterComponentValid(w: World, ord: HashOrders, entityId: int, c: Ref)
    requires Valid(w) && c in w.heap.components
    requires w.manager.Initialized? ==> NotIndexed(w.manager.reg.componentMap, c) && SystemsCovered(ord, w.manager.reg)
    ensures var r := RegisterComponent(w, ord, entityId, c); r.Success? ==> Valid(r.value.world)
  {
    if w.manager.Initialized? {
      var reg := w.manager.reg;
      var snap := CM.Component(c, reg.nextComponentId, entityId, w.heap.components[c].tag);
      CM.PutPreservesConsistency(reg.componentMap, snap);
    }
  }

  lemma UnregisterComponentValid(w: World, ord: HashOrders, id: int)
    requires Valid(w)
    requires w.manager.Initialized? ==> SystemsCovered(ord, w.manager.reg)
    ensures w.manager.Initialized? ==> CM.CanRemoveById(w.manager.reg.componentMap, id)
    ensures var r := UnregisterComponent(w, ord, id); r.Success? ==> Valid(r.value.world)
  {
    if w.manager.Initialized? {
      var reg := w.manager.reg;
      CM.RemoveByIdPreservesConsistency(reg.componentMap, id);
      if id in reg.componentMap.byId {
        var x := reg.componentMap.byId[id];
        var w' := UnregisterComponent(w, ord, id).value.world;
        forall k | k in w'.manager.reg.componentMap.byId
          ensures reg.componentMap.byId[k].ref != x.ref
        {
          assert w.heap.components[x.ref].id == Some(id);
        }
      }
    }
  }

  lemma RegisterSystemValid(w: World, ord: HashOrders, s: Ref)
    requires Valid(w) && s in w.heap.systems
    requires w.manager.Initialized? ==> s !in HashOrder.Range(w.manager.reg.systemMap)
    ensures var r := RegisterSystem(w, ord, s); r.Success? ==> Valid(r.value.world)
  {
    if w.manager.Initialized? {
      var reg := w.manager.reg;
      forall k | k in reg.systemMap
        ensures reg.systemMap[k] != s
      {
        assert reg.systemMap[k] in HashOrder.Range(reg.systemMap);
      }
    }
  }

  lemma UnregisterSystemValid(w: World, id: int)
    requires Valid(w)
    ensures var r := UnregisterSystem(w, id); r.Success? ==> Valid(r.value.world)
  {
    if w.manager.Initialized? && id in w.manager.reg.systemMap {
      var reg := w.manager.reg;
      var s := reg.systemMap[id];
      forall k | k in reg.systemMap && k != id
        ensures reg.systemMap[k] != s
      {
        assert w.heap.systems[s].id == Some(id);
      }
    }
  }

  /**
   * Releasing an entity keeps the index consistent and its objects agreeing: the
   * objects it disposes are exactly ones whose entries left the index.
   */
  lemma ReleaseEntityAgrees(reg: Registry, h: Heap, ord: HashOrders, systems: seq<Ref>, e: Ref)
    requires ComponentsAgree(reg, h)
    ensures var t := ReleaseEntity(reg.componentMap, h, ord, systems, e);
      ComponentsAgree(reg.(componentMap := t.index), t.heap)
  {
    var ix := reg.componentMap;
    var removal := DetachComponents(ix, h, e);
    var comps := RefsOf(removal.removed, ord.components);
    var t := ReleaseEntity(ix, h, ord, systems, e);
    if EntityIdOf(h, e).Some? {
      CM.RemoveByEntityIdExact(ix, EntityIdOf(h, e).value);
    }
    forall k | k in t.index.byId
      ensures ix.byId[k].ref !in comps
    {
      forall x | x in comps ensures x != ix.byId[k].ref {
        assert x in RefSet(removal.removed);
        var k' :| k' in removal.removed && removal.removed[k'].ref == x;
        assert h.components[ix.byId[k'].ref].id == Some(k');
      }
    }
  }

  lemma UnregisterEntityValid(w: World, ord: HashOrders, id: int)
    requires Valid(w)
    requires w.manager.Initialized? ==> SystemsCovered(ord, w.manager.reg)
    ensures var r := UnregisterEntity(w, ord, id); r.Success? ==> Valid(r.value.world)
  {
    if w.manager.Initialized? && id in w.manager.reg.entityMap {
      var reg := w.manager.reg;
      var e := reg.entityMap[id];
      ReleaseEntityAgrees(reg, w.heap, ord, Systems(reg, ord), e);
      forall k | k in reg.entityMap && k != id
        ensures reg.entityMap[k] != e
      {
        assert w.heap.entities[e].id == Some(id);
      }
    }
  }

  // ------------------------------------------------------------ trace views

  /**
   * The views in which a released component shows up exactly once: its disposal,
   * and the removal notice of a system that occurs once among those told.
   */
  predicate ReleaseView(v: View, systems: seq<Ref>)
  {
    v == DisposedComponents || (v.RemovedFrom? && v.sys in systems && HashOrder.NoDup(systems))
  }

  /** A system that occurs once among those told hears of one removal once. */
  lemma {:induction false} RemovedToAllOnce(systems: seq<Ref>, c: Ref, s: Ref)
    requires HashOrder.NoDup(systems) && s in systems
    ensures Project(RemovedFrom(s), RemovedToAll(systems, c)) == [c]
  {
    var rest := RemovedToAll(systems[1..], c);
    assert RemovedToAll(systems, c) == [Removed(systems[0], c)] + rest;
    ProjectConcat(RemovedFrom(s), [Removed(systems[0], c)], rest);
    ProjectSingle(RemovedFrom(s), Removed(systems[0], c));
    if systems[0] == s {
      assert s !in systems[1..] by {
        forall i | 0 <= i < |systems[1..]| ensures systems[1..][i] != s {
          assert systems[1..][i] == systems[i + 1];
        }
      }
      assert Silent(RemovedFrom(s), rest);
      SilentProject(RemovedFrom(s), rest);
    } else {
      assert s in systems[1..] && HashOrder.NoDup(systems[1..]) by {
        var i :| 0 <= i < |systems| && systems[i] == s;
        assert systems[1..][i - 1] == s;
      }
      RemovedToAllOnce(systems[1..], c, s);
    }
  }

  /** Releasing one component shows it once in a release view. */
  lemma ReleaseComponentView(systems: seq<Ref>, c: Ref, v: View)
    requires ReleaseView(v, systems)
    ensures Project(v, RemovedToAll(systems, c) + [Dispose(Comp(c))]) == [c]
  {
    ProjectConcat(v, RemovedToAll(systems, c), [Dispose(Comp(c))]);
    ProjectSingle(v, Dispose(Comp(c)));
    if v == DisposedComponents {
      assert Silent(v, RemovedToAll(systems, c));
      SilentProject(v, RemovedToAll(systems, c));
    } else {
      RemovedToAllOnce(systems, c, v.sys);
    }
  }

  /** Two traces in a row show, in a view, one object and then what the second shows. */
  lemma ViewChain(v: View, t1: seq<Event>, t2: seq<Event>, x: Ref, xs: seq<Ref>)
    requires Project(v, t1) == [x]
    requires Project(v, t2) == xs
    ensures Project(v, t1 + t2) == [x] + xs
  {
    ProjectConcat(v, t1, t2);
  }

  /** The notices and disposals of releasing `comps` in turn, which do not depend on the heap. */
  function ReleaseTrace(systems: seq<Ref>, comps: seq<Ref>): seq<Event>
  {
    if comps == [] then []
    else (RemovedToAll(systems, comps[0]) + [Dispose(Comp(comps[0]))]) + ReleaseTrace(systems, comps[1..])
  }

  lemma {:induction false} ReleaseComponentsTrace(h: Heap, systems: seq<Ref>, comps: seq<Ref>)
    ensures ReleaseComponents(h, systems, comps).trace == ReleaseTrace(systems, comps)
    decreases |comps|
  {
    if comps != [] {
      var first := ReleaseComponent(h, systems, comps[0]);
      ReleaseComponentsTrace(first.heap, systems, comps[1..]);
    }
  }

  lemma {:induction false} ReleaseTraceView(systems: seq<Ref>, comps: seq<Ref>, v: View)
    requires ReleaseView(v, systems)
    ensures Project(v, ReleaseTrace(systems, comps)) == comps
    decreases |comps|
  {
    if comps == [] {
      assert Project(v, []) == [];
    } else {
      var c := comps[0];
      ReleaseComponentView(systems, c, v);
      ReleaseTraceView(systems, comps[1..], v);
      ViewChain(v, RemovedToAll(systems, c) + [Dispose(Comp(c))], ReleaseTrace(systems, comps[1..]), c, comps[1..]);
      assert comps == [c] + comps[1..];
    }
  }

  /** Releasing components shows each of them once in a release view, in order. */
  lemma ReleaseComponentsView(h: Heap, systems: seq<Ref>, comps: seq<Ref>, v: View)
    requires ReleaseView(v, systems)
    ensures Project(v, ReleaseComponents(h, systems, comps).trace) == comps
  {
    ReleaseComponentsTrace(h, systems, comps);
    ReleaseTraceView(systems, comps, v);
  }

  /** `a` holds some of `m`'s entries, unchanged. */
  ghost predicate SubIndex(a: map<int, CM.Component>, m: map<int, CM.Component>)
  {
    forall k :: k in a ==> k in m && a[k] == m[k]
  }

  /** Part of an index stands for some of the objects behind it. */
  lemma SubIndexRefs(a: map<int, CM.Component>, m: map<int, CM.Component>)
    requires SubIndex(a, m)
    ensures RefSet(a) <= RefSet(m)
  {
    forall x | x in RefSet(a) ensures x in RefSet(m) {
      var k :| k in a && a[k].ref == x;
    }
  }

  /** Splitting an index in two splits the objects behind it. */
  lemma SplitRefs(m: map<int, CM.Component>, kept: map<int, CM.Component>, gone: map<int, CM.Component>)
    requires RefInjective(m)
    requires SubIndex(kept, m) && SubIndex(gone, m)
    requires forall k :: k in m ==> k in kept || k in gone
    requires forall k :: k in gone ==> k !in kept
    ensures forall x :: x in RefSet(gone) <==> x in RefSet(m) && x !in RefSet(kept)
  {
    forall x | x in RefSet(m) && x !in RefSet(kept) ensures x in RefSet(gone) {
      var k :| k in m && m[k].ref == x;
      assert k !in kept;
    }
  }

  /** A release view does not see an entity's disposal. */
  lemma EntityDisposalUnseen(v: View, systems: seq<Ref>, tr: seq<Event>, e: Ref)
    requires ReleaseView(v, systems)
    ensures Project(v, tr + [Dispose(Ent(e))]) == Project(v, tr)
  {
    ProjectConcat(v, tr, [Dispose(Ent(e))]);
    ProjectSingle(v, Dispose(Ent(e)));
  }

  /** Taking an entity's components out of the index splits the objects behind it. */
  lemma DetachSplits(ix: CM.Index, h: Heap, e: Ref)
    requires RefInjective(ix.byId)
    ensures var removal := DetachComponents(ix, h, e);
      && SubIndex(removal.index.byId, ix.byId) && SubIndex(removal.removed, ix.byId)
      && forall x :: x in RefSet(removal.removed) <==> x in RefSet(ix.byId) && x !in RefSet(removal.index.byId)
  {
    var removal := DetachComponents(ix, h, e);
    SplitRefs(ix.byId, removal.index.byId, removal.removed);
  }

  /**
   * Releasing one entity shows, in a release view, each object whose entry left
   * the index once.
   */
  lemma ReleaseEntityView(ix: CM.Index, h: Heap, ord: HashOrders, systems: seq<Ref>, e: Ref, v: View)
    requires ReleaseView(v, systems)
    requires RefInjective(ix.byId) && HashOrder.Covers(ord.components, ix.byId.Keys)
    ensures var t := ReleaseEntity(ix, h, ord, systems, e);
      var p := Project(v, t.trace);
      && SubIndex(t.index.byId, ix.byId)
      && HashOrder.NoDup(p)
      && forall x :: x in p <==> x in RefSet(ix.byId) && x !in RefSet(t.index.byId)
  {
    var removal := DetachComponents(ix, h, e);
    var comps := RefsOf(removal.removed, ord.components);
    var released := ReleaseComponents(h, systems, comps);
    DetachSplits(ix, h, e);
    assert ReleaseEntity(ix, h, ord, systems, e).trace == released.trace + [Dispose(Ent(e))];
    ReleaseComponentsView(h, systems, comps, v);
    EntityDisposalUnseen(v, systems, released.trace, e);
    assert HashOrder.Covers(ord.components, removal.removed.Keys);
  }

  /** Two releases in a row, each showing what left the index at its step, show what left overall. */
  lemma ReleasesChain(p1: seq<Ref>, p2: seq<Ref>, a: set<Ref>, b: set<Ref>, c: set<Ref>)
    requires HashOrder.NoDup(p1) && forall x :: x in p1 <==> x in a && x !in b
    requires HashOrder.NoDup(p2) && forall x :: x in p2 <==> x in b && x !in c
    requires c <= b <= a
    ensures HashOrder.NoDup(p1 + p2) && forall x :: x in p1 + p2 <==> x in a && x !in c
  {
    HashOrder.NoDupConcat(p1, p2);
  }

  /** Releasing entities releases the first, then the others from where it left off. */
  lemma ReleaseEntitiesUnfold(ix: CM.Index, h: Heap, ord: HashOrders, systems: seq<Ref>, ents: seq<Ref>)
    requires ents != []
    ensures var first := ReleaseEntity(ix, h, ord, systems, ents[0]);
      ReleaseEntities(ix, h, ord, systems, ents).trace
        == first.trace + ReleaseEntities(first.index, first.heap, ord, systems, ents[1..]).trace
  {
  }

  /**
   * Releasing entities in turn shows, in a release view, each object whose entry
   * left the index exactly once.
   */
  lemma {:induction false} ReleaseEntitiesView(ix: CM.Index, h: Heap, ord: HashOrders, systems: seq<Ref>, ents: seq<Ref>, v: View)
    requires ReleaseView(v, systems)
    requires RefInjective(ix.byId) && HashOrder.Covers(ord.components, ix.byId.Keys)
    ensures var t := ReleaseEntities(ix, h, ord, systems, ents);
      var p := Project(v, t.trace);
      && SubIndex(t.index.byId, ix.byId)
      && HashOrder.NoDup(p)
      && forall x :: x in p <==> x in RefSet(ix.byId) && x !in RefSet(t.index.byId)
    decreases |ents|
  {
    if ents == [] {
      assert Project(v, []) == [];
    } else {
      var first := ReleaseEntity(ix, h, ord, systems, ents[0]);
      var rest := ReleaseEntities(first.index, first.heap, ord, systems, ents[1..]);
      ReleaseEntitiesUnfold(ix, h, ord, systems, ents);
      ReleaseEntityView(ix, h, ord, systems, ents[0], v);
      ReleaseEntitiesView(first.index, first.heap, ord, systems, ents[1..], v);
      ProjectConcat(v, first.trace, rest.trace);
      SubIndexRefs(rest.index.byId, first.index.byId);
      SubIndexRefs(first.index.byId, ix.byId);
      ReleasesChain(Project(v, first.trace), Project(v, rest.trace),
        RefSet(ix.byId), RefSet(first.index.byId), RefSet(rest.index.byId));
    }
  }

  /** In a valid world the stored systems, in iteration order, are distinct. */
  lemma SystemsDistinct(w: World, ord: HashOrders)
    requires Valid(w) && w.manager.Initialized? && HashOrder.NoDup(ord.systems)
    ensures HashOrder.NoDup(Systems(w.manager.reg, ord))
  {
    var reg := w.manager.reg;
    var ks := HashOrder.Enumerate(ord.systems, reg.systemMap.Keys);
    var sys := Systems(reg, ord);
    forall i, j | 0 <= i < j < |sys| ensures sys[i] != sys[j] {
      assert ks[i] in ks && ks[j] in ks && ks[i] != ks[j];
      assert w.heap.systems[sys[i]].id == Some(ks[i]);
      assert w.heap.systems[sys[j]].id == Some(ks[j]);
    }
  }

  /** The entity pass of `destroy()` over a valid world. */
  function EntityPass(w: World, ord: HashOrders): Teardown
    requires w.manager.Initialized?
  {
    var reg := w.manager.reg;
    ReleaseEntities(reg.componentMap, w.heap, ord, Systems(reg, ord), Entities(reg, ord))
  }

  /** In a release view, `destroy()` shows the entity pass, then the sweep of what it left. */
  lemma DestroyViewSplit(w: World, ord: HashOrders, v: View)
    requires w.manager.Initialized?
    requires ReleaseView(v, Systems(w.manager.reg, ord))
    ensures var t := EntityPass(w, ord);
      Project(v, Destroy(w, ord).trace) == Project(v, t.trace) + RefsOf(t.index.byId, ord.components)
  {
    var reg := w.manager.reg;
    var systems := Systems(reg, ord);
    var t := EntityPass(w, ord);
    var comps := RefsOf(t.index.byId, ord.components);
    var orphans := ReleaseComponents(t.heap, systems, comps);
    ReleaseComponentsView(t.heap, systems, comps, v);
    var d := DisposeSystems(orphans.heap, systems);
    assert Silent(v, d.trace);
    SilentProject(v, d.trace);
    assert Destroy(w, ord).trace == t.trace + orphans.trace + d.trace;
    ProjectConcat(v, t.trace + orphans.trace, d.trace);
    ProjectConcat(v, t.trace, orphans.trace);
  }

  /**
   * `destroy()` disposes every indexed component exactly once, and every stored
   * system is told of each of those removals exactly once: the component is
   * released either with its entity or, when no stored entity claims it, by the
   * sweep over what is left in the index.
   */
  lemma DestroyReleasesEachComponentOnce(w: World, ord: HashOrders, v: View)
    requires Valid(w) && w.manager.Initialized? && Fits(ord, w.manager.reg)
    requires v == DisposedComponents || (v.RemovedFrom? && v.sys in Systems(w.manager.reg, ord))
    ensures var p := Project(v, Destroy(w, ord).trace);
      && HashOrder.NoDup(p)
      && (forall x :: x in p <==> x in RefSet(w.manager.reg.componentMap.byId))
  {
    var reg := w.manager.reg;
    var byId := reg.componentMap.byId;
    SystemsDistinct(w, ord);
    ValidRefInjective(w);
    var t := EntityPass(w, ord);
    ReleaseEntitiesView(reg.componentMap, w.heap, ord, Systems(reg, ord), Entities(reg, ord), v);
    DestroyViewSplit(w, ord, v);
    var pt := Project(v, t.trace);
    var comps := RefsOf(t.index.byId, ord.components);
    assert HashOrder.Covers(ord.components, t.index.byId.Keys);
    assert RefInjective(t.index.byId);
    forall x | x in RefSet(t.index.byId) ensures x in RefSet(byId) {
      var k :| k in t.index.byId && t.index.byId[k].ref == x;
    }
    HashOrder.NoDupConcat(pt, comps);
  }

  /** `destroy()` disposes as many components as the index holds. */
  lemma DestroyDisposalCount(w: World, ord: HashOrders, v: View)
    requires Valid(w) && w.manager.Initialized? && Fits(ord, w.manager.reg)
    requires v == DisposedComponents || (v.RemovedFrom? && v.sys in Systems(w.manager.reg, ord))
    ensures |Project(v, Destroy(w, ord).trace)| == CM.Size(w.manager.reg.componentMap)
  {
    var p := Project(v, Destroy(w, ord).trace);
    DestroyReleasesEachComponentOnce(w, ord, v);
    ValidRefInjective(w);
    var all := RefsOf(w.manager.reg.componentMap.byId, ord.components);
    HashOrder.SameElementsSameLength(p, all);
  }

  /** In a valid world the stored entities, in iteration order, are distinct. */
  lemma EntitiesDistinct(w: World, ord: HashOrders)
    requires Valid(w) && w.manager.Initialized? && HashOrder.NoDup(ord.entities)
    ensures HashOrder.NoDup(Entities(w.manager.reg, ord))
  {
    var reg := w.manager.reg;
    var ks := HashOrder.Enumerate(ord.entities, reg.entityMap.Keys);
    var ents := Entities(reg, ord);
    forall i, j | 0 <= i < j < |ents| ensures ents[i] != ents[j] {
      assert ks[i] in ks && ks[j] in ks && ks[i] != ks[j];
      assert w.heap.entities[ents[i]].id == Some(ks[i]);
      assert w.heap.entities[ents[j]].id == Some(ks[j]);
    }
  }

  /** Releasing one entity disposes it and no other entity. */
  lemma ReleaseEntityDisposes(ix: CM.Index, h: Heap, ord: HashOrders, systems: seq<Ref>, e: Ref)
    ensures Project(DisposedEntities, ReleaseEntity(ix, h, ord, systems, e).trace) == [e]
  {
    var removal := DetachComponents(ix, h, e);
    var released := ReleaseComponents(h, systems, RefsOf(removal.removed, ord.components));
    assert Silent(DisposedEntities, released.trace);
    SilentProject(DisposedEntities, released.trace);
    ProjectConcat(DisposedEntities, released.trace, [Dispose(Ent(e))]);
    ProjectSingle(DisposedEntities, Dispose(Ent(e)));
  }

  /** Releasing entities disposes each of them, in turn. */
  lemma {:induction false} ReleaseEntitiesDisposeEach(ix: CM.Index, h: Heap, ord: HashOrders, systems: seq<Ref>, ents: seq<Ref>)
    ensures Project(DisposedEntities, ReleaseEntities(ix, h, ord, systems, ents).trace) == ents
    decreases |ents|
  {
    if ents == [] {
      assert Project(DisposedEntities, []) == [];
    } else {
      var first := ReleaseEntity(ix, h, ord, systems, ents[0]);
      var rest := ReleaseEntities(first.index, first.heap, ord, systems, ents[1..]);
      ReleaseEntitiesUnfold(ix, h, ord, systems, ents);
      ReleaseEntityDisposes(ix, h, ord, systems, ents[0]);
      ReleaseEntitiesDisposeEach(first.index, first.heap, ord, systems, ents[1..]);
      ViewChain(DisposedEntities, first.trace, rest.trace, ents[0], ents[1..]);
      assert ents == [ents[0]] + ents[1..];
    }
  }

  /** Disposing systems disposes each of them, in turn. */
  lemma {:induction false} DisposeSystemsEach(h: Heap, systems: seq<Ref>)
    ensures Project(DisposedSystems, DisposeSystems(h, systems).trace) == systems
    decreases |systems|
  {
    if systems != [] {
      var first := ReleaseSystem(h, systems[0]);
      var rest := DisposeSystems(first.heap, systems[1..]);
      DisposeSystemsEach(first.heap, systems[1..]);
      ProjectConcat(DisposedSystems, first.trace, rest.trace);
      ProjectSingle(DisposedSystems, Dispose(Sys(systems[0])));
      assert systems == [systems[0]] + systems[1..];
    }
  }

  /** A view of three traces in a row. */
  lemma ThreeParts(v: View, a: seq<Event>, b: seq<Event>, c: seq<Event>)
    ensures Project(v, (a + b) + c) == Project(v, a) + Project(v, b) + Project(v, c)
  {
    ProjectConcat(v, a + b, c);
    ProjectConcat(v, a, b);
  }

  /** Releasing orphans and disposing systems disposes no entity. */
  lemma OrphansAndSystemsUnseen(h: Heap, systems: seq<Ref>, comps: seq<Ref>, h': Heap)
    ensures Project(DisposedEntities, ReleaseComponents(h, systems, comps).trace) == []
    ensures Project(DisposedEntities, DisposeSystems(h', systems).trace) == []
  {
    NoEntityDisposed(ReleaseComponents(h, systems, comps).trace);
    NoEntityDisposed(DisposeSystems(h', systems).trace);
  }

  /** Releasing entities disposes no system. */
  lemma EntitiesUnseen(ix: CM.Index, h: Heap, ord: HashOrders, systems: seq<Ref>, ents: seq<Ref>)
    ensures Project(DisposedSystems, ReleaseEntities(ix, h, ord, systems, ents).trace) == []
  {
    NoSystemDisposed(ReleaseEntities(ix, h, ord, systems, ents).trace);
  }

  /** Releasing components disposes no system. */
  lemma OrphansUnseen(h: Heap, systems: seq<Ref>, comps: seq<Ref>)
    ensures Project(DisposedSystems, ReleaseComponents(h, systems, comps).trace) == []
  {
    NoSystemDisposed(ReleaseComponents(h, systems, comps).trace);
  }

  /** A trace of notices and disposals of anything but entities shows no entity disposal. */
  lemma NoEntityDisposed(tr: seq<Event>)
    requires forall i :: 0 <= i < |tr| ==> tr[i].Removed? || (tr[i].Dispose? && !tr[i].obj.Ent?)
    ensures Project(DisposedEntities, tr) == []
  {
    assert Silent(DisposedEntities, tr);
    SilentProject(DisposedEntities, tr);
  }

  /** A trace of notices and disposals of anything but systems shows no system disposal. */
  lemma NoSystemDisposed(tr: seq<Event>)
    requires forall i :: 0 <= i < |tr| ==> tr[i].Removed? || (tr[i].Dispose? && !tr[i].obj.Sys?)
    ensures Project(DisposedSystems, tr) == []
  {
    assert Silent(DisposedSystems, tr);
    SilentProject(DisposedSystems, tr);
  }

  /** `destroy()` disposes the stored entities in iteration order. */
  lemma DestroyEntityOrder(w: World, ord: HashOrders)
    requires w.manager.Initialized?
    ensures Project(DisposedEntities, Destroy(w, ord).trace) == Entities(w.manager.reg, ord)
  {
    var reg := w.manager.reg;
    var systems := Systems(reg, ord);
    var t := EntityPass(w, ord);
    var orphans := ReleaseComponents(t.heap, systems, RefsOf(t.index.byId, ord.components));
    var d := DisposeSystems(orphans.heap, systems);
    assert Destroy(w, ord).trace == (t.trace + orphans.trace) + d.trace;
    ReleaseEntitiesDisposeEach(reg.componentMap, w.heap, ord, systems, Entities(reg, ord));
    OrphansAndSystemsUnseen(t.heap, systems, RefsOf(t.index.byId, ord.components), orphans.heap);
    ThreeParts(DisposedEntities, t.trace, orphans.trace, d.trace);
  }

  /** `destroy()` disposes the stored systems in iteration order. */
  lemma DestroySystemOrder(w: World, ord: HashOrders)
    requires w.manager.Initialized?
    ensures Project(DisposedSystems, Destroy(w, ord).trace) == Systems(w.manager.reg, ord)
  {
    var reg := w.manager.reg;
    var systems := Systems(reg, ord);
    var t := EntityPass(w, ord);
    var orphans := ReleaseComponents(t.heap, systems, RefsOf(t.index.byId, ord.components));
    var d := DisposeSystems(orphans.heap, systems);
    assert Destroy(w, ord).trace == (t.trace + orphans.trace) + d.trace;
    DisposeSystemsEach(orphans.heap, systems);
    EntitiesUnseen(reg.componentMap, w.heap, ord, systems, Entities(reg, ord));
    OrphansUnseen(t.heap, systems, RefsOf(t.index.byId, ord.components));
    ThreeParts(DisposedSystems, t.trace, orphans.trace, d.trace);
  }

  /** `destroy()` runs no system's update. */
  lemma DestroyRunsNoUpdate(w: World, ord: HashOrders)
    ensures Project(Updated, Destroy(w, ord).trace) == []
  {
    TeardownRunsNoUpdate(Destroy(w, ord).trace);
  }

  /** A trace of removals and disposals shows no update. */
  lemma TeardownRunsNoUpdate(tr: seq<Event>)
    requires forall i :: 0 <= i < |tr| ==> tr[i].Removed? || tr[i].Dispose?
    ensures Project(Updated, tr) == []
  {
    assert Silent(Updated, tr);
    SilentProject(Updated, tr);
  }

  /**
   * `destroy()` disposes every stored entity exactly once, and every stored
   * system exactly once.
   */
  lemma DestroyDisposesEntitiesAndSystems(w: World, ord: HashOrders)
    requires Valid(w) && w.manager.Initialized? && Fits(ord, w.manager.reg)
    ensures var tr := Destroy(w, ord).trace;
      var de := Project(DisposedEntities, tr);
      var ds := Project(DisposedSystems, tr);
      && HashOrder.NoDup(de) && (forall x :: x in de <==> x in HashOrder.Range(w.manager.reg.entityMap))
      && HashOrder.NoDup(ds) && (forall x :: x in ds <==> x in HashOrder.Range(w.manager.reg.systemMap))
  {
    var reg := w.manager.reg;
    DestroyEntityOrder(w, ord);
    DestroySystemOrder(w, ord);
    EntitiesDistinct(w, ord);
    SystemsDistinct(w, ord);
    HashOrder.PickAll(reg.entityMap, ord.entities);
    HashOrder.PickAll(reg.systemMap, ord.systems);
  }

  // --------------------------------------------------------------------- update

  /** The position of the first pending system whose update destroys the manager; `|pending|` if none does. */
  function FirstDestroyer(h: Heap, pending: seq<Ref>): (n: nat)
    ensures n <= |pending|
    ensures forall i :: 0 <= i < n ==> !DestroysOnUpdate(h, pending[i])
    ensures n < |pending| ==> DestroysOnUpdate(h, pending[n])
  {
    if pending == [] || DestroysOnUpdate(h, pending[0]) then 0 else 1 + FirstDestroyer(h, pending[1..])
  }

  /** A system that destroys the manager: its update, then the whole teardown, then nothing. */
  lemma UpdateLoopDestroyStep(w: World, ord: HashOrders, delta: Delta, pending: seq<Ref>)
    requires w.manager.Initialized? && Fits(ord, w.manager.reg)
    requires pending != [] && DestroysOnUpdate(w.heap, pending[0])
    ensures var r := UpdateLoop(w, ord, delta, pending);
      && r.world.manager.Uninitialized?
      && r.trace == [Update(pending[0], delta)] + Destroy(w, ord).trace
  {
    var destroyed := Destroy(w, ord);
    var rest := UpdateLoop(destroyed.world, ord, delta, pending[1..]);
    assert rest.trace == [];
    assert SystemUpdate(pending[0], delta) == [Update(pending[0], delta)];
    assert [Update(pending[0], delta)] + destroyed.trace + [] == [Update(pending[0], delta)] + destroyed.trace;
  }

  /** A system that does not destroy the manager: its update, then the rest of the loop. */
  lemma UpdateLoopPlainStep(w: World, ord: HashOrders, delta: Delta, pending: seq<Ref>)
    requires w.manager.Initialized? && Fits(ord, w.manager.reg)
    requires pending != [] && !DestroysOnUpdate(w.heap, pending[0])
    ensures var r := UpdateLoop(w, ord, delta, pending);
      var rest := UpdateLoop(w, ord, delta, pending[1..]);
      && r.world == rest.world
      && r.trace == [Update(pending[0], delta)] + rest.trace
  {
    assert SystemUpdate(pending[0], delta) == [Update(pending[0], delta)];
  }

  /** The pending systems up to and including the first that destroys the manager. */
  function UpdatedPrefix(h: Heap, pending: seq<Ref>): seq<Ref>
  {
    if pending == [] then []
    else if DestroysOnUpdate(h, pending[0]) then [pending[0]]
    else [pending[0]] + UpdatedPrefix(h, pending[1..])
  }

  lemma {:induction false} UpdatedPrefixIsPrefix(h: Heap, pending: seq<Ref>)
    ensures var n := FirstDestroyer(h, pending);
      UpdatedPrefix(h, pending) == pending[..if n < |pending| then n + 1 else n]
  {
    if pending != [] && !DestroysOnUpdate(h, pending[0]) {
      UpdatedPrefixIsPrefix(h, pending[1..]);
      var n' := FirstDestroyer(h, pending[1..]);
      var k := if n' < |pending[1..]| then n' + 1 else n';
      assert [pending[0]] + pending[1..][..k] == pending[..k + 1];
    }
  }

  lemma {:induction false} UpdateLoopRuns(w: World, ord: HashOrders, delta: Delta, pending: seq<Ref>)
    requires w.manager.Initialized? && Fits(ord, w.manager.reg)
    ensures Project(Updated, UpdateLoop(w, ord, delta, pending).trace) == UpdatedPrefix(w.heap, pending)
    decreases |pending|
  {
    if pending != [] {
      var s := pending[0];
      ProjectSingle(Updated, Update(s, delta));
      if DestroysOnUpdate(w.heap, s) {
        UpdateLoopDestroyStep(w, ord, delta, pending);
        DestroyRunsNoUpdate(w, ord);
        ProjectConcat(Updated, [Update(s, delta)], Destroy(w, ord).trace);
      } else {
        UpdateLoopPlainStep(w, ord, delta, pending);
        UpdateLoopRuns(w, ord, delta, pending[1..]);
        ProjectConcat(Updated, [Update(s, delta)], UpdateLoop(w, ord, delta, pending[1..]).trace);
      }
    }
  }

  /**
   * `update(delta)` runs the pending systems in order up to and including the
   * first one that destroys the manager, and no later one.
   */
  lemma UpdateStopsAfterDestroy(w: World, ord: HashOrders, delta: Delta, pending: seq<Ref>)
    requires w.manager.Initialized? && Fits(ord, w.manager.reg)
    ensures var n := FirstDestroyer(w.heap, pending);
      Project(Updated, UpdateLoop(w, ord, delta, pending).trace) == pending[..if n < |pending| then n + 1 else n]
  {
    UpdateLoopRuns(w, ord, delta, pending);
    UpdatedPrefixIsPrefix(w.heap, pending);
  }

  /**
   * A destroying update leaves the manager uninitialized with every system
   * disposed once; otherwise update changes nothing and disposes nothing.
   */
  lemma {:induction false} UpdateOutcome(w: World, ord: HashOrders, delta: Delta, pending: seq<Ref>)
    requires w.manager.Initialized? && Fits(ord, w.manager.reg)
    ensures var r := UpdateLoop(w, ord, delta, pending);
      var n := FirstDestroyer(w.heap, pending);
      && (n == |pending| ==> r.world == w && Project(DisposedSystems, r.trace) == [])
      && (n < |pending| ==> r.world.manager.Uninitialized? && Project(DisposedSystems, r.trace) == Systems(w.manager.reg, ord))
    decreases |pending|
  {
    if pending != [] {
      if DestroysOnUpdate(w.heap, pending[0]) {
        DestroyingUpdateOutcome(w, ord, delta, pending);
      } else {
        UpdateOutcome(w, ord, delta, pending[1..]);
        PlainUpdateOutcome(w, ord, delta, pending);
      }
    }
  }

  /** The first pending system destroys the manager: every system is disposed. */
  lemma DestroyingUpdateOutcome(w: World, ord: HashOrders, delta: Delta, pending: seq<Ref>)
    requires w.manager.Initialized? && Fits(ord, w.manager.reg)
    requires pending != [] && DestroysOnUpdate(w.heap, pending[0])
    ensures var r := UpdateLoop(w, ord, delta, pending);
      && r.world.manager.Uninitialized?
      && Project(DisposedSystems, r.trace) == Systems(w.manager.reg, ord)
  {
    UpdateLoopDestroyStep(w, ord, delta, pending);
    DestroySystemOrder(w, ord);
    UpdateUnseen(pending[0], delta, Destroy(w, ord).trace);
  }

  /** A system disposal view does not see an update. */
  lemma UpdateUnseen(s: Ref, delta: Delta, tr: seq<Event>)
    ensures Project(DisposedSystems, [Update(s, delta)] + tr) == Project(DisposedSystems, tr)
  {
    ProjectConcat(DisposedSystems, [Update(s, delta)], tr);
    ProjectSingle(DisposedSystems, Update(s, delta));
  }

  /** The first pending system leaves the manager alone: the rest decides. */
  lemma PlainUpdateOutcome(w: World, ord: HashOrders, delta: Delta, pending: seq<Ref>)
    requires w.manager.Initialized? && Fits(ord, w.manager.reg)
    requires pending != [] && !DestroysOnUpdate(w.heap, pending[0])
    ensures var r := UpdateLoop(w, ord, delta, pending);
      var rest := UpdateLoop(w, ord, delta, pending[1..]);
      && r.world == rest.world
      && Project(DisposedSystems, r.trace) == Project(DisposedSystems, rest.trace)
      && FirstDestroyer(w.heap, pending) == 1 + FirstDestroyer(w.heap, pending[1..])
  {
    UpdateLoopPlainStep(w, ord, delta, pending);
    UpdateUnseen(pending[0], delta, UpdateLoop(w, ord, delta, pending[1..]).trace);
  }

  /** `update(delta)` keeps the invariant: it either changes nothing or destroys the manager. */
  lemma UpdateValid(w: World, ord: HashOrders, delta: Delta)
    requires Valid(w)
    requires w.manager.Initialized? ==> Fits(ord, w.manager.reg)
    ensures var r := EntityManager.Update(w, ord, delta); r.Success? ==> Valid(r.value.world)
  {
    if w.manager.Initialized? {
      UpdateOutcome(w, ord, delta, Systems(w.manager.reg, ord));
    }
  }

  // ------------------------------------------------------------ destroy resets

  /** Every component of `h` is still in `h'`, either as it was or disposed. */
  ghost predicate ComponentsKeptOrReset(h: Heap, h': Heap)
  {
    forall x :: x in h.components ==>
      && x in h'.components
      && (h'.components[x] == h.components[x] || h'.components[x] == NewComponent(h.components[x].tag))
  }

  /** Every known object of `xs` is disposed in `h'`. */
  ghost predicate ComponentsReset(h: Heap, h': Heap, xs: set<Ref>)
  {
    forall x :: x in xs && x in h.components ==>
      x in h'.components && h'.components[x] == NewComponent(h.components[x].tag)
  }

  /** Every entity of `h` is still in `h'`, either as it was or disposed. */
  ghost predicate EntitiesKeptOrReset(h: Heap, h': Heap)
  {
    forall x :: x in h.entities ==> x in h'.entities && (h'.entities[x] == h.entities[x] || h'.entities[x] == NewEntity())
  }

  /** Two steps that each keep or dispose components, and each dispose a set, dispose the sets' difference. */
  lemma ResetsCompose(h: Heap, h1: Heap, h2: Heap, a: set<Ref>, b: set<Ref>, c: set<Ref>)
    requires ComponentsKeptOrReset(h, h1) && ComponentsKeptOrReset(h1, h2)
    requires ComponentsReset(h, h1, a - b) && ComponentsReset(h1, h2, b - c)
    ensures ComponentsKeptOrReset(h, h2)
    ensures ComponentsReset(h, h2, a - c)
  {
  }

  /** Part of an injective, covered index is injective and covered. */
  lemma SubIndexKeeps(a: map<int, CM.Component>, m: map<int, CM.Component>, order: seq<int>)
    requires SubIndex(a, m) && RefInjective(m) && HashOrder.Covers(order, m.Keys)
    ensures RefInjective(a) && HashOrder.Covers(order, a.Keys)
  {
  }

  /**
   * Releasing one entity disposes it and every object whose entry it took out of
   * the index, and otherwise leaves entities and components as they were.
   */
  lemma ReleaseEntityResets(ix: CM.Index, h: Heap, ord: HashOrders, systems: seq<Ref>, e: Ref)
    requires RefInjective(ix.byId) && HashOrder.Covers(ord.components, ix.byId.Keys)
    ensures var t := ReleaseEntity(ix, h, ord, systems, e);
      && SubIndex(t.index.byId, ix.byId)
      && ComponentsKeptOrReset(h, t.heap)
      && ComponentsReset(h, t.heap, RefSet(ix.byId) - RefSet(t.index.byId))
      && EntitiesKeptOrReset(h, t.heap)
  {
    var removal := DetachComponents(ix, h, e);
    DetachSplits(ix, h, e);
    SubIndexKeeps(removal.removed, ix.byId, ord.components);
    var comps := RefsOf(removal.removed, ord.components);
    var released := ReleaseComponents(h, systems, comps);
    assert ComponentsReset(h, released.heap, RefSet(ix.byId) - RefSet(removal.index.byId));
  }

  /**
   * Releasing entities in turn disposes each of them and every object whose entry
   * left the index, and otherwise leaves entities and components as they were.
   */
  lemma {:induction false} ReleaseEntitiesResets(ix: CM.Index, h: Heap, ord: HashOrders, systems: seq<Ref>, ents: seq<Ref>)
    requires RefInjective(ix.byId) && HashOrder.Covers(ord.components, ix.byId.Keys)
    ensures var t := ReleaseEntities(ix, h, ord, systems, ents);
      && SubIndex(t.index.byId, ix.byId)
      && ComponentsKeptOrReset(h, t.heap)
      && ComponentsReset(h, t.heap, RefSet(ix.byId) - RefSet(t.index.byId))
      && EntitiesKeptOrReset(h, t.heap)
      && forall x :: x in ents && x in h.entities ==> t.heap.entities[x] == NewEntity()
    decreases |ents|
  {
    if ents != [] {
      var first := ReleaseEntity(ix, h, ord, systems, ents[0]);
      var rest := ReleaseEntities(first.index, first.heap, ord, systems, ents[1..]);
      ReleaseEntityResets(ix, h, ord, systems, ents[0]);
      SubIndexKeeps(first.index.byId, ix.byId, ord.components);
      ReleaseEntitiesResets(first.index, first.heap, ord, systems, ents[1..]);
      ResetsCompose(h, first.heap, rest.heap, RefSet(ix.byId), RefSet(first.index.byId), RefSet(rest.index.byId));
      assert ReleaseEntities(ix, h, ord, systems, ents) == Teardown(rest.index, rest.heap, first.trace + rest.trace);
      forall x | x in ents && x in h.entities ensures rest.heap.entities[x] == NewEntity() {
        if x != ents[0] {
          assert x in ents[1..];
        }
      }
    }
  }

  /**
   * After `destroy()` every entity, component and system that was registered is
   * back in the state of a newly constructed object: each was disposed.
   */
  lemma DestroyResets(w: World, ord: HashOrders)
    requires Valid(w) && w.manager.Initialized? && Fits(ord, w.manager.reg)
    ensures var reg := w.manager.reg;
      var h := w.heap;
      var h' := Destroy(w, ord).world.heap;
      && (forall x :: x in HashOrder.Range(reg.entityMap) ==> x in h'.entities && h'.entities[x] == NewEntity())
      && (forall x :: x in RefSet(reg.componentMap.byId) ==>
            x in h.components && x in h'.components && h'.components[x] == NewComponent(h.components[x].tag))
      && (forall x :: x in HashOrder.Range(reg.systemMap) ==>
            x in h.systems && x in h'.systems
            && h'.systems[x] == NewSystem(h.systems[x].tag, h.systems[x].concurrent, h.systems[x].destroysOnUpdate))
  {
    var reg := w.manager.reg;
    var systems := Systems(reg, ord);
    var t := EntityPass(w, ord);
    ValidRefInjective(w);
    ReleaseEntitiesResets(reg.componentMap, w.heap, ord, systems, Entities(reg, ord));
    SubIndexKeeps(t.index.byId, reg.componentMap.byId, ord.components);
    var comps := RefsOf(t.index.byId, ord.components);
    var orphans := ReleaseComponents(t.heap, systems, comps);
    var d := DisposeSystems(orphans.heap, systems);
    assert Destroy(w, ord).world.heap == d.heap;
    HashOrder.PickAll(reg.entityMap, ord.entities);
    HashOrder.PickAll(reg.systemMap, ord.systems);
    forall x | x in RefSet(reg.componentMap.byId)
      ensures x in w.heap.components && d.heap.components[x] == NewComponent(w.heap.components[x].tag)
    {
      var k :| k in reg.componentMap.byId && reg.componentMap.byId[k].ref == x;
      assert x in w.heap.components;
    }
    forall x | x in HashOrder.Range(reg.systemMap) ensures x in w.heap.systems && x in systems {
      var k :| k in reg.systemMap && reg.systemMap[k] == x;
    }
    forall x | x in HashOrder.Range(reg.entityMap) ensures x in w.heap.entities && x in Entities(reg, ord) {
      var k :| k in reg.entityMap && reg.entityMap[k] == x;
    }
  }

  // --------------------------------------------------------------- registration

  /** A system that occurs once among those told hears of one addition once. */
  lemma {:induction false} AddedToAllOnce(systems: seq<Ref>, c: Ref, s: Ref)
    requires HashOrder.NoDup(systems) && s in systems
    ensures Project(AddedTo(s), AddedToAll(systems, c)) == [c]
  {
    var rest := AddedToAll(systems[1..], c);
    assert AddedToAll(systems, c) == [Added(systems[0], c)] + rest;
    ProjectConcat(AddedTo(s), [Added(systems[0], c)], rest);
    ProjectSingle(AddedTo(s), Added(systems[0], c));
    if systems[0] == s {
      assert s !in systems[1..] by {
        forall i | 0 <= i < |systems[1..]| ensures systems[1..][i] != s {
          assert systems[1..][i] == systems[i + 1];
        }
      }
      assert Silent(AddedTo(s), rest);
      SilentProject(AddedTo(s), rest);
    } else {
      assert s in systems[1..] && HashOrder.NoDup(systems[1..]) by {
        var i :| 0 <= i < |systems| && systems[i] == s;
        assert systems[1..][i - 1] == s;
      }
      AddedToAllOnce(systems[1..], c, s);
    }
  }

  /** One system told of components in turn hears of exactly those, in order. */
  lemma {:induction false} AddedFromAllView(s: Ref, comps: seq<Ref>)
    ensures Project(AddedTo(s), AddedFromAll(s, comps)) == comps
    decreases |comps|
  {
    if comps != [] {
      var rest := AddedFromAll(s, comps[1..]);
      assert AddedFromAll(s, comps) == [Added(s, comps[0])] + rest;
      ProjectConcat(AddedTo(s), [Added(s, comps[0])], rest);
      ProjectSingle(AddedTo(s), Added(s, comps[0]));
      AddedFromAllView(s, comps[1..]);
      assert comps == [comps[0]] + comps[1..];
    }
  }

  /** The hooks of a registration: a creation, then one addition per system. */
  lemma AnnouncementView(systems: seq<Ref>, c: Ref, s: Ref)
    requires HashOrder.NoDup(systems) && s in systems
    ensures var tr := [Create(Comp(c))] + AddedToAll(systems, c);
      && Project(AddedTo(s), tr) == [c]
      && Project(RemovedFrom(s), tr) == []
      && Project(DisposedComponents, tr) == []
  {
    var tr := [Create(Comp(c))] + AddedToAll(systems, c);
    ProjectConcat(AddedTo(s), [Create(Comp(c))], AddedToAll(systems, c));
    ProjectSingle(AddedTo(s), Create(Comp(c)));
    AddedToAllOnce(systems, c, s);
    assert Silent(RemovedFrom(s), tr);
    SilentProject(RemovedFrom(s), tr);
    assert Silent(DisposedComponents, tr);
    SilentProject(DisposedComponents, tr);
  }

  /**
   * `registerComponent` tells every stored system of the new component exactly
   * once, and tells no system of a removal and disposes nothing, even when the
   * index evicts a component of the same class.
   */
  lemma RegisterComponentAnnounces(w: World, ord: HashOrders, entityId: int, c: Ref, s: Ref)
    requires Valid(w) && w.manager.Initialized? && c in w.heap.components
    requires NotIndexed(w.manager.reg.componentMap, c) && SystemsCovered(ord, w.manager.reg)
    requires s in HashOrder.Range(w.manager.reg.systemMap)
    ensures var tr := RegisterComponent(w, ord, entityId, c).value.trace;
      && Project(AddedTo(s), tr) == [c]
      && Project(RemovedFrom(s), tr) == []
      && Project(DisposedComponents, tr) == []
  {
    SystemsDistinct(w, ord);
    HashOrder.PickAll(w.manager.reg.systemMap, ord.systems);
    AnnouncementView(Systems(w.manager.reg, ord), c, s);
  }

  /** The hooks of a late system: its creation, then one addition per component. */
  lemma LateJoinView(s: Ref, comps: seq<Ref>)
    ensures Project(AddedTo(s), [Create(Sys(s))] + AddedFromAll(s, comps)) == comps
  {
    ProjectConcat(AddedTo(s), [Create(Sys(s))], AddedFromAll(s, comps));
    ProjectSingle(AddedTo(s), Create(Sys(s)));
    AddedFromAllView(s, comps);
  }

  /**
   * A system registered late is told of every component already in the index,
   * exactly once each, and of nothing else.
   */
  lemma LateSystemSeesEveryComponent(w: World, ord: HashOrders, s: Ref)
    requires Valid(w) && w.manager.Initialized? && s in w.heap.systems
    requires s !in HashOrder.Range(w.manager.reg.systemMap) && ComponentsCovered(ord, w.manager.reg)
    ensures var p := Project(AddedTo(s), RegisterSystem(w, ord, s).value.trace);
      && HashOrder.NoDup(p)
      && (forall x :: x in p <==> x in RefSet(w.manager.reg.componentMap.byId))
      && |p| == CM.Size(w.manager.reg.componentMap)
  {
    ValidRefInjective(w);
    LateJoinView(s, RefsOf(w.manager.reg.componentMap.byId, ord.components));
  }

  /**
   * `unregisterComponent(id)` of a present component tells every stored system of
   * its removal exactly once and disposes it exactly once.
   */
  lemma UnregisterComponentNotifies(w: World, ord: HashOrders, id: int, v: View)
    requires Valid(w) && w.manager.Initialized? && SystemsCovered(ord, w.manager.reg)
    requires id in w.manager.reg.componentMap.byId
    requires v == DisposedComponents || (v.RemovedFrom? && v.sys in HashOrder.Range(w.manager.reg.systemMap))
    ensures CM.CanRemoveById(w.manager.reg.componentMap, id)
    ensures Project(v, UnregisterComponent(w, ord, id).value.trace) == [w.manager.reg.componentMap.byId[id].ref]
  {
    var reg := w.manager.reg;
    CM.RemoveByIdPreservesConsistency(reg.componentMap, id);
    SystemsDistinct(w, ord);
    HashOrder.PickAll(reg.systemMap, ord.systems);
    var x := reg.componentMap.byId[id];
    ReleaseComponentsView(w.heap, Systems(reg, ord), [x.ref], v);
    assert ReleaseComponents(w.heap, Systems(reg, ord), [x.ref]).trace == ReleaseComponent(w.heap, Systems(reg, ord), x.ref).trace;
  }

  /** The objects of the indexed components whose owner is `entityId`. */
  ghost function OwnedRefs(ix: CM.Index, entityId: int): set<Ref>
  {
    set k | k in ix.byId && ix.byId[k].entityId == entityId :: ix.byId[k].ref
  }

  /** What `removeByEntityId` takes out of a consistent index is exactly what the entity owns. */
  lemma RemovedAreOwned(ix: CM.Index, id: int)
    requires CM.Consistent(ix) && RefInjective(ix.byId)
    ensures var kept := CM.RemoveByEntityId(ix, id).index.byId;
      forall x :: x in RefSet(ix.byId) && x !in RefSet(kept) <==> x in OwnedRefs(ix, id)
  {
    CM.RemoveByEntityIdExact(ix, id);
    var removal := CM.RemoveByEntityId(ix, id);
    forall x ensures x in RefSet(ix.byId) && x !in RefSet(removal.index.byId) <==> x in OwnedRefs(ix, id) {
      if x in RefSet(ix.byId) && x !in RefSet(removal.index.byId) {
        var k :| k in ix.byId && ix.byId[k].ref == x;
        assert k !in removal.index.byId;
      }
      if x in OwnedRefs(ix, id) {
        var k :| k in ix.byId && ix.byId[k].entityId == id && ix.byId[k].ref == x;
        assert k in removal.removed;
      }
    }
  }

  /** What `unregisterEntity(id)` leaves in the index, and the entity it disposes. */
  lemma UnregisterEntityEffect(w: World, ord: HashOrders, id: int)
    requires Valid(w) && w.manager.Initialized? && SystemsCovered(ord, w.manager.reg)
    requires id in w.manager.reg.entityMap
    ensures var reg := w.manager.reg;
      var r := UnregisterEntity(w, ord, id).value;
      && r.world.manager.reg.componentMap == CM.RemoveByEntityId(reg.componentMap, id).index
      && Project(DisposedEntities, r.trace) == [reg.entityMap[id]]
  {
    var reg := w.manager.reg;
    ReleaseEntityDisposes(reg.componentMap, w.heap, ord, Systems(reg, ord), reg.entityMap[id]);
  }

  /**
   * `unregisterEntity(id)` of a stored entity takes its bucket out of the index,
   * leaves every other entity's components in place, releases each of the
   * entity's components exactly once (a disposal and one removal notice per
   * stored system), and disposes the entity itself once.
   */
  lemma UnregisterEntityCascade(w: World, ord: HashOrders, id: int, v: View)
    requires Valid(w) && w.manager.Initialized? && Fits(ord, w.manager.reg)
    requires id in w.manager.reg.entityMap
    requires v == DisposedComponents || (v.RemovedFrom? && v.sys in HashOrder.Range(w.manager.reg.systemMap))
    ensures var reg := w.manager.reg;
      var r := UnregisterEntity(w, ord, id).value;
      var ix' := r.world.manager.reg.componentMap;
      var p := Project(v, r.trace);
      && CM.GetByEntityId(ix', id).None?
      && (forall e :: e != id ==> CM.GetByEntityId(ix', e) == CM.GetByEntityId(reg.componentMap, e))
      && HashOrder.NoDup(p)
      && (forall x :: x in p <==> x in OwnedRefs(reg.componentMap, id))
      && Project(DisposedEntities, r.trace) == [reg.entityMap[id]]
  {
    UnregisterEntityEffect(w, ord, id);
    UnregisterEntityDetaches(w, ord, id);
    UnregisterEntityReleasesOwned(w, ord, id, v);
  }

  /** The entity's bucket is gone and every other bucket is as it was. */
  lemma UnregisterEntityDetaches(w: World, ord: HashOrders, id: int)
    requires Valid(w) && w.manager.Initialized? && SystemsCovered(ord, w.manager.reg)
    requires id in w.manager.reg.entityMap
    ensures var reg := w.manager.reg;
      var ix' := UnregisterEntity(w, ord, id).value.world.manager.reg.componentMap;
      && CM.GetByEntityId(ix', id).None?
      && (forall e :: e != id ==> CM.GetByEntityId(ix', e) == CM.GetByEntityId(reg.componentMap, e))
  {
    UnregisterEntityEffect(w, ord, id);
  }

  /** A release view of the cascade shows each component the entity owned once. */
  lemma UnregisterEntityReleasesOwned(w: World, ord: HashOrders, id: int, v: View)
    requires Valid(w) && w.manager.Initialized? && Fits(ord, w.manager.reg)
    requires id in w.manager.reg.entityMap
    requires v == DisposedComponents || (v.RemovedFrom? && v.sys in HashOrder.Range(w.manager.reg.systemMap))
    ensures var p := Project(v, UnregisterEntity(w, ord, id).value.trace);
      && HashOrder.NoDup(p)
      && (forall x :: x in p <==> x in OwnedRefs(w.manager.reg.componentMap, id))
  {
    var reg := w.manager.reg;
    var systems := Systems(reg, ord);
    SystemsDistinct(w, ord);
    HashOrder.PickAll(reg.systemMap, ord.systems);
    ValidRefInjective(w);
    UnregisterEntityEffect(w, ord, id);
    var e := reg.entityMap[id];
    assert UnregisterEntity(w, ord, id).value.trace == ReleaseEntity(reg.componentMap, w.heap, ord, systems, e).trace;
    ReleaseEntityView(reg.componentMap, w.heap, ord, systems, e, v);
    RemovedAreOwned(reg.componentMap, id);
  }
}
