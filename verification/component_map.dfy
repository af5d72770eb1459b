/**
 * `ComponentMap`: the registry's two-level component index.
 *
 * The primary index maps a component id to the component; the secondary index
 * maps an entity id to a bucket keyed by the component's exact class. A bucket
 * holds at most one component per exact class, so a subclass component and its
 * parent-class component live side by side.
 *
 * The index stores each component as the snapshot `Component` of the fields the
 * Java code reads from it (`getId()`, `getEntityId()`, `getClass()`).
 */
module ComponentMap {
  import opened Wrappers
  import opened Lifecycle
  import HashOrder

  /** A created component as the index sees it. */
  datatype Component = Component(ref: Ref, id: int, entityId: int, tag: Tag)

  /** `mapById` and `mapByEntityId`. */
  datatype Index = Index(byId: map<int, Component>, byEntity: map<int, map<Tag, Component>>)

  /** The index after `put`, and the component it evicted (`null` if none). */
  datatype Insertion = Insertion(index: Index, evicted: Option<Component>)

  /** The index after a single removal, and the removed component (`null` if none). */
  datatype Removal = Removal(index: Index, removed: Option<Component>)

  /** The index after `removeByEntityId`, and the removed components keyed by id. */
  datatype BulkRemoval = BulkRemoval(index: Index, removed: map<int, Component>)

  /** A new, empty `ComponentMap`. */
  function Empty(): Index
  {
    Index(map[], map[])
  }

  /** `c` sits in the bucket of its entity, under its exact class. */
  predicate InBucket(ix: Index, c: Component)
  {
    c.entityId in ix.byEntity && c.tag in ix.byEntity[c.entityId] && ix.byEntity[c.entityId][c.tag] == c
  }

  /**
   * The two indexes agree: every id-index entry is keyed by its own id and sits in
   * its bucket, and every bucket entry is keyed by its entity and class and is the
   * id-index entry for its id.
   */
  ghost predicate Consistent(ix: Index)
  {
    && (forall id :: id in ix.byId ==> ix.byId[id].id == id && InBucket(ix, ix.byId[id]))
    && (forall e, t :: e in ix.byEntity && t in ix.byEntity[e] ==>
          var c := ix.byEntity[e][t];
          c.entityId == e && c.tag == t && c.id in ix.byId && ix.byId[c.id] == c)
  }

  // ------------------------------------------------------------------- queries

  /** `getById(id)`. */
  function GetById(ix: Index, id: int): (r: Option<Component>)
    ensures r.Some? <==> id in ix.byId
    ensures r.Some? ==> r.value in HashOrder.Range(ix.byId)
  {
    if id in ix.byId then Some(ix.byId[id]) else None
  }

  /** `getByEntityId(entityId)`: the bucket's components, or `null` when the entity has no bucket. */
  function GetByEntityId(ix: Index, entityId: int): (r: Option<set<Component>>)
    ensures r.None? <==> entityId !in ix.byEntity
  {
    if entityId in ix.byEntity then Some(HashOrder.Range(ix.byEntity[entityId])) else None
  }

  /** `getByClass(entityId, clazz)`: exact-class lookup in the entity's bucket. */
  function GetByClass(ix: Index, entityId: int, t: Tag): (r: Option<Component>)
    ensures r.Some? <==> entityId in ix.byEntity && t in ix.byEntity[entityId]
  {
    if entityId in ix.byEntity && t in ix.byEntity[entityId] then Some(ix.byEntity[entityId][t]) else None
  }

  /** `hasComponent(entityId, clazz)`. */
  function HasComponent(ix: Index, entityId: int, t: Tag): (r: bool)
    ensures r <==> GetByClass(ix, entityId, t).Some?
  {
    entityId in ix.byEntity && t in ix.byEntity[entityId]
  }

  /** `size()`: the number of id-index entries. */
  function Size(ix: Index): nat
  {
    |ix.byId|
  }

  /** `values()`: the id-index entries in hash-iteration order. */
  function Values(ix: Index, order: seq<int>): (r: seq<Component>)
    ensures forall c :: c in r ==> c in HashOrder.Range(ix.byId)
  {
    var ks := HashOrder.Enumerate(order, ix.byId.Keys);
    var r := HashOrder.Pick(ix.byId, ks);
    assert forall i :: 0 <= i < |r| ==> r[i] in HashOrder.Range(ix.byId) by {
      forall i | 0 <= i < |r| ensures r[i] in HashOrder.Range(ix.byId) {
        assert ks[i] in ix.byId;
      }
    }
    r
  }

  /** When the order covers the index, `values()` lists every entry once: `size()` of them. */
  lemma ValuesComplete(ix: Index, order: seq<int>)
    requires HashOrder.Covers(order, ix.byId.Keys)
    ensures |Values(ix, order)| == Size(ix)
    ensures forall c :: c in HashOrder.Range(ix.byId) ==> c in Values(ix, order)
  {
    HashOrder.EnumerateLength(order, ix.byId.Keys);
    HashOrder.PickAll(ix.byId, order);
  }

  /** The elements of `cs` whose exact class is `t`, in order. */
  function OfClass(cs: seq<Component>, t: Tag): (r: seq<Component>)
    ensures forall c :: c in r <==> c in cs && c.tag == t
    ensures |r| <= |cs|
  {
    if cs == [] then []
    else (if cs[0].tag == t then [cs[0]] else []) + OfClass(cs[1..], t)
  }

  /**
   * `getCollectionByClass(clazz)`: a scan of the id index keeping the components
   * whose exact class is `t`, whatever entity owns them.
   */
  function GetCollectionByClass(ix: Index, order: seq<int>, t: Tag): (r: seq<Component>)
    ensures forall c :: c in r ==> c in HashOrder.Range(ix.byId) && c.tag == t
    ensures HashOrder.Covers(order, ix.byId.Keys) ==>
      forall c :: c in HashOrder.Range(ix.byId) && c.tag == t ==> c in r
  {
    var r := OfClass(Values(ix, order), t);
    assert HashOrder.Covers(order, ix.byId.Keys) ==> forall c :: c in HashOrder.Range(ix.byId) && c.tag == t ==> c in r by {
      if HashOrder.Covers(order, ix.byId.Keys) {
        ValuesComplete(ix, order);
      }
    }
    r
  }

  // ----------------------------------------------------------------- mutations

  /** `removeByClass(entityId, clazz)`: drops the bucket entry only; the id index is untouched. */
  function RemoveByClass(ix: Index, entityId: int, t: Tag): (r: Removal)
    ensures r.removed == GetByClass(ix, entityId, t)
    ensures r.index.byId == ix.byId
    ensures r.index.byEntity.Keys == ix.byEntity.Keys
    ensures GetByClass(r.index, entityId, t).None?
    ensures forall e, t' :: e != entityId || t' != t ==> GetByClass(r.index, e, t') == GetByClass(ix, e, t')
  {
    if entityId in ix.byEntity then
      Removal(Index(ix.byId, ix.byEntity[entityId := ix.byEntity[entityId] - {t}]), GetByClass(ix, entityId, t))
    else
      Removal(ix, None)
  }

  /**
   * `put(component)`: evicts the component of the same entity and exact class, if
   * any, from both indexes, then files `c` under its id and in its bucket.
   */
  function Put(ix: Index, c: Component): (r: Insertion)
    ensures r.evicted == GetByClass(ix, c.entityId, c.tag)
    ensures GetByClass(r.index, c.entityId, c.tag) == Some(c)
    ensures GetById(r.index, c.id) == Some(c)
    ensures r.index.byId ==
      (match r.evicted case Some(prev) => ix.byId - {prev.id} case None => ix.byId)[c.id := c]
    ensures r.index.byEntity.Keys == ix.byEntity.Keys + {c.entityId}
    ensures forall e, t :: e != c.entityId || t != c.tag ==> GetByClass(r.index, e, t) == GetByClass(ix, e, t)
  {
    var cleared := RemoveByClass(ix, c.entityId, c.tag);
    var byId := match cleared.removed
      case Some(prev) => cleared.index.byId - {prev.id}
      case None => cleared.index.byId;
    var bucket := if c.entityId in cleared.index.byEntity then cleared.index.byEntity[c.entityId] else map[];
    Insertion(Index(byId[c.id := c], cleared.index.byEntity[c.entityId := bucket[c.tag := c]]), cleared.removed)
  }

  /**
   * `removeById` dereferences the bucket of the stored component's entity; it
   * fails on a null dereference when that bucket is missing.
   */
  predicate CanRemoveById(ix: Index, id: int)
  {
    id in ix.byId ==> ix.byId[id].entityId in ix.byEntity
  }

  /**
   * `removeById(id)`: removes the component from the id index and its class entry
   * from its entity's bucket. The bucket itself stays, even when it becomes empty.
   */
  function RemoveById(ix: Index, id: int): (r: Removal)
    requires CanRemoveById(ix, id)
    ensures r.removed == GetById(ix, id)
    ensures r.removed.None? ==> r.index == ix
    ensures r.index.byId == ix.byId - {id}
    ensures r.index.byEntity.Keys == ix.byEntity.Keys
    ensures r.removed.Some? ==> GetByClass(r.index, r.removed.value.entityId, r.removed.value.tag).None?
    ensures forall e, t :: r.removed.None? || e != r.removed.value.entityId || t != r.removed.value.tag ==>
      GetByClass(r.index, e, t) == GetByClass(ix, e, t)
  {
    if id !in ix.byId then Removal(ix, None)
    else
      var c := ix.byId[id];
      Removal(Index(ix.byId - {id}, ix.byEntity[c.entityId := ix.byEntity[c.entityId] - {c.tag}]), Some(c))
  }

  /**
   * `removeByEntityId(entityId)`: deletes the entity's bucket and removes the id
   * index entry of every component in it; answers the removed components. An
   * unknown entity yields an empty collection and no change.
   */
  function RemoveByEntityId(ix: Index, entityId: int): (r: BulkRemoval)
    ensures entityId !in ix.byEntity ==> r.index == ix && r.removed == map[]
    ensures r.index.byEntity == ix.byEntity - {entityId}
    ensures forall k :: k in r.removed ==> k in ix.byId && r.removed[k] == ix.byId[k] && k !in r.index.byId
    ensures forall k :: k in r.index.byId ==> k in ix.byId && r.index.byId[k] == ix.byId[k]
    ensures forall k :: k in ix.byId ==> k in r.index.byId || k in r.removed
  {
    if entityId !in ix.byEntity then BulkRemoval(ix, map[])
    else
      var ids := set t | t in ix.byEntity[entityId] :: ix.byEntity[entityId][t].id;
      BulkRemoval(Index(ix.byId - ids, ix.byEntity - {entityId}), map k | k in ids && k in ix.byId :: ix.byId[k])
  }

  /** `clear()`: both indexes emptied. */
  function Clear(ix: Index): (r: Index)
    ensures Size(r) == 0
    ensures forall e, t :: !HasComponent(r, e, t)
    ensures forall e :: GetByEntityId(r, e).None?
  {
    Empty()
  }

  // -------------------------------------------------------------------- lemmas

  /** A bucket entry of a consistent index is the id-index entry for its id. */
  lemma BucketEntry(ix: Index, e: int, c: Component)
    requires Consistent(ix)
    requires e in ix.byEntity && c in HashOrder.Range(ix.byEntity[e])
    ensures c.entityId == e && c.id in ix.byId && ix.byId[c.id] == c && InBucket(ix, c)
  {
    var t :| t in ix.byEntity[e] && ix.byEntity[e][t] == c;
  }

  /** An id-index entry of a consistent index sits in its bucket under its own id. */
  lemma IdEntry(ix: Index, c: Component)
    requires Consistent(ix)
    requires c in HashOrder.Range(ix.byId)
    ensures c.id in ix.byId && ix.byId[c.id] == c && InBucket(ix, c)
  {
    var k :| k in ix.byId && ix.byId[k] == c;
  }

  /** In a consistent index a component is in the id index exactly when it sits in its bucket. */
  lemma ConsistentMembership(ix: Index, c: Component)
    requires Consistent(ix)
    ensures c in HashOrder.Range(ix.byId) <==> InBucket(ix, c)
  {
    if InBucket(ix, c) {
      assert ix.byEntity[c.entityId][c.tag] == c;
      assert ix.byId[c.id] == c;
    }
    if c in HashOrder.Range(ix.byId) {
      IdEntry(ix, c);
    }
  }

  /**
   * In a consistent index every lookup finds what it asks for: `getById` the
   * component with that id, `getByClass` the component of that entity and exact
   * class, and `getByEntityId` exactly the indexed components of that entity.
   */
  lemma LookupsAgree(ix: Index, id: int, e: int, t: Tag)
    requires Consistent(ix)
    ensures var r := GetById(ix, id);
      r.Some? ==> r.value.id == id && InBucket(ix, r.value)
    ensures var r := GetByClass(ix, e, t);
      r.Some? ==> r.value.entityId == e && r.value.tag == t && r.value in HashOrder.Range(ix.byId)
    ensures var r := GetByEntityId(ix, e);
      r.Some? ==> forall c :: c in r.value <==> c in HashOrder.Range(ix.byId) && c.entityId == e
  {
    if e in ix.byEntity {
      var bucket := HashOrder.Range(ix.byEntity[e]);
      forall c | c in bucket ensures c in HashOrder.Range(ix.byId) && c.entityId == e {
        BucketEntry(ix, e, c);
      }
      forall c | c in HashOrder.Range(ix.byId) && c.entityId == e ensures c in bucket {
        IdEntry(ix, c);
      }
    }
  }

  /** The empty index is consistent. */
  lemma EmptyConsistent()
    ensures Consistent(Empty()) && Size(Empty()) == 0
  {
  }

  /** `put` with a fresh id keeps the two indexes in agreement. */
  lemma PutPreservesConsistency(ix: Index, c: Component)
    requires Consistent(ix)
    requires c.id !in ix.byId
    ensures Consistent(Put(ix, c).index)
  {
    var r := Put(ix, c);
    var ix' := r.index;
    forall id | id in ix'.byId
      ensures ix'.byId[id].id == id && InBucket(ix', ix'.byId[id])
    {
      if id != c.id {
        var d := ix.byId[id];
        assert ix'.byId[id] == d;
        assert InBucket(ix, d);
        assert GetByClass(ix', d.entityId, d.tag) == GetByClass(ix, d.entityId, d.tag);
      }
    }
    forall e, t | e in ix'.byEntity && t in ix'.byEntity[e]
      ensures var d := ix'.byEntity[e][t];
        d.entityId == e && d.tag == t && d.id in ix'.byId && ix'.byId[d.id] == d
    {
      if e != c.entityId || t != c.tag {
        assert GetByClass(ix', e, t) == GetByClass(ix, e, t);
        var d := ix.byEntity[e][t];
        assert d.id in ix.byId && ix.byId[d.id] == d;
        assert d.id != c.id;
        if r.evicted.Some? {
          var prev := r.evicted.value;
          assert prev == ix.byEntity[c.entityId][c.tag];
          assert d.id != prev.id;
        }
      }
    }
  }

  /** `put` grows the index by one unless it evicted a component of the same class. */
  lemma PutSize(ix: Index, c: Component)
    requires Consistent(ix)
    requires c.id !in ix.byId
    ensures Size(Put(ix, c).index) == Size(ix) + (if Put(ix, c).evicted.Some? then 0 else 1)
  {
    var r := Put(ix, c);
    if r.evicted.Some? {
      var prev := r.evicted.value;
      assert prev.id in ix.byId;
      assert |ix.byId - {prev.id}| == |ix.byId| - 1;
    }
  }

  /** A put of a different class for the same entity never evicts: both stay retrievable. */
  lemma ExactClassKeying(ix: Index, a: Component, b: Component)
    requires a.entityId == b.entityId && a.tag != b.tag
    ensures var ix2 := Put(Put(ix, a).index, b);
      && ix2.evicted == GetByClass(ix, b.entityId, b.tag)
      && GetByClass(ix2.index, a.entityId, a.tag) == Some(a)
      && GetByClass(ix2.index, b.entityId, b.tag) == Some(b)
  {
  }

  /** `removeById` keeps the two indexes in agreement. */
  lemma RemoveByIdPreservesConsistency(ix: Index, id: int)
    requires Consistent(ix)
    ensures CanRemoveById(ix, id)
    ensures Consistent(RemoveById(ix, id).index)
  {
    if id in ix.byId {
      var c := ix.byId[id];
      assert InBucket(ix, c);
      var ix' := RemoveById(ix, id).index;
      forall e, t | e in ix'.byEntity && t in ix'.byEntity[e]
        ensures var d := ix'.byEntity[e][t];
          d.entityId == e && d.tag == t && d.id in ix'.byId && ix'.byId[d.id] == d
      {
        assert GetByClass(ix', e, t) == GetByClass(ix, e, t);
      }
    }
  }

  /** Removing an entity's only component leaves an empty bucket behind, not a missing one. */
  lemma RemoveByIdLeavesEmptyBucket(ix: Index, id: int)
    requires Consistent(ix)
    requires id in ix.byId
    requires ix.byEntity[ix.byId[id].entityId].Keys == {ix.byId[id].tag}
    ensures CanRemoveById(ix, id)
    ensures GetByEntityId(RemoveById(ix, id).index, ix.byId[id].entityId) == Some({})
  {
    var c := ix.byId[id];
    assert InBucket(ix, c);
    var bucket := RemoveById(ix, id).index.byEntity[c.entityId];
    assert bucket.Keys == {};
    assert HashOrder.Range(bucket) == {};
  }

  /**
   * In a consistent index `removeByEntityId` answers exactly the entity's
   * components, keyed by their ids, and keeps the indexes in agreement; every
   * other entity keeps its components.
   */
  lemma RemoveByEntityIdExact(ix: Index, entityId: int)
    requires Consistent(ix)
    ensures var r := RemoveByEntityId(ix, entityId);
      && Consistent(r.index)
      && (entityId in ix.byEntity ==> HashOrder.Range(r.removed) == HashOrder.Range(ix.byEntity[entityId]))
      && (forall k :: k in r.removed ==> r.removed[k].entityId == entityId)
      && (forall k :: k in ix.byId && ix.byId[k].entityId != entityId ==> k in r.index.byId)
      && (forall k :: k in ix.byId && ix.byId[k].entityId == entityId ==> k in r.removed)
  {
    var r := RemoveByEntityId(ix, entityId);
    if entityId in ix.byEntity {
      var bucket := ix.byEntity[entityId];
      var ids := set t | t in bucket :: bucket[t].id;
      assert forall k :: k in ids ==> k in ix.byId && ix.byId[k].entityId == entityId && ix.byId[k] in HashOrder.Range(bucket) by {
        forall k | k in ids
          ensures k in ix.byId && ix.byId[k].entityId == entityId && ix.byId[k] in HashOrder.Range(bucket)
        {
          var t :| t in bucket && bucket[t].id == k;
          BucketEntry(ix, entityId, bucket[t]);
        }
      }
      forall c | c in HashOrder.Range(bucket) ensures c in HashOrder.Range(r.removed) {
        BucketEntry(ix, entityId, c);
        assert c.id in ids;
        assert r.removed[c.id] == c;
      }
      forall id | id in r.index.byId
        ensures r.index.byId[id].id == id && InBucket(r.index, r.index.byId[id])
      {
        var d := ix.byId[id];
        assert InBucket(ix, d);
      }
      forall e, t | e in r.index.byEntity && t in r.index.byEntity[e]
        ensures var d := r.index.byEntity[e][t];
          d.entityId == e && d.tag == t && d.id in r.index.byId && r.index.byId[d.id] == d
      {
        var d := ix.byEntity[e][t];
        assert d.id in ix.byId && ix.byId[d.id] == d;
        assert d.id !in ids;
      }
    }
  }

  /** `removeByClass` on its own does not keep the indexes in agreement: the id index still holds the component. */
  lemma RemoveByClassBreaksConsistency()
    ensures var ix := Put(Empty(), Component(0, 1, 1, 7)).index;
      && Consistent(ix)
      && !Consistent(RemoveByClass(ix, 1, 7).index)
  {
    var c := Component(0, 1, 1, 7);
    var ix := Put(Empty(), c).index;
    EmptyConsistent();
    PutPreservesConsistency(Empty(), c);
    var ix' := RemoveByClass(ix, 1, 7).index;
    assert 1 in ix'.byId && !InBucket(ix', ix'.byId[1]);
  }

  /** `clear()` leaves a consistent, empty index. */
  lemma ClearConsistent(ix: Index)
    ensures Consistent(Clear(ix))
  {
  }
}
