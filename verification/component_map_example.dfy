/**
 * A worked index: four components put in turn, the first two for the same
 * entity and exact class, the third of another class on that entity, and the
 * fourth on a second entity.
 */
module ComponentMapExample {
  import opened Wrappers
  import HashOrder
  import opened ComponentMap

  const A := Component(1, 1, 1, 0)
  const B := Component(2, 2, 1, 0)
  const C := Component(3, 3, 1, 1)
  const D := Component(4, 4, 2, 0)

  const AfterA := Index(map[1 := A], map[1 := map[0 := A]])
  const AfterB := Index(map[2 := B], map[1 := map[0 := B]])
  const AfterC := Index(map[2 := B, 3 := C], map[1 := map[0 := B, 1 := C]])
  const AfterD := Index(map[2 := B, 3 := C, 4 := D], map[1 := map[0 := B, 1 := C], 2 := map[0 := D]])

  lemma PutA()
    ensures Put(Empty(), A) == Insertion(AfterA, None)
  {
    assert RemoveByClass(Empty(), 1, 0) == Removal(Empty(), None);
  }

  /** `B` has `A`'s entity and class: it evicts `A` from both indexes. */
  lemma PutB()
    ensures Put(AfterA, B) == Insertion(AfterB, Some(A))
  {
    assert map[0 := A] - {0} == map[];
    assert RemoveByClass(AfterA, 1, 0) == Removal(Index(map[1 := A], map[1 := map[]]), Some(A));
    assert map[1 := A] - {1} == map[];
  }

  lemma PutC()
    ensures Put(AfterB, C) == Insertion(AfterC, None)
  {
    assert map[0 := B] - {1} == map[0 := B];
    assert RemoveByClass(AfterB, 1, 1) == Removal(AfterB, None);
  }

  lemma PutD()
    ensures Put(AfterC, D) == Insertion(AfterD, None)
  {
    assert RemoveByClass(AfterC, 2, 0) == Removal(AfterC, None);
  }

  /** The values of a bucket with two classes. */
  lemma RangeOfTwo(m: map<int, Component>, x: Component, y: Component)
    requires m == map[0 := x, 1 := y]
    ensures HashOrder.Range(m) == {x, y}
  {
    assert m[0] == x && m[1] == y;
    forall v | v in HashOrder.Range(m) ensures v == x || v == y {
      var k :| k in m && m[k] == v;
    }
  }

  /** The values of a bucket with one class. */
  lemma RangeOfOne(m: map<int, Component>, x: Component)
    requires m == map[0 := x]
    ensures HashOrder.Range(m) == {x}
  {
    assert m[0] == x;
    forall v | v in HashOrder.Range(m) ensures v == x {
      var k :| k in m && m[k] == v;
    }
  }

  lemma AfterDContents()
    ensures Size(AfterD) == 3
    ensures GetByEntityId(AfterD, 1) == Some({B, C})
    ensures GetByEntityId(AfterD, 2) == Some({D})
  {
    assert AfterD.byId.Keys == {2, 3, 4};
    RangeOfTwo(AfterD.byEntity[1], B, C);
    RangeOfOne(AfterD.byEntity[2], D);
  }

  lemma AfterRemovingEntity1()
    ensures GetByEntityId(RemoveByEntityId(AfterD, 1).index, 1).None?
    ensures GetByEntityId(RemoveByEntityId(AfterD, 1).index, 2) == Some({D})
  {
    var ix := RemoveByEntityId(AfterD, 1).index;
    assert ix.byEntity == map[2 := map[0 := D]];
    RangeOfOne(ix.byEntity[2], D);
  }

  /**
   * Four puts with one same-class collision leave three components: two on
   * entity 1 and one on entity 2. Removing entity 1 drops its bucket and leaves
   * entity 2's component.
   */
  lemma FourPutsOneCollision()
    ensures var ix := Put(Put(Put(Put(Empty(), A).index, B).index, C).index, D).index;
      && Put(Put(Empty(), A).index, B).evicted == Some(A)
      && Size(ix) == 3
      && GetByEntityId(ix, 1) == Some({B, C})
      && GetByEntityId(ix, 2) == Some({D})
      && GetByEntityId(RemoveByEntityId(ix, 1).index, 1).None?
      && GetByEntityId(RemoveByEntityId(ix, 1).index, 2) == Some({D})
  {
    PutA();
    PutB();
    PutC();
    PutD();
    AfterDContents();
    AfterRemovingEntity1();
  }
}
