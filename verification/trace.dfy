/**
 * Views of a hook trace: which objects were disposed, which systems were
 * updated, what one system was told. The call counts a test makes on a spied
 * object are the lengths of these views.
 */
module Trace {
  import opened Wrappers
  import opened Lifecycle

  /** What to read off a trace. */
  datatype View =
    | DisposedEntities
    | DisposedComponents
    | DisposedSystems
    | CreatedEntities
    | CreatedComponents
    | AddedTo(sys: Ref)      // the components `sys` was told were added
    | RemovedFrom(sys: Ref)  // the components `sys` was told were removed
    | Updated                // the systems whose update ran

  /** The object one event contributes to a view, if any. */
  function Select(v: View, e: Event): Option<Ref>
  {
    match v
    case DisposedEntities => if e.Dispose? && e.obj.Ent? then Some(e.obj.ref) else None
    case DisposedComponents => if e.Dispose? && e.obj.Comp? then Some(e.obj.ref) else None
    case DisposedSystems => if e.Dispose? && e.obj.Sys? then Some(e.obj.ref) else None
    case CreatedEntities => if e.Create? && e.obj.Ent? then Some(e.obj.ref) else None
    case CreatedComponents => if e.Create? && e.obj.Comp? then Some(e.obj.ref) else None
    case AddedTo(s) => if e.Added? && e.sys == s then Some(e.comp) else None
    case RemovedFrom(s) => if e.Removed? && e.sys == s then Some(e.comp) else None
    case Updated => if e.Update? then Some(e.sys) else None
  }

  /** The objects a trace contributes to view `v`, in trace order. */
  function Project(v: View, tr: seq<Event>): (r: seq<Ref>)
    ensures |r| <= |tr|
  {
    if tr == [] then []
    else
      Piece(v, tr[0]) + Project(v, tr[1..])
  }

  /** What one event contributes to view `v`: nothing, or one object. */
  function Piece(v: View, e: Event): (r: seq<Ref>)
    ensures |r| <= 1
  {
    match Select(v, e) case Some(x) => [x] case None => []
  }

  /** Views distribute over concatenated traces. */
  lemma {:induction false} ProjectConcat(v: View, a: seq<Event>, b: seq<Event>)
    ensures Project(v, a + b) == Project(v, a) + Project(v, b)
  {
    if a == [] {
      assert a + b == b;
    } else {
      assert (a + b)[1..] == a[1..] + b;
      ProjectConcat(v, a[1..], b);
    }
  }

  /** A view of a single event. */
  lemma ProjectSingle(v: View, e: Event)
    ensures Project(v, [e]) == Piece(v, e)
  {
    assert [e][1..] == [];
  }

  /** No event of the trace contributes to view `v`. */
  predicate Silent(v: View, tr: seq<Event>)
  {
    forall i :: 0 <= i < |tr| ==> Select(v, tr[i]).None?
  }

  lemma {:induction false} SilentProject(v: View, tr: seq<Event>)
    requires Silent(v, tr)
    ensures Project(v, tr) == []
  {
    if tr != [] {
      assert Select(v, tr[0]).None?;
      assert Silent(v, tr[1..]) by {
        forall i | 0 <= i < |tr[1..]| ensures Select(v, tr[1..][i]).None? {
          assert tr[1..][i] == tr[i + 1];
        }
      }
      SilentProject(v, tr[1..]);
    }
  }
}
