/** TransformSystem as implemented in TransformSystem.cpp: Reparent, IsDescendant, the
    recursive world-matrix update and the queue-driven Run. The system's static registry
    pointer is the `w` parameter. */
module TransformSystem {
  import opened Entities
  import opened Geometry
  import opened Components
  import opened SceneGraph
  import opened Propagation
  import opened Scene

  /** The world matrix of a child is its parent's world matrix times its own local matrix. */
  predicate WorldRel(p: Transform, c: Transform) {
    c.world == Mul(p.world, c.local)
  }

  /** A stand-in parent whose world matrix is `m`: the value passed down to a subtree's top. */
  function WorldSeed(m: Mat): Transform {
    DefaultTransform.(world := m)
  }

  /** Same entities, and every field but the world matrix unchanged. */
  ghost predicate OnlyWorld(x0: Transforms, x1: Transforms) {
    x1.Keys == x0.Keys && forall x :: x in x0 ==> x1[x] == x0[x].(world := x1[x].world)
  }

  /** The queued entities Run starts from: those holding both a hierarchy and a transform. */
  ghost function Started(queue: seq<Entity>, h: Links, xs: Transforms): set<Entity> {
    set q | q in queue && q in h && q in xs
  }

  /** The pose DecomposeTransform writes for the matrix `m`. */
  function Decomposed(t: Transform, m: Mat): Transform {
    t.(position := TranslationOf(m), rotation := RotationOf(m), scale := ScaleOf(m))
  }

  /** The hierarchy links after Reparent moved `child` below `newParent`: out of the old parent's
      children, the parent field set, and into the new parent's children when that parent is
      valid and has a hierarchy. */
  function Relinked(h: Links, child: Entity, newParent: Entity): Links
    requires child in h
    requires HasParent(h[child]) ==> h[child].parent in h
  {
    var oldParent := h[child].parent;
    var h1 := if oldParent != InvalidEntity then h[oldParent := WithoutChild(h[oldParent], child)] else h;
    var h2 := h1[child := h1[child].(parent := newParent)];
    if newParent != InvalidEntity && newParent in h2 then h2[newParent := WithChild(h2[newParent], child)]
    else h2
  }

  /** The pose Reparent gives the child before UpdateTransform: relative to the new parent's
      world matrix when the new parent has a hierarchy and a transform, the old world matrix
      itself when the new parent is invalid or has no hierarchy, and unchanged otherwise. */
  function Reposed(t: Transform, h: Links, xs: Transforms, newParent: Entity): Transform {
    if newParent != InvalidEntity && newParent in h then
      if newParent in xs then Decomposed(t, Mul(Inverse(xs[newParent].world), t.world)) else t
    else Decomposed(t, t.world)
  }

  /** Relinking, at entity `p`: only the child's parent field changes, and only the child
      leaves or joins a child set; it ends up listed by the new parent alone, and only when that
      parent is valid and has a hierarchy. */
  lemma RelinkedAt(h: Links, child: Entity, newParent: Entity, p: Entity)
    requires Consistent(h) && child in h && p in h
    requires HasParent(h[child]) ==> h[child].parent in h
    requires h[child].parent != newParent
    ensures p in Relinked(h, child, newParent)
    ensures Relinked(h, child, newParent)[p].parent == (if p == child then newParent else h[p].parent)
    ensures Relinked(h, child, newParent)[p].children - {child} == h[p].children - {child}
    ensures child in Relinked(h, child, newParent)[p].children <==> p == newParent
  {
    if child in h[p].children {
      assert h[child].parent == p;
    }
  }

  /** Relinking, entity by entity: RelinkedAt everywhere. */
  lemma RelinkedShape(h: Links, child: Entity, newParent: Entity)
    requires Consistent(h) && child in h
    requires HasParent(h[child]) ==> h[child].parent in h
    requires h[child].parent != newParent
    ensures Relinked(h, child, newParent).Keys == h.Keys
    ensures forall p :: p in h ==>
              && Relinked(h, child, newParent)[p].parent == (if p == child then newParent else h[p].parent)
              && Relinked(h, child, newParent)[p].children - {child} == h[p].children - {child}
              && (child in Relinked(h, child, newParent)[p].children <==> p == newParent)
  {
    forall p | p in h
      ensures p in Relinked(h, child, newParent)
      ensures Relinked(h, child, newParent)[p].parent == (if p == child then newParent else h[p].parent)
      ensures Relinked(h, child, newParent)[p].children - {child} == h[p].children - {child}
      ensures child in Relinked(h, child, newParent)[p].children <==> p == newParent
    {
      RelinkedAt(h, child, newParent, p);
    }
  }

  /** Relinking keeps parent and child links consistent, and the child then names the new
      parent. */
  lemma RelinkedConsistent(h: Links, child: Entity, newParent: Entity)
    requires Consistent(h) && child in h
    requires HasParent(h[child]) ==> h[child].parent in h
    requires h[child].parent != newParent
    ensures Consistent(Relinked(h, child, newParent))
    ensures Relinked(h, child, newParent)[child].parent == newParent
  {
    RelinkedShape(h, child, newParent);
    var h' := Relinked(h, child, newParent);
    forall p, c | p in h' && c in h'[p].children && c in h'
      ensures h'[c].parent == p
    {
      if c != child {
        assert c in h[p].children - {child};
      }
    }
    forall c | c in h' && h'[c].parent in h'
      ensures c in h'[h'[c].parent].children
    {
      if c != child {
        assert c in h[h[c].parent].children - {child};
      }
    }
  }

  /** TransformSystem::IsDescendant: whether `e` lies strictly below `p`, searching the children
      in ascending order. Every node the search enters must have a hierarchy. */
  method IsDescendant(w: World, p: Entity, e: Entity, ghost rank: Ranks) returns (b: bool)
    requires Ranked(w.hier, rank) && p in w.hier
    requires forall x :: Reaches(w.hier, rank, p, x) && x != e ==> x in w.hier
    ensures b <==> Descendant(w.hier, rank, p, e)
    decreases Height(w.hier, rank, p)
  {
    var cs := InOrder(w.hier[p].children);
    for i := 0 to |cs|
      invariant forall j :: 0 <= j < i ==> !Reaches(w.hier, rank, cs[j], e)
    {
      var c := cs[i];
      ReachesThroughChild(w.hier, rank, p, c);
      if c == e {
        assert Reaches(w.hier, rank, c, e);
        return true;
      }
      var below := IsDescendant(w, c, e, rank);
      ReachesUnfold(w.hier, rank, c);
      if below {
        return true;
      }
    }
    return false;
  }

  /** TransformSystem::UpdateRecursive (TransformSystem.cpp): world = parentWorld * local at
      `e`, then down every child, whatever the dirty flags say. */
  method UpdateRecursive(w: World, e: Entity, parentWorld: Mat, ghost rank: Ranks)
    requires Ranked(w.hier, rank)
    requires forall x :: Reaches(w.hier, rank, e, x) ==> x in w.xf
    modifies w`xf
    ensures Propagated(old(w.xf), w.xf, w.hier, rank, WorldRel, old(w.xf).Keys, e, WorldSeed(parentWorld))
    ensures OnlyWorld(old(w.xf), w.xf)
    decreases Height(w.hier, rank, e), 2
  {
    assert Reaches(w.hier, rank, e, e);
    ghost var x := w.xf;
    w.xf := w.xf[e := w.xf[e].(world := Mul(parentWorld, w.xf[e].local))];
    assert UnchangedOutside(x, w.xf, w.hier, rank, x.Keys, {e}) by {
      assert Touched(w.hier, rank, x.Keys, {e}, e);
    }
    if e in w.hier {
      ghost var x0 := w.xf;
      UpdateChildren(w, e, rank);
      ChildrenComplete(x, x0, w.xf, w.hier, rank, WorldRel, x.Keys, e, WorldSeed(parentWorld));
    }
  }

  /** The loop of UpdateRecursive over the children of `e`, in ascending order. */
  method UpdateChildren(w: World, e: Entity, ghost rank: Ranks)
    requires Ranked(w.hier, rank) && e in w.hier && e in w.xf
    requires forall x :: Descendant(w.hier, rank, e, x) ==> x in w.xf
    modifies w`xf
    ensures ChildrenDone(old(w.xf), w.xf, w.hier, rank, WorldRel, old(w.xf).Keys, e, w.hier[e].children)
    ensures OnlyWorld(old(w.xf), w.xf)
    decreases Height(w.hier, rank, e), 1
  {
    ghost var x0 := w.xf;
    var cs := InOrder(w.hier[e].children);
    ghost var done: set<Entity> := {};
    for i := 0 to |cs|
      invariant done == set j | 0 <= j < i :: cs[j]
      invariant ChildrenDone(x0, w.xf, w.hier, rank, WorldRel, x0.Keys, e, done)
      invariant OnlyWorld(x0, w.xf)
    {
      UpdateChild(w, e, cs[i], rank, x0, done);
      done := done + {cs[i]};
    }
  }

  /** One turn of the loop over the children of `e`: UpdateRecursive from child `c`. */
  method UpdateChild(w: World, e: Entity, c: Entity, ghost rank: Ranks, ghost x0: Transforms, ghost done: set<Entity>)
    requires Ranked(w.hier, rank) && e in w.hier && e in w.xf
    requires c in w.hier[e].children && done <= w.hier[e].children && c !in done
    requires forall x :: Descendant(w.hier, rank, e, x) ==> x in x0
    requires ChildrenDone(x0, w.xf, w.hier, rank, WorldRel, x0.Keys, e, done)
    requires OnlyWorld(x0, w.xf)
    modifies w`xf
    ensures ChildrenDone(x0, w.xf, w.hier, rank, WorldRel, x0.Keys, e, done + {c})
    ensures OnlyWorld(x0, w.xf)
    decreases Height(w.hier, rank, e), 0
  {
    ReachesThroughChild(w.hier, rank, e, c);
    ghost var xa := w.xf;
    UpdateRecursive(w, c, w.xf[e].world, rank);
    NotBelowChild(w.hier, rank, e, c);
    assert !Touched(w.hier, rank, x0.Keys, {c}, e);
    ChildStep(x0, xa, w.xf, w.hier, rank, WorldRel, x0.Keys, e, c, done);
  }

  /** The invariant of Run's loop once the entities of `started` are updated. */
  ghost predicate QueueRun(x0: Transforms, xs: Transforms, h: Links, rank: Ranks, started: set<Entity>) {
    && OnlyWorld(x0, xs)
    && UnchangedOutside(x0, xs, h, rank, x0.Keys, started)
    && (Forest(h) && Consistent(h) ==> QueueDone(xs, h, rank, WorldRel, x0.Keys, WorldSeed(Identity), started))
  }

  /** The invariant of Run's loop survives the update from `q`, entered with `parentWorld`. */
  lemma QueuedStep(x0: Transforms, xa: Transforms, xb: Transforms, h: Links, rank: Ranks,
                   started: set<Entity>, q: Entity, parentWorld: Mat)
    requires Ranked(h, rank) && q in h && q in xa
    requires HasParent(h[q]) ==> h[q].parent in xa && parentWorld == xa[h[q].parent].world
    requires !HasParent(h[q]) ==> parentWorld == Identity
    requires started <= x0.Keys && QueueRun(x0, xa, h, rank, started)
    requires Propagated(xa, xb, h, rank, WorldRel, xa.Keys, q, WorldSeed(parentWorld))
    requires OnlyWorld(xa, xb)
    ensures QueueRun(x0, xb, h, rank, started + {q})
  {
    UnchangedCompose(x0, xa, xb, h, rank, x0.Keys, started, {q});
    if Forest(h) && Consistent(h) {
      var seed := if HasParent(h[q]) then xa[h[q].parent] else WorldSeed(Identity);
      assert Propagated(xa, xb, h, rank, WorldRel, x0.Keys, q, seed);
      QueueStep(xa, xb, h, rank, WorldRel, x0.Keys, WorldSeed(Identity), started, q, seed);
    }
  }

  /** One turn of Run's loop: `q` is updated from its parent's world matrix, or from the
      identity when it has no parent. */
  method UpdateQueued(w: World, q: Entity, ghost rank: Ranks, ghost x0: Transforms, ghost started: set<Entity>)
    requires Ranked(w.hier, rank) && q in w.hier && q in w.xf
    requires forall x :: Reaches(w.hier, rank, q, x) ==> x in w.xf
    requires HasParent(w.hier[q]) ==> w.hier[q].parent in w.xf
    requires started <= x0.Keys && QueueRun(x0, w.xf, w.hier, rank, started)
    modifies w`xf
    ensures QueueRun(x0, w.xf, w.hier, rank, started + {q})
  {
    ghost var xa := w.xf;
    var parentWorld := Identity;
    if HasParent(w.hier[q]) {
      parentWorld := w.xf[w.hier[q].parent].world;
    }
    UpdateRecursive(w, q, parentWorld, rank);
    QueuedStep(x0, xa, w.xf, w.hier, rank, started, q, parentWorld);
  }

  /** TransformSystem::Run (TransformSystem.cpp): every queued entity holding a hierarchy and a
      transform is updated from its parent's world matrix, or from the identity when it has no
      parent; then the queue is emptied. */
  method RunQueue(w: World, ghost rank: Ranks)
    requires Ranked(w.hier, rank)
    requires forall q :: q in w.xfQueue && q in w.hier && q in w.xf ==>
               && (forall x :: Reaches(w.hier, rank, q, x) ==> x in w.xf)
               && (HasParent(w.hier[q]) ==> w.hier[q].parent in w.xf)
    modifies w`xf, w`xfQueue
    ensures w.xfQueue == []
    ensures OnlyWorld(old(w.xf), w.xf)
    ensures UnchangedOutside(old(w.xf), w.xf, w.hier, rank, old(w.xf).Keys, Started(old(w.xfQueue), w.hier, old(w.xf)))
    ensures Forest(w.hier) && Consistent(w.hier) ==>
              QueueDone(w.xf, w.hier, rank, WorldRel, old(w.xf).Keys, WorldSeed(Identity),
                        Started(old(w.xfQueue), w.hier, old(w.xf)))
  {
    ghost var x0 := w.xf;
    var queue := w.xfQueue;
    assert UnchangedOutside(x0, w.xf, w.hier, rank, x0.Keys, {});
    for i := 0 to |queue|
      invariant QueueRun(x0, w.xf, w.hier, rank, Started(queue[..i], w.hier, x0))
    {
      var q := queue[i];
      assert queue[..i + 1] == queue[..i] + [q];
      if q in w.hier && q in w.xf {
        assert Started(queue[..i + 1], w.hier, x0) == Started(queue[..i], w.hier, x0) + {q};
        UpdateQueued(w, q, rank, x0, Started(queue[..i], w.hier, x0));
      } else {
        assert Started(queue[..i + 1], w.hier, x0) == Started(queue[..i], w.hier, x0);
      }
    }
    assert queue[..|queue|] == queue;
    w.xfQueue := [];
  }

  /** The link updates of Reparent. */
  method Relink(w: World, child: Entity, newParent: Entity)
    requires child in w.hier
    requires HasParent(w.hier[child]) ==> w.hier[child].parent in w.hier
    modifies w`hier
    ensures w.hier == Relinked(old(w.hier), child, newParent)
  {
    var oldParent := w.hier[child].parent;
    if oldParent != InvalidEntity {
      w.hier := w.hier[oldParent := WithoutChild(w.hier[oldParent], child)];
    }
    w.hier := w.hier[child := w.hier[child].(parent := newParent)];
    if newParent != InvalidEntity && newParent in w.hier {
      w.hier := w.hier[newParent := WithChild(w.hier[newParent], child)];
    }
  }

  /** The pose updates of Reparent, given the links before it (`h`) and the child's world
      matrix saved before them. */
  method Repose(w: World, child: Entity, newParent: Entity, ghost h: Links)
    requires child in w.xf && w.hier.Keys == h.Keys
    modifies w`xf
    ensures w.xf == old(w.xf)[child := Reposed(old(w.xf)[child], h, old(w.xf), newParent)]
  {
    var world := w.xf[child].world;
    if newParent != InvalidEntity && newParent in w.hier {
      if newParent in w.xf {
        w.xf := w.xf[child := Decomposed(w.xf[child], Mul(Inverse(w.xf[newParent].world), world))];
      }
    } else {
      w.xf := w.xf[child := Decomposed(w.xf[child], world)];
    }
  }

  /** TransformSystem::Reparent. Nothing happens when `newParent` already is the parent.
      Otherwise the links are moved (Relinked), the child's pose is rewritten (Reposed) and
      UpdateTransform marks the child's new subtree dirty; one parent-change notification is
      sent, and the child is queued for the visibility pass when it has a MetaComponent. The
      links afterwards must be acyclic, as MarkDirty recurses through them. */
  method Reparent(w: World, child: Entity, newParent: Entity, ghost rank: Ranks)
    requires child in w.hier && child in w.xf
    requires w.hier[child].parent != newParent ==>
               && (HasParent(w.hier[child]) ==> w.hier[child].parent in w.hier)
               && Ranked(Relinked(w.hier, child, newParent), rank)
               && forall x :: Reaches(Relinked(w.hier, child, newParent), rank, child, x) ==> x in w.xf
    modifies w`hier, w`xf, w`parentEvents, w`visQueue
    ensures old(w.hier[child].parent) == newParent ==>
              && w.hier == old(w.hier) && w.xf == old(w.xf)
              && w.parentEvents == old(w.parentEvents) && w.visQueue == old(w.visQueue)
    ensures old(w.hier[child].parent) != newParent ==>
              && w.hier == Relinked(old(w.hier), child, newParent)
              && w.xf == Dirtied(old(w.xf)[child := Refreshed(Reposed(old(w.xf)[child], old(w.hier), old(w.xf), newParent))],
                                 w.hier, rank, {child})
              && w.parentEvents == old(w.parentEvents) + [ParentChange(child, old(w.hier[child].parent), newParent)]
              && w.visQueue == old(w.visQueue) + (if child in w.meta then [child] else [])
  {
    var oldParent := w.hier[child].parent;
    if oldParent == newParent {
      return;
    }
    ghost var h := w.hier;
    ghost var x0 := w.xf;
    Relink(w, child, newParent);
    assert w.hier.Keys == h.Keys by {
      assert forall p :: p in w.hier <==> p in h;
    }
    ghost var h1 := w.hier;
    Repose(w, child, newParent, h);
    ghost var t := Reposed(x0[child], h, x0, newParent);
    assert w.xf == x0[child := t];
    w.UpdateTransform(child, rank);
    assert w.xf == Dirtied(x0[child := Refreshed(t)], h1, rank, {child});
    w.parentEvents := w.parentEvents + [ParentChange(child, oldParent, newParent)];
    if child in w.meta {
      w.MarkEntityDirty(child);
    }
  }
}
