/** VisibilitySystem (VisibilitySystem.cpp): effective visibility is the conjunction of the own
    visibility flags on the way down from a queued entity. The recursion only enters entities
    holding both a MetaComponent and a HierarchyComponent, so it works on the hierarchy links
    restricted to those entities. */
module VisibilitySystem {
  import opened Entities
  import opened Components
  import opened SceneGraph
  import opened Propagation
  import opened Scene

  type Metas = map<Entity, Meta>

  /** The links the recursion walks: the hierarchies of the entities that also hold a
      MetaComponent. A child without one is still listed, but nothing below it is. */
  function VisLinks(h: Links, ms: Metas): Links {
    map e | e in h && e in ms :: h[e]
  }

  /** A child's effective visibility is its parent's effective visibility and its own flag. */
  predicate VisRel(p: Meta, c: Meta) {
    c.effectiveVisibility == (p.effectiveVisibility && c.visibility)
  }

  /** A stand-in parent whose effective visibility is `v`. */
  function VisSeed(v: bool): Meta {
    DefaultMeta.(effectiveVisibility := v)
  }

  /** Same entities, and every field but the effective visibility unchanged. */
  ghost predicate OnlyEffective(m0: Metas, m1: Metas) {
    m1.Keys == m0.Keys &&
    forall x :: x in m0 ==> m1[x] == m0[x].(effectiveVisibility := m1[x].effectiveVisibility)
  }

  /** The queued entities Run actually starts from: those holding a MetaComponent and a
      HierarchyComponent. */
  ghost function VisStarted(queue: seq<Entity>, h: Links, ms: Metas): set<Entity> {
    set q | q in queue && q in h && q in ms
  }

  /** Restricting the links keeps them ranked. */
  lemma VisLinksRanked(h: Links, ms: Metas, rank: Ranks)
    requires Ranked(h, rank)
    ensures Ranked(VisLinks(h, ms), rank)
  {
    var v := VisLinks(h, ms);
    forall p, c | p in v && c in v[p].children
      ensures Height(v, rank, c) < Height(v, rank, p)
    {
      assert Height(v, rank, c) <= Height(h, rank, c);
    }
  }

  /** Restricting the links keeps a forest a forest and consistent links consistent. */
  lemma VisLinksShape(h: Links, ms: Metas)
    ensures Forest(h) ==> Forest(VisLinks(h, ms))
    ensures Consistent(h) ==> Consistent(VisLinks(h, ms))
  {
  }

  /** VisibilitySystem::UpdateVisibilityRecursive: nothing happens at an entity that lacks a
      MetaComponent or a HierarchyComponent; otherwise its effective visibility becomes
      `parentVisible && visibility` and every child is entered with that value. Only
      effective visibilities below `e` change, and on a forest every link below `e` agrees
      afterwards. */
  method UpdateVisibilityRecursive(w: World, e: Entity, parentVisible: bool, ghost rank: Ranks)
    requires Ranked(w.hier, rank)
    modifies w`meta
    ensures Propagated(old(w.meta), w.meta, VisLinks(w.hier, old(w.meta)), rank, VisRel,
                       VisLinks(w.hier, old(w.meta)).Keys, e, VisSeed(parentVisible))
    ensures OnlyEffective(old(w.meta), w.meta)
    decreases Height(w.hier, rank, e), 2
  {
    ghost var v := VisLinks(w.hier, w.meta);
    VisLinksRanked(w.hier, w.meta, rank);
    if e !in w.meta || e !in w.hier {
      assert forall x :: x in w.meta && Touched(v, rank, v.Keys, {e}, x) ==> x == e;
      return;
    }
    assert Reaches(v, rank, e, e);
    ghost var m := w.meta;
    w.meta := w.meta[e := w.meta[e].(effectiveVisibility := parentVisible && w.meta[e].visibility)];
    assert UnchangedOutside(m, w.meta, v, rank, v.Keys, {e}) by {
      assert Touched(v, rank, v.Keys, {e}, e);
    }
    ghost var m0 := w.meta;
    VisibleChildren(w, e, rank);
    ChildrenComplete(m, m0, w.meta, v, rank, VisRel, v.Keys, e, VisSeed(parentVisible));
  }

  /** The loop of UpdateVisibilityRecursive over the children of `e`, in ascending order. */
  method VisibleChildren(w: World, e: Entity, ghost rank: Ranks)
    requires Ranked(w.hier, rank) && e in w.hier && e in w.meta
    modifies w`meta
    ensures ChildrenDone(old(w.meta), w.meta, VisLinks(w.hier, old(w.meta)), rank, VisRel,
                         VisLinks(w.hier, old(w.meta)).Keys, e, w.hier[e].children)
    ensures OnlyEffective(old(w.meta), w.meta)
    decreases Height(w.hier, rank, e), 1
  {
    ghost var m0 := w.meta;
    ghost var v := VisLinks(w.hier, w.meta);
    var cs := InOrder(w.hier[e].children);
    ghost var done: set<Entity> := {};
    for i := 0 to |cs|
      invariant done == set j | 0 <= j < i :: cs[j]
      invariant ChildrenDone(m0, w.meta, v, rank, VisRel, v.Keys, e, done)
      invariant OnlyEffective(m0, w.meta)
    {
      VisibleChild(w, e, cs[i], rank, m0, done);
      done := done + {cs[i]};
    }
  }

  /** One turn of the loop over the children of `e`: the recursion from child `c`, entered
      with the effective visibility of `e`. */
  method VisibleChild(w: World, e: Entity, c: Entity, ghost rank: Ranks, ghost m0: Metas,
                      ghost done: set<Entity>)
    requires Ranked(w.hier, rank) && e in w.hier && e in w.meta
    requires c in w.hier[e].children && done <= w.hier[e].children && c !in done
    requires ChildrenDone(m0, w.meta, VisLinks(w.hier, m0), rank, VisRel, VisLinks(w.hier, m0).Keys, e, done)
    requires OnlyEffective(m0, w.meta)
    modifies w`meta
    ensures ChildrenDone(m0, w.meta, VisLinks(w.hier, m0), rank, VisRel, VisLinks(w.hier, m0).Keys, e, done + {c})
    ensures OnlyEffective(m0, w.meta)
    decreases Height(w.hier, rank, e), 0
  {
    ghost var v := VisLinks(w.hier, m0);
    assert VisLinks(w.hier, w.meta) == v;
    VisLinksRanked(w.hier, m0, rank);
    ghost var ma := w.meta;
    UpdateVisibilityRecursive(w, c, w.meta[e].effectiveVisibility, rank);
    NotBelowChild(v, rank, e, c);
    assert !Touched(v, rank, v.Keys, {c}, e);
    ChildStep(m0, ma, w.meta, v, rank, VisRel, v.Keys, e, c, done);
  }

  /** A node below `e` gets the same effective visibility from any two calls that both do what
      UpdateVisibilityRecursive promises from the same state. */
  lemma {:induction false} VisDeterminedAt(m0: Metas, ma: Metas, mb: Metas, v: Links, rank: Ranks,
                                           e: Entity, seed: Meta, x: Entity)
    requires Ranked(v, rank) && Forest(v) && v.Keys <= m0.Keys
    requires Propagated(m0, ma, v, rank, VisRel, v.Keys, e, seed) && OnlyEffective(m0, ma)
    requires Propagated(m0, mb, v, rank, VisRel, v.Keys, e, seed) && OnlyEffective(m0, mb)
    requires x in v && Reaches(v, rank, e, x)
    ensures ma[x].effectiveVisibility == mb[x].effectiveVisibility
    decreases Height(v, rank, e) - Height(v, rank, x)
  {
    ReachesHeight(v, rank, e, x);
    if x != e {
      ReachesParent(v, rank, e, x);
      var p :| Reaches(v, rank, e, p) && p in v && x in v[p].children;
      assert Agrees(ma, VisRel, p, x) && Agrees(mb, VisRel, p, x);
      ReachesHeight(v, rank, e, p);
      VisDeterminedAt(m0, ma, mb, v, rank, e, seed, p);
    }
  }

  /** Two calls that both do what UpdateVisibilityRecursive promises from the same state end in
      the same state: on a forest its postcondition determines the result. */
  lemma VisDetermined(m0: Metas, ma: Metas, mb: Metas, v: Links, rank: Ranks, e: Entity, seed: Meta)
    requires Ranked(v, rank) && Forest(v) && v.Keys <= m0.Keys
    requires Propagated(m0, ma, v, rank, VisRel, v.Keys, e, seed) && OnlyEffective(m0, ma)
    requires Propagated(m0, mb, v, rank, VisRel, v.Keys, e, seed) && OnlyEffective(m0, mb)
    ensures ma == mb
  {
    forall x | x in m0
      ensures ma[x] == mb[x]
    {
      if Touched(v, rank, v.Keys, {e}, x) {
        VisDeterminedAt(m0, ma, mb, v, rank, e, seed, x);
      }
    }
  }

  /** Calling UpdateVisibilityRecursive twice with the same arguments: the second call changes
      nothing. */
  lemma UpdateVisibilityIdempotent(m0: Metas, m1: Metas, m2: Metas, h: Links, rank: Ranks,
                                   e: Entity, parentVisible: bool)
    requires Ranked(h, rank) && Forest(h)
    requires Propagated(m0, m1, VisLinks(h, m0), rank, VisRel, VisLinks(h, m0).Keys, e, VisSeed(parentVisible))
    requires OnlyEffective(m0, m1)
    requires Propagated(m1, m2, VisLinks(h, m1), rank, VisRel, VisLinks(h, m1).Keys, e, VisSeed(parentVisible))
    requires OnlyEffective(m1, m2)
    ensures m2 == m1
  {
    var v := VisLinks(h, m1);
    assert v == VisLinks(h, m0);
    VisLinksRanked(h, m1, rank);
    VisLinksShape(h, m1);
    assert Propagated(m1, m1, v, rank, VisRel, v.Keys, e, VisSeed(parentVisible));
    VisDetermined(m1, m1, m2, v, rank, e, VisSeed(parentVisible));
  }

  /** The invariant of Run's loop once the entities of `started` are processed. */
  ghost predicate VisQueueRun(m0: Metas, ms: Metas, h: Links, rank: Ranks, started: set<Entity>) {
    && OnlyEffective(m0, ms)
    && UnchangedOutside(m0, ms, VisLinks(h, m0), rank, VisLinks(h, m0).Keys, started)
    && (Forest(h) && Consistent(h) ==>
          QueueDone(ms, VisLinks(h, m0), rank, VisRel, VisLinks(h, m0).Keys, VisSeed(true), started))
  }

  /** The invariant of Run's loop survives the call from `q`, entered with `parentVisible`. */
  lemma VisQueuedStep(m0: Metas, ma: Metas, mb: Metas, h: Links, rank: Ranks,
                      started: set<Entity>, q: Entity, parentVisible: bool)
    requires Ranked(h, rank) && q in h
    requires HasParent(h[q]) ==> h[q].parent in ma && parentVisible == ma[h[q].parent].effectiveVisibility
    requires !HasParent(h[q]) ==> parentVisible
    requires started <= VisLinks(h, m0).Keys && VisQueueRun(m0, ma, h, rank, started)
    requires Propagated(ma, mb, VisLinks(h, ma), rank, VisRel, VisLinks(h, ma).Keys, q, VisSeed(parentVisible))
    requires OnlyEffective(ma, mb)
    ensures VisQueueRun(m0, mb, h, rank, started + (if q in m0 then {q} else {}))
  {
    var v := VisLinks(h, m0);
    assert VisLinks(h, ma) == v;
    if q in m0 {
      VisQueuedEntered(m0, ma, mb, h, rank, started, q, parentVisible);
    } else {
      VisQueuedSkipped(ma, mb, v, rank, q, parentVisible);
      assert started + (if q in m0 then {q} else {}) == started;
    }
  }

  /** A queued entity without a MetaComponent: the call from it changes nothing. */
  lemma VisQueuedSkipped(ma: Metas, mb: Metas, v: Links, rank: Ranks, q: Entity, parentVisible: bool)
    requires q !in v
    requires Propagated(ma, mb, v, rank, VisRel, v.Keys, q, VisSeed(parentVisible))
    ensures mb == ma
  {
    forall x | x in ma
      ensures mb[x] == ma[x]
    {
      assert !Touched(v, rank, v.Keys, {q}, x) by {
        if Reaches(v, rank, q, x) {
          assert x == q;
        }
      }
    }
  }

  /** VisQueuedStep for a queued entity that holds a MetaComponent. */
  lemma VisQueuedEntered(m0: Metas, ma: Metas, mb: Metas, h: Links, rank: Ranks,
                         started: set<Entity>, q: Entity, parentVisible: bool)
    requires Ranked(h, rank) && q in h && q in m0
    requires HasParent(h[q]) ==> h[q].parent in ma && parentVisible == ma[h[q].parent].effectiveVisibility
    requires !HasParent(h[q]) ==> parentVisible
    requires started <= VisLinks(h, m0).Keys && VisQueueRun(m0, ma, h, rank, started)
    requires Propagated(ma, mb, VisLinks(h, m0), rank, VisRel, VisLinks(h, m0).Keys, q, VisSeed(parentVisible))
    requires OnlyEffective(ma, mb)
    ensures VisQueueRun(m0, mb, h, rank, started + {q})
  {
    var v := VisLinks(h, m0);
    VisLinksRanked(h, m0, rank);
    VisLinksShape(h, m0);
    UnchangedCompose(m0, ma, mb, v, rank, v.Keys, started, {q});
    if Forest(h) && Consistent(h) {
      var seed := if HasParent(h[q]) then ma[h[q].parent] else VisSeed(true);
      assert Propagated(ma, mb, v, rank, VisRel, v.Keys, q, seed);
      QueueStep(ma, mb, v, rank, VisRel, v.Keys, VisSeed(true), started, q, seed);
    }
  }

  /** One turn of Run's loop: `q` is entered with its parent's effective visibility, or with
      true when it has no parent. */
  method VisibleQueued(w: World, q: Entity, ghost rank: Ranks, ghost m0: Metas, ghost started: set<Entity>)
    requires Ranked(w.hier, rank) && q in w.hier
    requires HasParent(w.hier[q]) ==> w.hier[q].parent in w.meta
    requires started <= VisLinks(w.hier, m0).Keys && VisQueueRun(m0, w.meta, w.hier, rank, started)
    modifies w`meta
    ensures VisQueueRun(m0, w.meta, w.hier, rank, started + (if q in m0 then {q} else {}))
  {
    ghost var ma := w.meta;
    var parentVisible := true;
    if HasParent(w.hier[q]) {
      parentVisible := w.meta[w.hier[q].parent].effectiveVisibility;
    }
    UpdateVisibilityRecursive(w, q, parentVisible, rank);
    VisQueuedStep(m0, ma, w.meta, w.hier, rank, started, q, parentVisible);
  }

  /** VisibilitySystem::Run: every queued entity, in queue order, is entered with its parent's
      effective visibility, or with true when it has no parent; then the queue is emptied. Only
      effective visibilities below the queued entities change, and on a consistent forest every
      queued entity agrees with its parent and every link below it agrees. Every queued entity
      must hold a hierarchy and a valid parent must hold a MetaComponent (unchecked lookups in
      the source). */
  method Run(w: World, ghost rank: Ranks)
    requires Ranked(w.hier, rank)
    requires forall q :: q in w.visQueue ==> q in w.hier && (HasParent(w.hier[q]) ==> w.hier[q].parent in w.meta)
    modifies w`meta, w`visQueue
    ensures w.visQueue == []
    ensures OnlyEffective(old(w.meta), w.meta)
    ensures UnchangedOutside(old(w.meta), w.meta, VisLinks(w.hier, old(w.meta)), rank,
                             VisLinks(w.hier, old(w.meta)).Keys, VisStarted(old(w.visQueue), w.hier, old(w.meta)))
    ensures Forest(w.hier) && Consistent(w.hier) ==>
              QueueDone(w.meta, VisLinks(w.hier, old(w.meta)), rank, VisRel, VisLinks(w.hier, old(w.meta)).Keys,
                        VisSeed(true), VisStarted(old(w.visQueue), w.hier, old(w.meta)))
  {
    ghost var m0 := w.meta;
    var queue := w.visQueue;
    assert UnchangedOutside(m0, w.meta, VisLinks(w.hier, m0), rank, VisLinks(w.hier, m0).Keys, {});
    for i := 0 to |queue|
      invariant VisQueueRun(m0, w.meta, w.hier, rank, VisStarted(queue[..i], w.hier, m0))
    {
      var q := queue[i];
      assert queue[..i + 1] == queue[..i] + [q];
      assert VisStarted(queue[..i + 1], w.hier, m0) ==
             VisStarted(queue[..i], w.hier, m0) + (if q in m0 then {q} else {});
      VisibleQueued(w, q, rank, m0, VisStarted(queue[..i], w.hier, m0));
    }
    assert queue[..|queue|] == queue;
    w.visQueue := [];
  }
}
