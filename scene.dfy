/** The scene as the ECS passes see it: one registry holding the HierarchyComponent,
    TransformComponent, MetaComponent and MeshComponent storages, looked up by exact entity
    (the corrected lookup of ComponentStorage), plus the queues and the event log that the
    systems keep. The transform operations of TransformComponent live here because they reach
    into the registry. */
module Scene {
  import opened Entities
  import opened Geometry
  import opened Components
  import opened SceneGraph

  type Transforms = map<Entity, Transform>

  /** The payload of TransformSystem::onEntityChangedParent. */
  datatype ParentChange = ParentChange(child: Entity, oldParent: Entity, newParent: Entity)

  /** The transforms with the dirty flag set on every node reached from `roots`. */
  ghost function Dirtied(xs: Transforms, h: Links, rank: Ranks, roots: set<Entity>): (r: Transforms)
    ensures r.Keys == xs.Keys
  {
    map x | x in xs :: xs[x].(dirty := xs[x].dirty || InSubtrees(h, rank, roots, x))
  }

  /** The children of `a`, or none when `a` has no hierarchy. */
  function ChildrenOf(h: Links, a: Entity): set<Entity> {
    if a in h then h[a].children else {}
  }

  /** Dirtiness is closed downwards: the child of a dirty node is dirty. */
  ghost predicate DownClosed(xs: Transforms, h: Links) {
    forall p, c :: p in h && c in h[p].children && p in xs && c in xs && xs[p].dirty ==> xs[c].dirty
  }

  /** The local matrix recomputed from the pose, as UpdateTransform does before marking. */
  function Refreshed(t: Transform): Transform {
    t.(local := LocalOf(t))
  }

  lemma {:induction false} DirtiedTwice(xs: Transforms, h: Links, rank: Ranks, a: set<Entity>, b: set<Entity>)
    ensures Dirtied(Dirtied(xs, h, rank, a), h, rank, b) == Dirtied(xs, h, rank, a + b)
  {
    forall x | x in xs
      ensures InSubtrees(h, rank, a + b, x) <==> InSubtrees(h, rank, a, x) || InSubtrees(h, rank, b, x)
    {
      if InSubtrees(h, rank, a + b, x) {
        var r :| r in a + b && Reaches(h, rank, r, x);
        assert r in a ==> InSubtrees(h, rank, a, x);
      }
    }
  }

  /** Marking `e` is setting its own flag and marking below its children. */
  lemma DirtiedFromChildren(xs: Transforms, h: Links, rank: Ranks, e: Entity)
    requires Ranked(h, rank) && e in xs
    ensures Dirtied(xs[e := xs[e].(dirty := true)], h, rank, ChildrenOf(h, e)) == Dirtied(xs, h, rank, {e})
  {
    ReachesUnfold(h, rank, e);
    forall x | x in xs
      ensures InSubtrees(h, rank, {e}, x) <==> x == e || InSubtrees(h, rank, ChildrenOf(h, e), x)
    {
      if InSubtrees(h, rank, ChildrenOf(h, e), x) {
        var c :| c in ChildrenOf(h, e) && Reaches(h, rank, c, x);
        assert Descendant(h, rank, e, x);
      }
      if x == e {
        assert Reaches(h, rank, e, e);
      }
    }
  }

  /** What MarkDirty does, in words: it sets the flag of `e` and of every descendant of `e`,
      never clears a flag, and touches no other field. Without a hierarchy it sets only the flag
      of `e`. */
  lemma MarkDirtyMeaning(xs: Transforms, h: Links, rank: Ranks, e: Entity)
    requires Ranked(h, rank)
    ensures forall x :: x in xs ==>
              (Dirtied(xs, h, rank, {e})[x].dirty <==> xs[x].dirty || x == e || Descendant(h, rank, e, x))
    ensures forall x :: x in xs ==> Dirtied(xs, h, rank, {e})[x].(dirty := xs[x].dirty) == xs[x]
    ensures e !in h && e in xs ==> Dirtied(xs, h, rank, {e}) == xs[e := xs[e].(dirty := true)]
  {
    ReachesUnfold(h, rank, e);
    forall x | x in xs
      ensures InSubtrees(h, rank, {e}, x) <==> Reaches(h, rank, e, x)
    {
      if Reaches(h, rank, e, x) {
        assert e in {e};
      }
    }
  }

  /** After MarkDirty, dirtiness stays closed downwards. */
  lemma MarkDirtyKeepsDownClosed(xs: Transforms, h: Links, rank: Ranks, e: Entity)
    requires Ranked(h, rank) && DownClosed(xs, h)
    ensures DownClosed(Dirtied(xs, h, rank, {e}), h)
  {
    var ys := Dirtied(xs, h, rank, {e});
    forall p, c | p in h && c in h[p].children && p in ys && c in ys && ys[p].dirty
      ensures ys[c].dirty
    {
      if !xs[p].dirty {
        var r :| r in {e} && Reaches(h, rank, r, p);
        ReachesThroughChild(h, rank, p, c);
        ReachesTransitive(h, rank, e, p, c);
        assert InSubtrees(h, rank, {e}, c);
      }
    }
  }

  /** The HierarchyComponent(parent) constructor as written, followed by AddComponent: the
      constructor inserts the component's own `entity` field into the parent's children before
      AddComponent has stamped it, so the id inserted is whatever `unstamped` the field held.
      The new component is stored only when `e` has none. */
  function AttachedAsWritten(h: Links, e: Entity, parent: Entity, unstamped: Entity): Links
    requires parent in h
  {
    var linked := h[parent := WithChild(h[parent], unstamped)];
    if e in linked then linked else linked[e := Hierarchy(parent, {})]
  }

  /** The constructor as intended: it is `e` that joins the parent's children. */
  function Attached(h: Links, e: Entity, parent: Entity): Links
    requires parent in h
  {
    AttachedAsWritten(h, e, parent, e)
  }

  /** Attaching an entity that no hierarchy mentions yet below an existing parent keeps the
      links consistent, and the two links between the child and its parent agree. */
  lemma AttachedKeepsConsistent(h: Links, e: Entity, parent: Entity)
    requires Consistent(h) && parent in h && e != InvalidEntity
    requires e !in h && forall p :: p in h ==> e !in h[p].children && h[p].parent != e
    ensures Consistent(Attached(h, e, parent))
    ensures e in Attached(h, e, parent)[parent].children && Attached(h, e, parent)[e].parent == parent
  {
    var h' := Attached(h, e, parent);
    forall p, c | p in h' && c in h'[p].children && c in h'
      ensures h'[c].parent == p
    {
      if c != e {
        assert c in h && c in h[p].children;
      }
    }
    forall c | c in h' && h'[c].parent in h'
      ensures c in h'[h'[c].parent].children
    {
      if c != e {
        assert h'[c].parent == h[c].parent && h[c].parent in h;
      }
    }
  }

  /** As written, the constructor breaks the link: the field is uninitialised, and with it
      holding 0, say, entity 2 attached below entity 1 names 1 as its parent while 1 does not
      list 2 as a child. */
  lemma AttachedAsWrittenBreaksLink()
    ensures var h := map[1 := RootHierarchy];
            && Consistent(h)
            && AttachedAsWritten(h, 2, 1, 0)[2].parent == 1
            && 2 !in AttachedAsWritten(h, 2, 1, 0)[1].children
            && !Consistent(AttachedAsWritten(h, 2, 1, 0))
  {
    var h := map[1 := RootHierarchy];
    var h' := AttachedAsWritten(h, 2, 1, 0);
    assert h'[1].children == {0};
    assert 2 in h' && h'[2].parent in h' && 2 !in h'[h'[2].parent].children;
  }

  /** Whatever value other than `e` the uninitialised field holds, attaching a fresh entity
      below an existing parent leaves the parent without that child while the child names the
      parent. */
  lemma AttachedAsWrittenUnlinks(h: Links, e: Entity, parent: Entity, unstamped: Entity)
    requires parent in h && e !in h && e !in h[parent].children && unstamped != e
    ensures e in AttachedAsWritten(h, e, parent, unstamped)
    ensures AttachedAsWritten(h, e, parent, unstamped)[e].parent == parent
    ensures e !in AttachedAsWritten(h, e, parent, unstamped)[parent].children
    ensures !Consistent(AttachedAsWritten(h, e, parent, unstamped))
  {
    var h' := AttachedAsWritten(h, e, parent, unstamped);
    assert parent != e;
    assert e in h' && h'[e].parent in h' && e !in h'[h'[e].parent].children;
  }

  /** The TransformComponent(pos, eulerDegrees, scale) constructor's pose: the rotation from the
      Euler angles, the local matrix from the pose, and the dirty flag set. */
  function Posed(pos: Vec3, eulerDegrees: Vec3, scl: Vec3): Transform {
    Refreshed(DefaultTransform.(position := pos, scale := scl, rotation := FromEulerDegrees(eulerDegrees)))
  }

  /** As written, the constructor of a transform for entity 1 marks the children of whatever
      entity its uninitialised field names: with it holding 5, say, the child 6 of entity 5
      becomes dirty, while the
      intended marking, from entity 1 itself, leaves 6 alone. */
  lemma PosedAsWrittenMarksStranger(rank: Ranks)
    requires rank == map[5 := 1, 6 := 0]
    ensures var h := map[5 := Hierarchy(InvalidEntity, {6})];
            var xs := map[6 := DefaultTransform.(dirty := false)];
            && Ranked(h, rank)
            && Dirtied(xs, h, rank, ChildrenOf(h, 5))[6].dirty
            && Dirtied(xs, h, rank, ChildrenOf(h, 1)) == xs
  {
    var h := map[5 := Hierarchy(InvalidEntity, {6})];
    assert Reaches(h, rank, 6, 6);
    assert InSubtrees(h, rank, ChildrenOf(h, 5), 6);
  }

  class World {
    var hier: Links
    var xf: Transforms
    var meta: map<Entity, Meta>
    var mesh: map<Entity, Mesh>
    /** VisibilitySystem::dirtyEntities. */
    var visQueue: seq<Entity>
    /** TransformSystem::dirtyEntities. */
    var xfQueue: seq<Entity>
    /** The notifications sent through TransformSystem::onEntityChangedParent, in order. */
    var parentEvents: seq<ParentChange>

    constructor()
      ensures hier == map[] && xf == map[] && meta == map[] && mesh == map[]
      ensures visQueue == [] && xfQueue == [] && parentEvents == []
    {
      hier, xf, meta, mesh := map[], map[], map[], map[];
      visQueue, xfQueue, parentEvents := [], [], [];
    }

    /** TransformComponent::MarkDirty on the transform of `e`: its own flag, then every child's
        transform, recursively. The recursion ends because the links are ranked, and every node
        it reaches must hold a transform, since the source dereferences the lookup unchecked. */
    method MarkDirty(e: Entity, ghost rank: Ranks)
      requires Ranked(hier, rank)
      requires forall x :: Reaches(hier, rank, e, x) ==> x in xf
      modifies this`xf
      ensures xf == Dirtied(old(xf), hier, rank, {e})
      decreases Height(hier, rank, e), 1
    {
      assert Reaches(hier, rank, e, e);
      ghost var x0 := xf;
      xf := xf[e := xf[e].(dirty := true)];
      MarkBelow(e, rank);
      DirtiedFromChildren(x0, hier, rank, e);
    }

    /** The loop of MarkDirty over the children of `a`. */
    method MarkBelow(a: Entity, ghost rank: Ranks)
      requires Ranked(hier, rank)
      requires forall x :: Descendant(hier, rank, a, x) ==> x in xf
      modifies this`xf
      ensures xf == Dirtied(old(xf), hier, rank, ChildrenOf(hier, a))
      decreases Height(hier, rank, a), 0
    {
      if a !in hier {
        assert Dirtied(xf, hier, rank, {}) == xf;
        return;
      }
      ghost var x0 := xf;
      var cs := InOrder(hier[a].children);
      ghost var done: set<Entity> := {};
      assert Dirtied(x0, hier, rank, {}) == x0;
      for i := 0 to |cs|
        invariant done == set j | 0 <= j < i :: cs[j]
        invariant xf == Dirtied(x0, hier, rank, done)
      {
        ReachesThroughChild(hier, rank, a, cs[i]);
        MarkDirty(cs[i], rank);
        DirtiedTwice(x0, hier, rank, done, {cs[i]});
        done := done + {cs[i]};
      }
      assert done == hier[a].children;
    }

    /** TransformComponent::MarkClean: clears the flag of `e` only. */
    method MarkClean(e: Entity)
      requires e in xf
      modifies this`xf
      ensures xf == old(xf)[e := old(xf)[e].(dirty := false)]
    {
      xf := xf[e := xf[e].(dirty := false)];
    }

    /** TransformComponent::UpdateTransform: the local matrix from the pose, then MarkDirty. */
    method UpdateTransform(e: Entity, ghost rank: Ranks)
      requires e in xf && Ranked(hier, rank)
      requires forall x :: Reaches(hier, rank, e, x) ==> x in xf
      modifies this`xf
      ensures xf == Dirtied(old(xf)[e := Refreshed(old(xf)[e])], hier, rank, {e})
      ensures xf[e].dirty && xf[e].local == LocalOf(xf[e])
    {
      xf := xf[e := Refreshed(xf[e])];
      MarkDirty(e, rank);
      MarkDirtyMeaning(old(xf)[e := Refreshed(old(xf)[e])], hier, rank, e);
    }

    /** The setters of TransformComponent: each changes the pose and ends in UpdateTransform. */
    method SetPosition(e: Entity, position: Vec3, ghost rank: Ranks)
      requires e in xf && Ranked(hier, rank)
      requires forall x :: Reaches(hier, rank, e, x) ==> x in xf
      modifies this`xf
      ensures xf == Dirtied(old(xf)[e := Refreshed(old(xf)[e].(position := position))], hier, rank, {e})
      ensures xf[e].dirty && xf[e].position == position && xf[e].local == LocalOf(xf[e])
    {
      xf := xf[e := xf[e].(position := position)];
      UpdateTransform(e, rank);
    }

    method AddPosition(e: Entity, delta: Vec3, ghost rank: Ranks)
      requires e in xf && Ranked(hier, rank)
      requires forall x :: Reaches(hier, rank, e, x) ==> x in xf
      modifies this`xf
      ensures var t := old(xf)[e];
              xf == Dirtied(old(xf)[e := Refreshed(t.(position := VecSum(t.position, delta)))], hier, rank, {e})
      ensures xf[e].dirty && xf[e].local == LocalOf(xf[e])
    {
      xf := xf[e := xf[e].(position := VecSum(xf[e].position, delta))];
      UpdateTransform(e, rank);
    }

    method SetRotation(e: Entity, rotation: Quat, ghost rank: Ranks)
      requires e in xf && Ranked(hier, rank)
      requires forall x :: Reaches(hier, rank, e, x) ==> x in xf
      modifies this`xf
      ensures xf == Dirtied(old(xf)[e := Refreshed(old(xf)[e].(rotation := rotation))], hier, rank, {e})
      ensures xf[e].dirty && xf[e].rotation == rotation && xf[e].local == LocalOf(xf[e])
    {
      xf := xf[e := xf[e].(rotation := rotation)];
      UpdateTransform(e, rank);
    }

    method AddRotation(e: Entity, delta: Quat, ghost rank: Ranks)
      requires e in xf && Ranked(hier, rank)
      requires forall x :: Reaches(hier, rank, e, x) ==> x in xf
      modifies this`xf
      ensures var t := old(xf)[e];
              xf == Dirtied(old(xf)[e := Refreshed(t.(rotation := QuatProduct(delta, t.rotation)))], hier, rank, {e})
      ensures xf[e].dirty && xf[e].local == LocalOf(xf[e])
    {
      xf := xf[e := xf[e].(rotation := QuatProduct(delta, xf[e].rotation))];
      UpdateTransform(e, rank);
    }

    method SetRotationEulerDegrees(e: Entity, degrees: Vec3, ghost rank: Ranks)
      requires e in xf && Ranked(hier, rank)
      requires forall x :: Reaches(hier, rank, e, x) ==> x in xf
      modifies this`xf
      ensures xf == Dirtied(old(xf)[e := Refreshed(old(xf)[e].(rotation := FromEulerDegrees(degrees)))], hier, rank, {e})
      ensures xf[e].dirty && xf[e].rotation == FromEulerDegrees(degrees) && xf[e].local == LocalOf(xf[e])
    {
      xf := xf[e := xf[e].(rotation := FromEulerDegrees(degrees))];
      UpdateTransform(e, rank);
    }

    method AddRotationEulerDegrees(e: Entity, degrees: Vec3, ghost rank: Ranks)
      requires e in xf && Ranked(hier, rank)
      requires forall x :: Reaches(hier, rank, e, x) ==> x in xf
      modifies this`xf
      ensures var t := old(xf)[e];
              xf == Dirtied(old(xf)[e := Refreshed(t.(rotation := QuatProduct(FromEulerDegrees(degrees), t.rotation)))],
                            hier, rank, {e})
      ensures xf[e].dirty && xf[e].local == LocalOf(xf[e])
    {
      xf := xf[e := xf[e].(rotation := QuatProduct(FromEulerDegrees(degrees), xf[e].rotation))];
      UpdateTransform(e, rank);
    }

    method SetScale(e: Entity, scale: Vec3, ghost rank: Ranks)
      requires e in xf && Ranked(hier, rank)
      requires forall x :: Reaches(hier, rank, e, x) ==> x in xf
      modifies this`xf
      ensures xf == Dirtied(old(xf)[e := Refreshed(old(xf)[e].(scale := scale))], hier, rank, {e})
      ensures xf[e].dirty && xf[e].scale == scale && xf[e].local == LocalOf(xf[e])
    {
      xf := xf[e := xf[e].(scale := scale)];
      UpdateTransform(e, rank);
    }

    /** AddComponent<HierarchyComponent>(e): a root hierarchy, stored only when `e` has none. */
    method AddHierarchy(e: Entity) returns (r: Hierarchy)
      modifies this`hier
      ensures hier == if e in old(hier) then old(hier) else old(hier)[e := RootHierarchy]
      ensures r == hier[e] && (e !in old(hier) ==> !HasParent(r) && r.children == {})
    {
      if e !in hier {
        hier := hier[e := RootHierarchy];
      }
      r := hier[e];
    }

    /** AddComponent<HierarchyComponent>(e, parent) as written; see AttachedAsWritten. The
        parent must have a hierarchy: the constructor dereferences the lookup unchecked. */
    method AttachHierarchyAsWritten(e: Entity, parent: Entity, unstamped: Entity) returns (r: Hierarchy)
      requires parent in hier
      modifies this`hier
      ensures hier == AttachedAsWritten(old(hier), e, parent, unstamped)
      ensures r == hier[e]
    {
      hier := hier[parent := WithChild(hier[parent], unstamped)];
      if e !in hier {
        hier := hier[e := Hierarchy(parent, {})];
      }
      r := hier[e];
    }

    /** AddComponent<HierarchyComponent>(e, parent) with the child id the constructor means. */
    method AttachHierarchy(e: Entity, parent: Entity) returns (r: Hierarchy)
      requires parent in hier
      modifies this`hier
      ensures hier == Attached(old(hier), e, parent)
      ensures r == hier[e]
    {
      r := AttachHierarchyAsWritten(e, parent, e);
    }

    /** AddComponent<TransformComponent>(e, pos, eulerDegrees, scale) as written: the
        constructor's UpdateTransform runs MarkDirty on the component before AddComponent has
        stamped its `entity` field, so the children of whatever `unstamped` names are marked. */
    method AddTransformAsWritten(e: Entity, pos: Vec3, eulerDegrees: Vec3, scl: Vec3,
                                 unstamped: Entity, ghost rank: Ranks) returns (r: Transform)
      requires Ranked(hier, rank)
      requires forall x :: Descendant(hier, rank, unstamped, x) ==> x in xf
      modifies this`xf
      ensures var marked := Dirtied(old(xf), hier, rank, ChildrenOf(hier, unstamped));
              xf == if e in marked then marked else marked[e := Posed(pos, eulerDegrees, scl)]
      ensures r == xf[e]
    {
      MarkBelow(unstamped, rank);
      if e !in xf {
        xf := xf[e := Posed(pos, eulerDegrees, scl)];
      }
      r := xf[e];
    }

    /** The same with the marking done from `e`, the entity the component is for. */
    method AddTransform(e: Entity, pos: Vec3, eulerDegrees: Vec3, scl: Vec3, ghost rank: Ranks)
      returns (r: Transform)
      requires Ranked(hier, rank)
      requires forall x :: Descendant(hier, rank, e, x) ==> x in xf
      modifies this`xf
      ensures var marked := Dirtied(old(xf), hier, rank, ChildrenOf(hier, e));
              xf == if e in marked then marked else marked[e := Posed(pos, eulerDegrees, scl)]
      ensures r == xf[e] && (e !in old(xf) ==> r.dirty && r.local == LocalOf(r))
    {
      r := AddTransformAsWritten(e, pos, eulerDegrees, scl, e, rank);
    }

    /** VisibilitySystem::MarkEntityDirty: appends to the queue, without deduplication. */
    method MarkEntityDirty(e: Entity)
      modifies this`visQueue
      ensures visQueue == old(visQueue) + [e]
    {
      visQueue := visQueue + [e];
    }
  }
}
