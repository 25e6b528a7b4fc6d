/** TransformSystem as implemented in TransformSystem.h: a first pass over the entities holding
    a transform and a hierarchy but no parent, each updated by the dirty-checking recursion, and
    a second pass over the transforms without a hierarchy. Only dirty nodes are rewritten and
    cleaned; a clean node keeps its world matrix but still passes it down. */
module TransformSystemView {
  import opened Entities
  import opened Geometry
  import opened Components
  import opened SceneGraph
  import opened Propagation
  import opened Scene
  import opened TransformSystem

  /** Same entities, and every field but the world matrix and the dirty flag unchanged. */
  ghost predicate OnlyWorldAndDirty(x0: Transforms, x1: Transforms) {
    x1.Keys == x0.Keys && forall x :: x in x0 ==> x1[x] == x0[x].(world := x1[x].world, dirty := x1[x].dirty)
  }

  /** What a dirty-checking pass from `roots` does: it writes only world matrices and dirty
      flags, leaves every clean transform and every transform outside the subtrees of `roots`
      as it was, and leaves every transform inside them clean. */
  ghost predicate Refreshes(x0: Transforms, x1: Transforms, h: Links, rank: Ranks, roots: set<Entity>) {
    && UnchangedOutside(x0, x1, h, rank, x0.Keys, roots)
    && OnlyWorldAndDirty(x0, x1)
    && (forall x :: x in x0 && !x0[x].dirty ==> x1[x] == x0[x])
    && (forall x :: x in x0 && InSubtrees(h, rank, roots, x) ==> !x1[x].dirty)
  }

  /** What the whole of Run does: it writes only world matrices and dirty flags, and only of
      dirty transforms; it leaves every transform in the subtree of a root, and every transform
      without a hierarchy, clean; it leaves every other transform as it was. */
  ghost predicate RunEffect(x0: Transforms, x1: Transforms, h: Links, rank: Ranks) {
    && OnlyWorldAndDirty(x0, x1)
    && (forall x :: x in x0 && !x0[x].dirty ==> x1[x] == x0[x])
    && (forall x :: x in x0 && (x !in h || InSubtrees(h, rank, Roots(h, x0.Keys), x)) ==> !x1[x].dirty)
    && (forall x :: x in x0 && x in h && !InSubtrees(h, rank, Roots(h, x0.Keys), x) ==> x1[x] == x0[x])
  }

  /** Dirtiness is closed downwards on the links below `e`. */
  ghost predicate DownClosedBelow(xs: Transforms, h: Links, rank: Ranks, e: Entity) {
    forall p, c ::
      (Reaches(h, rank, e, p) && p in h && c in h[p].children && p in xs && c in xs && xs[p].dirty)
      ==> xs[c].dirty
  }

  /** Every link between two clean transforms already agrees. */
  ghost predicate CleanAgree(xs: Transforms, h: Links) {
    forall p, c ::
      (p in h && c in h[p].children && p in xs && c in xs && !xs[p].dirty && !xs[c].dirty)
      ==> WorldRel(xs[p], xs[c])
  }

  /** Every link below `e` between two clean transforms already agrees. */
  ghost predicate CleanAgreeBelow(xs: Transforms, h: Links, rank: Ranks, e: Entity) {
    forall p, c ::
      (Reaches(h, rank, e, p) && p in h && c in h[p].children && p in xs && c in xs &&
       !xs[p].dirty && !xs[c].dirty)
      ==> WorldRel(xs[p], xs[c])
  }

  /** The state below `e` in which the dirty-checking recursion restores agreement. */
  ghost predicate Settled(xs: Transforms, h: Links, rank: Ranks, e: Entity) {
    Forest(h) && DownClosedBelow(xs, h, rank, e) && CleanAgreeBelow(xs, h, rank, e)
  }

  /** Two states hold the same transforms at and below `e`. */
  ghost predicate SameBelow(xa: Transforms, xb: Transforms, h: Links, rank: Ranks, e: Entity) {
    xb.Keys == xa.Keys && forall x :: x in xa && Reaches(h, rank, e, x) ==> xb[x] == xa[x]
  }

  /** The starting points of the first pass: transformed entities with a hierarchy and no
      parent. */
  function Roots(h: Links, keys: set<Entity>): set<Entity> {
    set r | r in h && r in keys && !HasParent(h[r])
  }

  /** The second pass on one transform: a dirty one takes its local matrix as world matrix and
      is cleaned. */
  function Flat(t: Transform): Transform {
    if t.dirty then t.(world := t.local, dirty := false) else t
  }

  /** The second pass on all transforms: those without a hierarchy are flattened. */
  function Flattened(xs: Transforms, h: Links): (r: Transforms)
    ensures r.Keys == xs.Keys
  {
    map x | x in xs :: if x in h then xs[x] else Flat(xs[x])
  }

  lemma RefreshesCompose(x0: Transforms, x1: Transforms, x2: Transforms, h: Links, rank: Ranks,
                         a: set<Entity>, b: set<Entity>)
    requires Refreshes(x0, x1, h, rank, a) && Refreshes(x1, x2, h, rank, b)
    ensures Refreshes(x0, x2, h, rank, a + b)
  {
    UnchangedCompose(x0, x1, x2, h, rank, x0.Keys, a, b);
    forall x | x in x0
      ensures x2[x] == x0[x].(world := x2[x].world, dirty := x2[x].dirty)
      ensures InSubtrees(h, rank, a + b, x) ==> !x2[x].dirty
    {
      assert x1[x] == x0[x].(world := x1[x].world, dirty := x1[x].dirty);
      InSubtreesUnion(h, rank, a, b, x);
      if InSubtrees(h, rank, a, x) && !InSubtrees(h, rank, b, x) {
        assert !Touched(h, rank, x0.Keys, b, x);
      }
    }
  }

  /** The recursion from `e`: `e` itself handled (`x` to `x0`: a dirty `e` is rewritten and
      cleaned, nothing else changes), then the subtrees of its children (`x0` to `x1`). */
  lemma RefreshesNode(x: Transforms, x0: Transforms, x1: Transforms, h: Links, rank: Ranks, e: Entity)
    requires Ranked(h, rank) && e in x
    requires x0.Keys == x.Keys && forall y :: y in x && y != e ==> x0[y] == x[y]
    requires x0[e] == if x[e].dirty then x[e].(world := x0[e].world, dirty := false) else x[e]
    requires Refreshes(x0, x1, h, rank, ChildrenOf(h, e))
    ensures Refreshes(x, x1, h, rank, {e})
  {
    ReachesUnfold(h, rank, e);
    assert Reaches(h, rank, e, e);
    assert !InSubtrees(h, rank, ChildrenOf(h, e), e) by {
      if e in h && InSubtrees(h, rank, ChildrenOf(h, e), e) {
        var d :| d in h[e].children && Reaches(h, rank, d, e);
        NotBelowChild(h, rank, e, d);
      }
    }
    forall y | y in x
      ensures InSubtrees(h, rank, {e}, y) <==> y == e || InSubtrees(h, rank, ChildrenOf(h, e), y)
    {
      if y != e && InSubtrees(h, rank, {e}, y) {
        assert Descendant(h, rank, e, y);
      }
      if InSubtrees(h, rank, ChildrenOf(h, e), y) {
        var d :| d in h[e].children && Reaches(h, rank, d, y);
        assert Descendant(h, rank, e, y);
      }
    }
    forall y | y in x
      ensures x1[y] == x[y].(world := x1[y].world, dirty := x1[y].dirty)
    {
      assert x1[y] == x0[y].(world := x1[y].world, dirty := x1[y].dirty);
    }
    assert !Touched(h, rank, x0.Keys, ChildrenOf(h, e), e);
  }

  /** What holds below a node holds below each of its children. */
  lemma SettledChild(xs: Transforms, h: Links, rank: Ranks, e: Entity, c: Entity)
    requires Ranked(h, rank) && e in h && c in h[e].children
    requires Settled(xs, h, rank, e)
    ensures Settled(xs, h, rank, c)
  {
    ReachesThroughChild(h, rank, e, c);
  }

  /** The whole-scene invariants hold below every node. */
  lemma SettledEverywhere(xs: Transforms, h: Links, rank: Ranks, e: Entity)
    requires Forest(h) && DownClosed(xs, h) && CleanAgree(xs, h)
    ensures Settled(xs, h, rank, e)
  {
  }

  lemma SettledSame(xa: Transforms, xb: Transforms, h: Links, rank: Ranks, e: Entity)
    requires Ranked(h, rank)
    requires SameBelow(xa, xb, h, rank, e) && Settled(xa, h, rank, e)
    ensures Settled(xb, h, rank, e)
  {
    forall p, c | Reaches(h, rank, e, p) && p in h && c in h[p].children
      ensures Reaches(h, rank, e, c)
    {
      ReachesThroughChild(h, rank, p, c);
      ReachesTransitive(h, rank, e, p, c);
    }
  }

  lemma SubtreeAgreesSame(xa: Transforms, xb: Transforms, h: Links, rank: Ranks, e: Entity)
    requires Ranked(h, rank)
    requires SameBelow(xa, xb, h, rank, e)
    requires SubtreeAgrees(xa, h, rank, WorldRel, xa.Keys, e)
    ensures SubtreeAgrees(xb, h, rank, WorldRel, xa.Keys, e)
  {
    forall p, c | Reaches(h, rank, e, p) && p in h && c in h[p].children && c in xa.Keys
      ensures Agrees(xb, WorldRel, p, c)
    {
      ReachesThroughChild(h, rank, p, c);
      ReachesTransitive(h, rank, e, p, c);
      assert Agrees(xa, WorldRel, p, c);
    }
  }

  /** Before the recursion enters child `c` of `e`, the subtree of `c` still holds what it held
      when `e` was entered: `e` itself is not in it, nor is any earlier sibling's subtree. */
  lemma SameBelowChild(xorig: Transforms, x0: Transforms, xa: Transforms, h: Links, rank: Ranks,
                       e: Entity, c: Entity, done: set<Entity>)
    requires Ranked(h, rank) && Forest(h)
    requires e in h && c in h[e].children && done <= h[e].children && c !in done
    requires x0.Keys == xorig.Keys && forall x :: x in xorig && x != e ==> x0[x] == xorig[x]
    requires UnchangedOutside(x0, xa, h, rank, x0.Keys, done)
    ensures SameBelow(xorig, xa, h, rank, c)
  {
    forall x | x in xorig && Reaches(h, rank, c, x)
      ensures xa[x] == xorig[x]
    {
      if x == e {
        NotBelowChild(h, rank, e, c);
      }
      if InSubtrees(h, rank, done, x) {
        var d :| d in done && Reaches(h, rank, d, x);
        SiblingsDisjoint(h, rank, e, d, c, x);
      }
    }
  }

  /** After the recursion from child `c` of `e`, the link from `e` to `c` agrees. */
  lemma ChildAgreesAfter(xorig: Transforms, x0: Transforms, xa: Transforms, xb: Transforms,
                         h: Links, rank: Ranks, e: Entity, c: Entity, done: set<Entity>)
    requires Ranked(h, rank) && Forest(h)
    requires e in h && c in h[e].children && done <= h[e].children && c !in done
    requires e in xorig && c in xorig && x0.Keys == xorig.Keys
    requires forall x :: x in xorig && (x != e || !xorig[x].dirty) ==> x0[x] == xorig[x]
    requires Settled(xorig, h, rank, e)
    requires UnchangedOutside(x0, xa, h, rank, x0.Keys, done)
    requires SameBelow(xorig, xa, h, rank, c)
    requires Refreshes(xa, xb, h, rank, {c})
    requires xa[c].dirty ==> xb[c].world == Mul(xa[e].world, xa[c].local)
    ensures Agrees(xb, WorldRel, e, c)
  {
    assert Reaches(h, rank, e, e);
    assert Reaches(h, rank, c, c);
    assert xb[e] == xa[e] by {
      NotBelowChild(h, rank, e, c);
      assert !Touched(h, rank, xa.Keys, {c}, e);
    }
    if !xa[c].dirty {
      assert xb[c] == xa[c] == xorig[c];
      assert xa[e] == x0[e] by {
        if InSubtrees(h, rank, done, e) {
          var d :| d in done && Reaches(h, rank, d, e);
          NotBelowChild(h, rank, e, d);
        }
      }
      assert !xorig[e].dirty;
    } else {
      assert xb[c] == xa[c].(world := xb[c].world, dirty := xb[c].dirty);
    }
  }

  /** One child `c` of `e` processed by the dirty-checking recursion: both invariants of the
      loop over the children extend to `done + {c}`. */
  lemma DirtyChildStep(xorig: Transforms, x0: Transforms, xa: Transforms, xb: Transforms,
                       h: Links, rank: Ranks, e: Entity, c: Entity, done: set<Entity>)
    requires Ranked(h, rank)
    requires e in h && c in h[e].children && done <= h[e].children && c !in done
    requires e in xorig && c in xorig && x0.Keys == xorig.Keys
    requires forall x :: x in xorig && (x != e || !xorig[x].dirty) ==> x0[x] == xorig[x]
    requires Refreshes(x0, xa, h, rank, done)
    requires Settled(xorig, h, rank, e) ==> ChildrenDone(x0, xa, h, rank, WorldRel, x0.Keys, e, done)
    requires Refreshes(xa, xb, h, rank, {c})
    requires xa[c].dirty ==> xb[c].world == Mul(xa[e].world, xa[c].local)
    requires Settled(xa, h, rank, c) ==> SubtreeAgrees(xb, h, rank, WorldRel, xa.Keys, c)
    ensures Refreshes(x0, xb, h, rank, done + {c})
    ensures Settled(xorig, h, rank, e) ==> ChildrenDone(x0, xb, h, rank, WorldRel, x0.Keys, e, done + {c})
  {
    RefreshesCompose(x0, xa, xb, h, rank, done, {c});
    if Settled(xorig, h, rank, e) {
      SameBelowChild(xorig, x0, xa, h, rank, e, c, done);
      SettledChild(xorig, h, rank, e, c);
      SettledSame(xorig, xa, h, rank, c);
      ChildAgreesAfter(xorig, x0, xa, xb, h, rank, e, c, done);
      ChildStep(x0, xa, xb, h, rank, WorldRel, x0.Keys, e, c, done);
    }
  }

  /** TransformSystem::UpdateRecursive (TransformSystem.h): a dirty `e` takes
      parentWorld * local as world matrix and is cleaned; then, when `e` has a hierarchy, every
      child is entered with the world matrix of `e`. It visits exactly the subtree of `e` and
      leaves it clean; when dirtiness was closed downwards and clean links agreed below `e`,
      every link below `e` agrees afterwards. */
  method UpdateRecursiveDirty(w: World, e: Entity, parentWorld: Mat, ghost rank: Ranks)
    requires Ranked(w.hier, rank) && e in w.xf
    requires forall x :: Reaches(w.hier, rank, e, x) ==> x in w.xf
    modifies w`xf
    ensures Refreshes(old(w.xf), w.xf, w.hier, rank, {e})
    ensures old(w.xf)[e].dirty ==> w.xf[e].world == Mul(parentWorld, old(w.xf)[e].local)
    ensures Settled(old(w.xf), w.hier, rank, e) ==> SubtreeAgrees(w.xf, w.hier, rank, WorldRel, old(w.xf).Keys, e)
    decreases Height(w.hier, rank, e), 2
  {
    ghost var x := w.xf;
    if w.xf[e].dirty {
      w.xf := w.xf[e := w.xf[e].(world := Mul(parentWorld, w.xf[e].local), dirty := false)];
    }
    ghost var x0 := w.xf;
    if e in w.hier {
      UpdateChildrenDirty(w, e, rank, x);
      if Settled(x, w.hier, rank, e) {
        ParentAndChildren(w.xf, w.hier, rank, WorldRel, x.Keys, e);
      }
    }
    RefreshesNode(x, x0, w.xf, w.hier, rank, e);
  }

  /** The invariant of the loop over the children of `e` once the children of `done` are
      processed: `xorig` is the state before `e` was handled, `x0` the state after. */
  ghost predicate ChildrenRefreshed(xorig: Transforms, x0: Transforms, xs: Transforms, h: Links,
                                    rank: Ranks, e: Entity, done: set<Entity>)
  {
    && Refreshes(x0, xs, h, rank, done)
    && (Settled(xorig, h, rank, e) ==> ChildrenDone(x0, xs, h, rank, WorldRel, x0.Keys, e, done))
  }

  /** The loop of the dirty-checking UpdateRecursive over the children of `e`, in ascending
      order; `xorig` is the state before `e` itself was handled. */
  method UpdateChildrenDirty(w: World, e: Entity, ghost rank: Ranks, ghost xorig: Transforms)
    requires Ranked(w.hier, rank) && e in w.hier && e in w.xf
    requires forall x :: Descendant(w.hier, rank, e, x) ==> x in w.xf
    requires w.xf.Keys == xorig.Keys
    requires forall x :: x in xorig && (x != e || !xorig[x].dirty) ==> w.xf[x] == xorig[x]
    modifies w`xf
    ensures ChildrenRefreshed(xorig, old(w.xf), w.xf, w.hier, rank, e, w.hier[e].children)
    decreases Height(w.hier, rank, e), 1
  {
    ghost var x0 := w.xf;
    var cs := InOrder(w.hier[e].children);
    ghost var done: set<Entity> := {};
    for i := 0 to |cs|
      invariant w.xf.Keys == x0.Keys
      invariant done == set j | 0 <= j < i :: cs[j]
      invariant ChildrenRefreshed(xorig, x0, w.xf, w.hier, rank, e, done)
    {
      UpdateChildDirty(w, e, cs[i], rank, xorig, x0, done);
      done := done + {cs[i]};
    }
  }

  /** One turn of the loop over the children of `e`: the recursion from child `c`. */
  method UpdateChildDirty(w: World, e: Entity, c: Entity, ghost rank: Ranks, ghost xorig: Transforms,
                          ghost x0: Transforms, ghost done: set<Entity>)
    requires Ranked(w.hier, rank) && e in w.hier && e in w.xf
    requires c in w.hier[e].children && done <= w.hier[e].children && c !in done
    requires forall x :: Descendant(w.hier, rank, e, x) ==> x in x0
    requires e in xorig && x0.Keys == xorig.Keys && w.xf.Keys == x0.Keys
    requires forall x :: x in xorig && (x != e || !xorig[x].dirty) ==> x0[x] == xorig[x]
    requires ChildrenRefreshed(xorig, x0, w.xf, w.hier, rank, e, done)
    modifies w`xf
    ensures w.xf.Keys == x0.Keys
    ensures ChildrenRefreshed(xorig, x0, w.xf, w.hier, rank, e, done + {c})
    decreases Height(w.hier, rank, e), 0
  {
    ReachesThroughChild(w.hier, rank, e, c);
    ghost var xa := w.xf;
    UpdateRecursiveDirty(w, c, w.xf[e].world, rank);
    DirtyChildStep(xorig, x0, xa, w.xf, w.hier, rank, e, c, done);
  }

  /** The state in which the first pass makes every link below a root agree: a consistent
      forest whose dirtiness is closed downwards and whose clean links agree. */
  ghost predicate Prepared(xs: Transforms, h: Links) {
    Forest(h) && Consistent(h) && DownClosed(xs, h) && CleanAgree(xs, h)
  }

  /** The invariant of the first pass once the roots of `done` are processed. */
  ghost predicate RootsRefreshed(x0: Transforms, xs: Transforms, h: Links, rank: Ranks, done: set<Entity>) {
    && Refreshes(x0, xs, h, rank, done)
    && (Prepared(x0, h) ==> forall d :: d in done ==> SubtreeAgrees(xs, h, rank, WorldRel, x0.Keys, d))
  }

  /** Before the recursion enters root `r`, its subtree holds what it held before the pass. */
  lemma SameBelowRoot(x0: Transforms, xa: Transforms, h: Links, rank: Ranks, r: Entity, done: set<Entity>)
    requires Ranked(h, rank) && Prepared(x0, h)
    requires r in Roots(h, x0.Keys) && done <= Roots(h, x0.Keys) && r !in done
    requires UnchangedOutside(x0, xa, h, rank, x0.Keys, done)
    ensures Settled(xa, h, rank, r)
  {
    forall x | x in x0 && Reaches(h, rank, r, x)
      ensures xa[x] == x0[x]
    {
      if InSubtrees(h, rank, done, x) {
        var d :| d in done && Reaches(h, rank, d, x);
        RootsDisjoint(h, rank, d, r, x);
      }
    }
    SettledEverywhere(x0, h, rank, r);
    SettledSame(x0, xa, h, rank, r);
  }

  /** The recursion from root `r` leaves the links below the earlier roots agreeing. */
  lemma OtherRootsKept(x0: Transforms, xa: Transforms, xb: Transforms, h: Links, rank: Ranks,
                       r: Entity, done: set<Entity>)
    requires Ranked(h, rank) && Prepared(x0, h) && xa.Keys == x0.Keys
    requires r in Roots(h, x0.Keys) && done <= Roots(h, x0.Keys) && r !in done
    requires forall d :: d in done ==> SubtreeAgrees(xa, h, rank, WorldRel, x0.Keys, d)
    requires UnchangedOutside(xa, xb, h, rank, xa.Keys, {r})
    ensures forall d :: d in done ==> SubtreeAgrees(xb, h, rank, WorldRel, x0.Keys, d)
  {
    forall d | d in done
      ensures SubtreeAgrees(xb, h, rank, WorldRel, x0.Keys, d)
    {
      forall x | Reaches(h, rank, d, x)
        ensures !Reaches(h, rank, r, x)
      {
        RootsDisjoint(h, rank, d, r, x);
      }
      SubtreeKept(xa, xb, h, rank, WorldRel, x0.Keys, d, r);
    }
  }

  /** The invariant of the first pass survives the recursion from root `r`. */
  lemma RootStep(x0: Transforms, xa: Transforms, xb: Transforms, h: Links, rank: Ranks,
                 r: Entity, done: set<Entity>)
    requires Ranked(h, rank)
    requires r in Roots(h, x0.Keys) && done <= Roots(h, x0.Keys) && r !in done
    requires xa.Keys == x0.Keys && RootsRefreshed(x0, xa, h, rank, done)
    requires Refreshes(xa, xb, h, rank, {r})
    requires Settled(xa, h, rank, r) ==> SubtreeAgrees(xb, h, rank, WorldRel, xa.Keys, r)
    ensures RootsRefreshed(x0, xb, h, rank, done + {r})
  {
    RefreshesCompose(x0, xa, xb, h, rank, done, {r});
    if Prepared(x0, h) {
      SameBelowRoot(x0, xa, h, rank, r, done);
      OtherRootsKept(x0, xa, xb, h, rank, r, done);
    }
  }

  /** One turn of the first pass: the recursion from root `r`. */
  method UpdateRoot(w: World, r: Entity, ghost rank: Ranks, ghost x0: Transforms, ghost done: set<Entity>)
    requires Ranked(w.hier, rank)
    requires r in Roots(w.hier, x0.Keys) && done <= Roots(w.hier, x0.Keys) && r !in done
    requires forall x :: Reaches(w.hier, rank, r, x) ==> x in x0
    requires w.xf.Keys == x0.Keys
    requires RootsRefreshed(x0, w.xf, w.hier, rank, done)
    modifies w`xf
    ensures w.xf.Keys == x0.Keys
    ensures RootsRefreshed(x0, w.xf, w.hier, rank, done + {r})
  {
    ghost var xa := w.xf;
    UpdateRecursiveDirty(w, r, Identity, rank);
    RootStep(x0, xa, w.xf, w.hier, rank, r, done);
  }

  /** The first pass of TransformSystem::Run: the recursion from every root, in ascending
      entity order. */
  method UpdateRoots(w: World, ghost rank: Ranks)
    requires Ranked(w.hier, rank)
    requires forall r, x :: r in Roots(w.hier, w.xf.Keys) && Reaches(w.hier, rank, r, x) ==> x in w.xf
    modifies w`xf
    ensures RootsRefreshed(old(w.xf), w.xf, w.hier, rank, Roots(w.hier, old(w.xf).Keys))
  {
    ghost var x0 := w.xf;
    var rs := InOrder(Roots(w.hier, w.xf.Keys));
    ghost var done: set<Entity> := {};
    for i := 0 to |rs|
      invariant w.xf.Keys == x0.Keys
      invariant done == set j | 0 <= j < i :: rs[j]
      invariant RootsRefreshed(x0, w.xf, w.hier, rank, done)
    {
      UpdateRoot(w, rs[i], rank, x0, done);
      done := done + {rs[i]};
    }
  }

  /** The second pass after the transforms of `done` were handled. */
  function FlattenedOn(xs: Transforms, h: Links, done: set<Entity>): (r: Transforms)
    ensures r.Keys == xs.Keys
  {
    map x | x in xs :: if x in done && x !in h then Flat(xs[x]) else xs[x]
  }

  lemma FlattenedStep(xs: Transforms, h: Links, done: set<Entity>, e: Entity)
    requires e in xs && e !in done
    ensures FlattenedOn(xs, h, done + {e}) == FlattenedOn(xs, h, done)[e := if e in h then xs[e] else Flat(xs[e])]
    ensures FlattenedOn(xs, h, done)[e] == xs[e]
  {
  }

  lemma FlattenedAll(xs: Transforms, h: Links)
    ensures FlattenedOn(xs, h, xs.Keys) == Flattened(xs, h)
  {
  }

  /** One turn of the second pass: transform `e`, when it has no hierarchy, is flattened. */
  method UpdateUnlinkedOne(w: World, e: Entity, ghost x0: Transforms, ghost done: set<Entity>)
    requires e in x0 && e !in done && w.xf == FlattenedOn(x0, w.hier, done)
    modifies w`xf
    ensures w.xf == FlattenedOn(x0, w.hier, done + {e})
  {
    FlattenedStep(x0, w.hier, done, e);
    if e !in w.hier && w.xf[e].dirty {
      w.xf := w.xf[e := w.xf[e].(world := w.xf[e].local, dirty := false)];
    }
  }

  /** The second pass of TransformSystem::Run: each transform without a hierarchy, in
      ascending entity order, is flattened. */
  method UpdateUnlinked(w: World)
    modifies w`xf
    ensures w.xf == Flattened(old(w.xf), w.hier)
  {
    ghost var x0 := w.xf;
    var ks := InOrder(w.xf.Keys);
    ghost var done: set<Entity> := {};
    for i := 0 to |ks|
      invariant done == set j | 0 <= j < i :: ks[j]
      invariant w.xf == FlattenedOn(x0, w.hier, done)
    {
      UpdateUnlinkedOne(w, ks[i], x0, done);
      done := done + {ks[i]};
    }
    assert done == x0.Keys;
    FlattenedAll(x0, w.hier);
  }

  /** The first pass followed by the second is what RunEffect says, and the second pass leaves
      the subtrees of the roots alone. */
  lemma PassesCompose(x0: Transforms, x1: Transforms, h: Links, rank: Ranks)
    requires Refreshes(x0, x1, h, rank, Roots(h, x0.Keys))
    ensures RunEffect(x0, Flattened(x1, h), h, rank)
    ensures forall r :: r in Roots(h, x0.Keys) ==> SameBelow(x1, Flattened(x1, h), h, rank, r)
  {
    var x2 := Flattened(x1, h);
    forall x | x in x0
      ensures x2[x] == x0[x].(world := x2[x].world, dirty := x2[x].dirty)
    {
      assert x1[x] == x0[x].(world := x1[x].world, dirty := x1[x].dirty);
    }
    forall x | x in x0 && x in h && !InSubtrees(h, rank, Roots(h, x0.Keys), x)
      ensures x2[x] == x0[x]
    {
      assert !Touched(h, rank, x0.Keys, Roots(h, x0.Keys), x);
    }
    forall r, x | r in Roots(h, x0.Keys) && x in x1 && Reaches(h, rank, r, x)
      ensures x2[x] == x1[x]
    {
      assert InSubtrees(h, rank, Roots(h, x0.Keys), x);
    }
  }

  /** TransformSystem::Run (TransformSystem.h): RunEffect; a dirty transform without a
      hierarchy outside the subtrees of the roots takes its local matrix as world matrix; on a
      consistent forest whose dirtiness is closed downwards and whose clean links agree, every
      link below a root agrees afterwards. Every root and everything below it must hold a
      transform (unchecked dereferences in the source). */
  method Run(w: World, ghost rank: Ranks)
    requires Ranked(w.hier, rank)
    requires forall r, x :: r in Roots(w.hier, w.xf.Keys) && Reaches(w.hier, rank, r, x) ==> x in w.xf
    modifies w`xf
    ensures RunEffect(old(w.xf), w.xf, w.hier, rank)
    ensures forall x :: x in old(w.xf) && x !in w.hier && !InSubtrees(w.hier, rank, Roots(w.hier, old(w.xf).Keys), x) ==>
              w.xf[x] == Flat(old(w.xf)[x])
    ensures Forest(w.hier) && Consistent(w.hier) && DownClosed(old(w.xf), w.hier) && CleanAgree(old(w.xf), w.hier) ==>
              forall r :: r in Roots(w.hier, old(w.xf).Keys) ==> SubtreeAgrees(w.xf, w.hier, rank, WorldRel, old(w.xf).Keys, r)
  {
    ghost var x0 := w.xf;
    UpdateRoots(w, rank);
    ghost var x1 := w.xf;
    UpdateUnlinked(w);
    PassesCompose(x0, x1, w.hier, rank);
    forall x | x in x0 && x !in w.hier && !InSubtrees(w.hier, rank, Roots(w.hier, x0.Keys), x)
      ensures x1[x] == x0[x]
    {
      assert !Touched(w.hier, rank, x0.Keys, Roots(w.hier, x0.Keys), x);
    }
    if Prepared(x0, w.hier) {
      forall r | r in Roots(w.hier, x0.Keys)
        ensures SubtreeAgrees(w.xf, w.hier, rank, WorldRel, x0.Keys, r)
      {
        SubtreeAgreesSame(x1, w.xf, w.hier, rank, r);
      }
    }
  }

  /** Two Runs in a row with nothing changed in between: the second changes nothing. */
  lemma RunIdempotent(x0: Transforms, x1: Transforms, x2: Transforms, h: Links, rank: Ranks)
    requires RunEffect(x0, x1, h, rank) && RunEffect(x1, x2, h, rank)
    ensures x2 == x1
  {
    forall x | x in x1
      ensures x2[x] == x1[x]
    {
      if x !in h || InSubtrees(h, rank, Roots(h, x0.Keys), x) {
        assert !x1[x].dirty;
      }
    }
  }
}
