/** The shape shared by the recursive passes that push a value from a node down to its subtree
    (world matrices in TransformSystem, effective visibility in VisibilitySystem): each visited
    child's value is made to agree with its parent's value under a relation `rel`. Only the nodes
    of `eligible` are visited; a queue of starting nodes is processed one after another. */
module Propagation {
  import opened Entities
  import opened Components
  import opened SceneGraph

  /** The link from `p` to `c` agrees: `c` holds what `p` propagates to it. */
  ghost predicate Agrees<V>(xs: map<Entity, V>, rel: (V, V) -> bool, p: Entity, c: Entity) {
    p in xs && c in xs && rel(xs[p], xs[c])
  }

  /** Every link below `e` into an eligible child agrees. */
  ghost predicate SubtreeAgrees<V>(xs: map<Entity, V>, h: Links, rank: Ranks, rel: (V, V) -> bool,
                                   eligible: set<Entity>, e: Entity)
  {
    forall p, c :: Reaches(h, rank, e, p) && p in h && c in h[p].children && c in eligible ==>
      Agrees(xs, rel, p, c)
  }

  /** The eligible nodes below some of `roots`: the only nodes a pass from `roots` may write. */
  ghost predicate Touched(h: Links, rank: Ranks, eligible: set<Entity>, roots: set<Entity>, x: Entity) {
    x in eligible && InSubtrees(h, rank, roots, x)
  }

  /** Same keys, and every value outside the touched nodes is unchanged. */
  ghost predicate UnchangedOutside<V>(x0: map<Entity, V>, x1: map<Entity, V>, h: Links, rank: Ranks,
                                      eligible: set<Entity>, roots: set<Entity>)
  {
    x1.Keys == x0.Keys &&
    forall x :: x in x0 && !Touched(h, rank, eligible, roots, x) ==> x1[x] == x0[x]
  }

  /** What one recursive call from `e` with the parent value `seed` achieves. */
  ghost predicate Propagated<V>(x0: map<Entity, V>, x1: map<Entity, V>, h: Links, rank: Ranks,
                                rel: (V, V) -> bool, eligible: set<Entity>, e: Entity, seed: V)
  {
    && UnchangedOutside(x0, x1, h, rank, eligible, {e})
    && (e in eligible ==> e in x1 && rel(seed, x1[e]))
    && (Forest(h) ==> SubtreeAgrees(x1, h, rank, rel, eligible, e))
  }

  /** The invariant of the loop over the children of `e`, once the children in `done` are
      processed: x0 is the state after `e` itself was written. */
  ghost predicate ChildrenDone<V>(x0: map<Entity, V>, xs: map<Entity, V>, h: Links, rank: Ranks,
                                  rel: (V, V) -> bool, eligible: set<Entity>, e: Entity,
                                  done: set<Entity>)
  {
    && UnchangedOutside(x0, xs, h, rank, eligible, done)
    && (Forest(h) ==>
          forall d :: d in done ==>
            (d in eligible ==> Agrees(xs, rel, e, d)) && SubtreeAgrees(xs, h, rank, rel, eligible, d))
  }

  /** A queued node `q` agrees with its parent, or with the root value when it has none. */
  ghost predicate Seeded<V>(xs: map<Entity, V>, h: Links, rel: (V, V) -> bool, rootSeed: V, q: Entity)
    requires q in h
  {
    if HasParent(h[q]) then h[q].parent in h ==> Agrees(xs, rel, h[q].parent, q)
    else q in xs && rel(rootSeed, xs[q])
  }

  /** The invariant of a queue-driven pass once the nodes of `done` are processed. */
  ghost predicate QueueDone<V>(xs: map<Entity, V>, h: Links, rank: Ranks, rel: (V, V) -> bool,
                               eligible: set<Entity>, rootSeed: V, done: set<Entity>)
  {
    forall q :: q in done ==>
      q in h && Seeded(xs, h, rel, rootSeed, q) && SubtreeAgrees(xs, h, rank, rel, eligible, q)
  }

  lemma InSubtreesUnion(h: Links, rank: Ranks, a: set<Entity>, b: set<Entity>, x: Entity)
    ensures InSubtrees(h, rank, a + b, x) <==> InSubtrees(h, rank, a, x) || InSubtrees(h, rank, b, x)
  {
    if InSubtrees(h, rank, a + b, x) {
      var r :| r in a + b && Reaches(h, rank, r, x);
      assert r in a ==> InSubtrees(h, rank, a, x);
    }
  }

  lemma UnchangedCompose<V>(x0: map<Entity, V>, x1: map<Entity, V>, x2: map<Entity, V>, h: Links,
                            rank: Ranks, eligible: set<Entity>, a: set<Entity>, b: set<Entity>)
    requires UnchangedOutside(x0, x1, h, rank, eligible, a)
    requires UnchangedOutside(x1, x2, h, rank, eligible, b)
    ensures UnchangedOutside(x0, x2, h, rank, eligible, a + b)
  {
    forall x | x in x0 && !Touched(h, rank, eligible, a + b, x)
      ensures x2[x] == x0[x]
    {
      InSubtreesUnion(h, rank, a, b, x);
    }
  }

  /** Links whose two ends keep their values keep agreeing. */
  lemma SubtreeKept<V>(xa: map<Entity, V>, xb: map<Entity, V>, h: Links, rank: Ranks,
                       rel: (V, V) -> bool, eligible: set<Entity>, d: Entity, c: Entity)
    requires Ranked(h, rank)
    requires UnchangedOutside(xa, xb, h, rank, eligible, {c})
    requires forall x :: Reaches(h, rank, d, x) ==> !Reaches(h, rank, c, x)
    requires SubtreeAgrees(xa, h, rank, rel, eligible, d)
    ensures SubtreeAgrees(xb, h, rank, rel, eligible, d)
  {
    forall p, c' | Reaches(h, rank, d, p) && p in h && c' in h[p].children && c' in eligible
      ensures Agrees(xb, rel, p, c')
    {
      ReachesThroughChild(h, rank, p, c');
      ReachesTransitive(h, rank, d, p, c');
      assert !Touched(h, rank, eligible, {c}, p) && !Touched(h, rank, eligible, {c}, c');
    }
  }

  /** One child `c` of `e` processed: the children loop invariant extends to `done + {c}`. */
  lemma ChildStep<V>(x0: map<Entity, V>, xa: map<Entity, V>, xb: map<Entity, V>, h: Links,
                     rank: Ranks, rel: (V, V) -> bool, eligible: set<Entity>, e: Entity,
                     c: Entity, done: set<Entity>)
    requires Ranked(h, rank)
    requires e in h && c in h[e].children && done <= h[e].children && c !in done
    requires ChildrenDone(x0, xa, h, rank, rel, eligible, e, done)
    requires UnchangedOutside(xa, xb, h, rank, eligible, {c})
    requires Forest(h) ==>
               (c in eligible ==> Agrees(xb, rel, e, c)) && SubtreeAgrees(xb, h, rank, rel, eligible, c)
    ensures ChildrenDone(x0, xb, h, rank, rel, eligible, e, done + {c})
  {
    UnchangedCompose(x0, xa, xb, h, rank, eligible, done, {c});
    if Forest(h) {
      forall d | d in done
        ensures (d in eligible ==> Agrees(xb, rel, e, d)) && SubtreeAgrees(xb, h, rank, rel, eligible, d)
      {
        forall x | Reaches(h, rank, d, x)
          ensures !Reaches(h, rank, c, x)
        {
          SiblingsDisjoint(h, rank, e, d, c, x);
        }
        NotBelowChild(h, rank, e, c);
        assert !Touched(h, rank, eligible, {c}, d);
        SubtreeKept(xa, xb, h, rank, rel, eligible, d, c);
      }
    }
  }

  /** A node is never below one of its own children. */
  lemma NotBelowChild(h: Links, rank: Ranks, e: Entity, c: Entity)
    requires Ranked(h, rank)
    requires e in h && c in h[e].children
    ensures !Reaches(h, rank, c, e)
  {
    if Reaches(h, rank, c, e) {
      ReachesHeight(h, rank, c, e);
    }
  }

  /** After `e` was written with `seed` and every child was processed, the whole call from `e`
      has done what Propagated says. */
  lemma ChildrenComplete<V>(x: map<Entity, V>, x0: map<Entity, V>, x1: map<Entity, V>, h: Links,
                            rank: Ranks, rel: (V, V) -> bool, eligible: set<Entity>, e: Entity,
                            seed: V)
    requires Ranked(h, rank)
    requires e in h && e in eligible
    requires UnchangedOutside(x, x0, h, rank, eligible, {e})
    requires e in x0 && rel(seed, x0[e])
    requires ChildrenDone(x0, x1, h, rank, rel, eligible, e, h[e].children)
    ensures Propagated(x, x1, h, rank, rel, eligible, e, seed)
  {
    ChildrenWithin(h, rank, eligible, e);
    UnchangedCompose(x, x0, x1, h, rank, eligible, {e}, h[e].children);
    assert UnchangedOutside(x, x1, h, rank, eligible, {e} + h[e].children);
    assert !Touched(h, rank, eligible, h[e].children, e);
    if Forest(h) {
      ParentAndChildren(x1, h, rank, rel, eligible, e);
    }
  }

  /** The subtrees of the children of `e` lie inside the subtree of `e`, and do not hold `e`. */
  lemma ChildrenWithin(h: Links, rank: Ranks, eligible: set<Entity>, e: Entity)
    requires Ranked(h, rank)
    requires e in h
    ensures forall x :: Touched(h, rank, eligible, {e} + h[e].children, x) ==>
                          Touched(h, rank, eligible, {e}, x)
    ensures !Touched(h, rank, eligible, h[e].children, e)
  {
    forall x | Touched(h, rank, eligible, {e} + h[e].children, x)
      ensures Touched(h, rank, eligible, {e}, x)
    {
      var r :| r in {e} + h[e].children && Reaches(h, rank, r, x);
      if r != e {
        ReachesThroughChild(h, rank, e, r);
      }
    }
    if Touched(h, rank, eligible, h[e].children, e) {
      var d :| d in h[e].children && Reaches(h, rank, d, e);
      NotBelowChild(h, rank, e, d);
    }
  }

  /** The links of `e` to its children, and the links inside their subtrees, are all the links
      below `e`. */
  lemma ParentAndChildren<V>(xs: map<Entity, V>, h: Links, rank: Ranks, rel: (V, V) -> bool,
                             eligible: set<Entity>, e: Entity)
    requires Ranked(h, rank) && e in h
    requires forall d :: d in h[e].children ==>
               (d in eligible ==> Agrees(xs, rel, e, d)) && SubtreeAgrees(xs, h, rank, rel, eligible, d)
    ensures SubtreeAgrees(xs, h, rank, rel, eligible, e)
  {
    ReachesUnfold(h, rank, e);
    forall p, c | Reaches(h, rank, e, p) && p in h && c in h[p].children && c in eligible
      ensures Agrees(xs, rel, p, c)
    {
      if p != e {
        var d :| d in h[e].children && Reaches(h, rank, d, p);
      }
    }
  }

  /** A link keeps agreeing across one call of the queue-driven pass from `q`. */
  lemma AgreesAfter<V>(xa: map<Entity, V>, xb: map<Entity, V>, h: Links, rank: Ranks,
                       rel: (V, V) -> bool, eligible: set<Entity>, rootSeed: V, q: Entity, seed: V,
                       p: Entity, c: Entity)
    requires Ranked(h, rank) && Forest(h) && Consistent(h)
    requires q in h && q in eligible
    requires HasParent(h[q]) ==> h[q].parent in xa && seed == xa[h[q].parent]
    requires !HasParent(h[q]) ==> seed == rootSeed
    requires Propagated(xa, xb, h, rank, rel, eligible, q, seed)
    requires p in h && c in h[p].children && c in eligible
    requires Agrees(xa, rel, p, c) || c == q
    ensures Agrees(xb, rel, p, c)
  {
    if Reaches(h, rank, q, c) {
      if Reaches(h, rank, q, p) {
      } else {
        EdgeIntoSubtree(h, rank, q, p, c);
        assert !Touched(h, rank, eligible, {q}, p);
      }
    } else {
      assert !Touched(h, rank, eligible, {q}, c);
      if Reaches(h, rank, q, p) {
        ReachesThroughChild(h, rank, p, c);
        ReachesTransitive(h, rank, q, p, c);
      }
      assert !Touched(h, rank, eligible, {q}, p);
    }
  }

  /** One queued node processed: the queue invariant extends to `done + {q}`. */
  lemma QueueStep<V>(xa: map<Entity, V>, xb: map<Entity, V>, h: Links, rank: Ranks,
                     rel: (V, V) -> bool, eligible: set<Entity>, rootSeed: V, done: set<Entity>,
                     q: Entity, seed: V)
    requires Ranked(h, rank) && Forest(h) && Consistent(h)
    requires q in h && q in eligible && done <= eligible
    requires HasParent(h[q]) ==> h[q].parent in xa && seed == xa[h[q].parent]
    requires !HasParent(h[q]) ==> seed == rootSeed
    requires Propagated(xa, xb, h, rank, rel, eligible, q, seed)
    requires QueueDone(xa, h, rank, rel, eligible, rootSeed, done)
    ensures QueueDone(xb, h, rank, rel, eligible, rootSeed, done + {q})
  {
    forall q0 | q0 in done
      ensures SubtreeAgrees(xb, h, rank, rel, eligible, q0)
    {
      forall p, c | Reaches(h, rank, q0, p) && p in h && c in h[p].children && c in eligible
        ensures Agrees(xb, rel, p, c)
      {
        AgreesAfter(xa, xb, h, rank, rel, eligible, rootSeed, q, seed, p, c);
      }
    }
    forall q0 | q0 in done + {q}
      ensures Seeded(xb, h, rel, rootSeed, q0)
    {
      SeededAfter(xa, xb, h, rank, rel, eligible, rootSeed, done, q, seed, q0);
    }
  }

  lemma SeededAfter<V>(xa: map<Entity, V>, xb: map<Entity, V>, h: Links, rank: Ranks,
                       rel: (V, V) -> bool, eligible: set<Entity>, rootSeed: V, done: set<Entity>,
                       q: Entity, seed: V, q0: Entity)
    requires Ranked(h, rank) && Forest(h) && Consistent(h)
    requires q in h && q in eligible && done <= eligible
    requires HasParent(h[q]) ==> h[q].parent in xa && seed == xa[h[q].parent]
    requires !HasParent(h[q]) ==> seed == rootSeed
    requires Propagated(xa, xb, h, rank, rel, eligible, q, seed)
    requires QueueDone(xa, h, rank, rel, eligible, rootSeed, done)
    requires q0 in done + {q}
    ensures q0 in h && Seeded(xb, h, rel, rootSeed, q0)
  {
    if HasParent(h[q0]) {
      var p := h[q0].parent;
      if p in h {
        if q0 == q {
          NotBelowChild(h, rank, p, q);
          assert !Touched(h, rank, eligible, {q}, p);
        } else {
          AgreesAfter(xa, xb, h, rank, rel, eligible, rootSeed, q, seed, p, q0);
        }
      }
    } else if q0 != q && Touched(h, rank, eligible, {q}, q0) {
      ReachesParent(h, rank, q, q0);
    }
  }
}
