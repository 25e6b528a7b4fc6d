/** Reachability through HierarchyComponent child links. The editor's recursive passes descend
    from a node into each of its children; they terminate only because the links are acyclic.
    Acyclicity is witnessed by a ghost `rank` map that strictly decreases along every child
    link, and reachability is defined along links that decrease it. */
module SceneGraph {
  import opened Entities
  import opened Components

  /** The HierarchyComponent storage: one record per entity that has one. */
  type Links = map<Entity, Hierarchy>

  type Ranks = map<Entity, nat>

  /** The height of a node under `rank`; 0 for a node without a hierarchy or a rank. */
  function Height(h: Links, rank: Ranks, a: Entity): nat {
    if a in h && a in rank then rank[a] + 1 else 0
  }

  /** The height strictly decreases along every child link, so the links have no cycle. */
  ghost predicate Ranked(h: Links, rank: Ranks) {
    forall p, c :: p in h && c in h[p].children ==> Height(h, rank, c) < Height(h, rank, p)
  }

  /** `x` is `a`, or lies below `a` along child links. */
  ghost predicate Reaches(h: Links, rank: Ranks, a: Entity, x: Entity)
    decreases Height(h, rank, a)
  {
    || a == x
    || (a in h && exists c :: c in h[a].children && Height(h, rank, c) < Height(h, rank, a)
                              && Reaches(h, rank, c, x))
  }

  /** `x` is a strict descendant of `a`: it lies below one of the children of `a`. */
  ghost predicate Descendant(h: Links, rank: Ranks, a: Entity, x: Entity) {
    a in h && exists c :: c in h[a].children && Reaches(h, rank, c, x)
  }

  /** Some node of `roots` reaches `x`. */
  ghost predicate InSubtrees(h: Links, rank: Ranks, roots: set<Entity>, x: Entity) {
    exists r :: r in roots && Reaches(h, rank, r, x)
  }

  /** No node is listed as a child by two different hierarchies. */
  ghost predicate Forest(h: Links) {
    forall p, q, c :: p in h && q in h && c in h[p].children && c in h[q].children ==> p == q
  }

  /** Parent fields and child sets agree in both directions, and the invalid entity has no
      hierarchy. */
  ghost predicate Consistent(h: Links) {
    && InvalidEntity !in h
    && (forall p, c :: p in h && c in h[p].children && c in h ==> h[c].parent == p)
    && (forall c :: c in h && h[c].parent in h ==> c in h[h[c].parent].children)
  }

  /** Going down never increases the height, and going strictly down decreases it. */
  lemma {:induction false} ReachesHeight(h: Links, rank: Ranks, a: Entity, x: Entity)
    requires Reaches(h, rank, a, x)
    ensures Height(h, rank, x) <= Height(h, rank, a)
    ensures x != a ==> Height(h, rank, x) < Height(h, rank, a)
    decreases Height(h, rank, a)
  {
    if a != x {
      var c :| c in h[a].children && Height(h, rank, c) < Height(h, rank, a) && Reaches(h, rank, c, x);
      ReachesHeight(h, rank, c, x);
    }
  }

  /** On ranked links, reaching is being the node itself or a strict descendant. */
  lemma ReachesUnfold(h: Links, rank: Ranks, a: Entity)
    requires Ranked(h, rank)
    ensures forall x :: Reaches(h, rank, a, x) <==> a == x || Descendant(h, rank, a, x)
  {
    forall x | Descendant(h, rank, a, x)
      ensures Reaches(h, rank, a, x)
    {
      var c :| c in h[a].children && Reaches(h, rank, c, x);
      assert Height(h, rank, c) < Height(h, rank, a);
    }
  }

  /** What a child reaches, its parent reaches. */
  lemma ReachesThroughChild(h: Links, rank: Ranks, p: Entity, c: Entity)
    requires Ranked(h, rank)
    requires p in h && c in h[p].children
    ensures forall x :: Reaches(h, rank, c, x) ==> Reaches(h, rank, p, x)
  {
    assert Height(h, rank, c) < Height(h, rank, p);
  }

  lemma {:induction false} ReachesTransitive(h: Links, rank: Ranks, a: Entity, b: Entity, x: Entity)
    requires Reaches(h, rank, a, b) && Reaches(h, rank, b, x)
    ensures Reaches(h, rank, a, x)
    decreases Height(h, rank, a)
  {
    if a != b {
      var c :| c in h[a].children && Height(h, rank, c) < Height(h, rank, a) && Reaches(h, rank, c, b);
      ReachesTransitive(h, rank, c, b, x);
    }
  }

  /** A node strictly below `a` is the child of a node that `a` reaches. */
  lemma {:induction false} ReachesParent(h: Links, rank: Ranks, a: Entity, x: Entity)
    requires Reaches(h, rank, a, x) && x != a
    ensures exists p :: Reaches(h, rank, a, p) && p in h && x in h[p].children
    decreases Height(h, rank, a)
  {
    var c :| c in h[a].children && Height(h, rank, c) < Height(h, rank, a) && Reaches(h, rank, c, x);
    if c != x {
      ReachesParent(h, rank, c, x);
      var p :| Reaches(h, rank, c, p) && p in h && x in h[p].children;
      assert Reaches(h, rank, a, p);
    }
  }

  /** In a forest, the subtrees of two nodes are nested or disjoint. */
  lemma {:induction false} Converge(h: Links, rank: Ranks, a: Entity, b: Entity, x: Entity)
    requires Ranked(h, rank) && Forest(h)
    requires Reaches(h, rank, a, x) && Reaches(h, rank, b, x)
    ensures Reaches(h, rank, a, b) || Reaches(h, rank, b, a)
    decreases Height(h, rank, a) - Height(h, rank, x)
  {
    ReachesHeight(h, rank, a, x);
    if x != a && x != b {
      ReachesParent(h, rank, a, x);
      var p :| Reaches(h, rank, a, p) && p in h && x in h[p].children;
      ReachesParent(h, rank, b, x);
      var q :| Reaches(h, rank, b, q) && q in h && x in h[q].children;
      assert p == q;
      ReachesHeight(h, rank, a, p);
      Converge(h, rank, a, b, p);
    }
  }

  /** In a forest, the subtrees of two different children of one node are disjoint. */
  lemma SiblingsDisjoint(h: Links, rank: Ranks, p: Entity, c1: Entity, c2: Entity, x: Entity)
    requires Ranked(h, rank) && Forest(h)
    requires p in h && c1 in h[p].children && c2 in h[p].children && c1 != c2
    requires Reaches(h, rank, c1, x)
    ensures !Reaches(h, rank, c2, x)
  {
    if Reaches(h, rank, c2, x) {
      Converge(h, rank, c1, c2, x);
      if Reaches(h, rank, c1, c2) {
        ChildAbove(h, rank, p, c1, c2);
      } else {
        ChildAbove(h, rank, p, c2, c1);
      }
    }
  }

  /** A child `a` of `p` cannot reach another child `b` of `p` in a forest. */
  lemma ChildAbove(h: Links, rank: Ranks, p: Entity, a: Entity, b: Entity)
    requires Ranked(h, rank) && Forest(h)
    requires p in h && a in h[p].children && b in h[p].children && a != b
    ensures !Reaches(h, rank, a, b)
  {
    if Reaches(h, rank, a, b) {
      ReachesParent(h, rank, a, b);
      var q :| Reaches(h, rank, a, q) && q in h && b in h[q].children;
      assert q == p;
      ReachesHeight(h, rank, a, p);
    }
  }

  /** In a consistent forest, the subtrees of two different roots are disjoint. */
  lemma RootsDisjoint(h: Links, rank: Ranks, r1: Entity, r2: Entity, x: Entity)
    requires Ranked(h, rank) && Forest(h) && Consistent(h)
    requires r1 in h && r2 in h && !HasParent(h[r1]) && !HasParent(h[r2]) && r1 != r2
    requires Reaches(h, rank, r1, x)
    ensures !Reaches(h, rank, r2, x)
  {
    if Reaches(h, rank, r2, x) {
      Converge(h, rank, r1, r2, x);
      if Reaches(h, rank, r1, r2) {
        ReachesParent(h, rank, r1, r2);
      } else {
        ReachesParent(h, rank, r2, r1);
      }
    }
  }

  /** A child link from outside a subtree into it ends at the subtree's root. */
  lemma EdgeIntoSubtree(h: Links, rank: Ranks, q: Entity, p: Entity, c: Entity)
    requires Forest(h)
    requires p in h && c in h[p].children
    requires Reaches(h, rank, q, c) && !Reaches(h, rank, q, p)
    ensures c == q
  {
    if c != q {
      ReachesParent(h, rank, q, c);
    }
  }
}
