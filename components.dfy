/** The component records of the scene layer, as values. Every component in the editor carries
    the entity it is attached to; here that entity is the key under which the world stores the
    component, so it is not repeated inside the record. */
module Components {
  import opened Entities
  import opened Geometry

  /** HierarchyComponent: the parent (InvalidEntity for a root) and the set of children. */
  datatype Hierarchy = Hierarchy(parent: Entity, children: set<Entity>)

  /** A default-constructed HierarchyComponent. */
  const RootHierarchy: Hierarchy := Hierarchy(InvalidEntity, {})

  /** HasParent: the parent is a valid entity. */
  predicate HasParent(h: Hierarchy) {
    h.parent != InvalidEntity
  }

  /** AddChild: inserts into the child set. */
  function WithChild(h: Hierarchy, c: Entity): Hierarchy {
    h.(children := h.children + {c})
  }

  /** RemoveChild: erases from the child set. */
  function WithoutChild(h: Hierarchy, c: Entity): Hierarchy {
    h.(children := h.children - {c})
  }

  lemma RootHierarchyHasNoParent()
    ensures !HasParent(RootHierarchy) && RootHierarchy.parent == InvalidEntity
    ensures RootHierarchy.children == {}
  {
  }

  /** AddChild is a set insert: only `c` joins, the parent is kept, and adding twice is adding
      once. */
  lemma WithChildIsInsert(h: Hierarchy, c: Entity)
    ensures WithChild(h, c).parent == h.parent
    ensures forall d :: d in WithChild(h, c).children <==> d == c || d in h.children
    ensures WithChild(WithChild(h, c), c) == WithChild(h, c)
  {
  }

  /** RemoveChild erases only `c`, keeps the parent, and is a no-op when `c` is absent. */
  lemma WithoutChildIsErase(h: Hierarchy, c: Entity)
    ensures WithoutChild(h, c).parent == h.parent
    ensures forall d :: d in WithoutChild(h, c).children <==> d != c && d in h.children
    ensures c !in h.children ==> WithoutChild(h, c) == h
  {
  }

  /** TransformComponent: the dirty flag, the pose, and the local and world matrices. */
  datatype Transform = Transform(
    dirty: bool,
    position: Vec3,
    rotation: Quat,
    eulerRotation: Vec3,
    scale: Vec3,
    local: Mat,
    world: Mat)

  /** A default-constructed TransformComponent: dirty, at the origin, unrotated, unit scale. */
  const DefaultTransform: Transform :=
    Transform(true, Zero, QuatIdentity, Zero, One, Identity, Identity)

  /** The local matrix UpdateTransform computes: translate * rotate * scale of the pose. */
  function LocalOf(t: Transform): Mat {
    Compose(t.position, t.rotation, t.scale)
  }

  /** MetaComponent: display name, own visibility and the visibility inherited down the tree. */
  datatype Meta = Meta(name: string, visibility: bool, effectiveVisibility: bool)

  /** A default-constructed MetaComponent. */
  const DefaultMeta: Meta := Meta("Entity", true, true)

  /** MeshComponent: the model it draws, by identity; NoModel stands for a null model pointer. */
  type ModelId = nat

  const NoModel: ModelId := 0

  datatype Mesh = Mesh(model: ModelId)
}
