/** RenderSystem (RenderSystem.cpp): instanced-render batches, one per model. A batch keeps the
    world matrices and the entities of its instances in two parallel vectors, and a slot map from
    entity to index; removal swaps the last instance into the freed slot. */
module RenderSystem {
  import opened Entities
  import opened Geometry
  import opened Components
  import opened Scene

  /** One render batch: parallel transforms and entities, the slot of each entity, and whether
      the instance buffer must be uploaded again. */
  datatype Batch = Batch(transforms: seq<Mat>, entities: seq<Entity>, slots: map<Entity, nat>, dirty: bool)

  /** The batch `batches[model]` creates when the model has none yet. */
  const EmptyBatch: Batch := Batch([], [], map[], false)

  /** The batch of `model`, or the empty batch operator[] would insert. */
  function BatchOf(batches: map<ModelId, Batch>, model: ModelId): Batch {
    if model in batches then batches[model] else EmptyBatch
  }

  /** The batch invariant: the vectors run in parallel, every entity's slot is its index, and
      the slot map holds exactly the batched entities. */
  ghost predicate Indexed(b: Batch) {
    && |b.transforms| == |b.entities|
    && (forall i :: 0 <= i < |b.entities| ==> b.entities[i] in b.slots && b.slots[b.entities[i]] == i)
    && (forall x :: x in b.slots ==> b.slots[x] < |b.entities| && b.entities[b.slots[x]] == x)
  }

  /** The (entity, world matrix) instances of a batch whose vectors run in parallel. */
  function Instances(b: Batch): seq<(Entity, Mat)>
    requires |b.transforms| == |b.entities|
  {
    seq(|b.entities|, i requires 0 <= i < |b.entities| => (b.entities[i], b.transforms[i]))
  }

  /** AddEntityToBatch on one batch: the matrix and the entity are appended, the entity's slot
      is the old size, and the batch is marked dirty. */
  function Appended(b: Batch, e: Entity, m: Mat): Batch {
    Batch(b.transforms + [m], b.entities + [e], b.slots[e := |b.transforms|], true)
  }

  /** What RemoveEntityFromBatch can index without going out of bounds: the slot of `e` lies in
      both vectors. */
  predicate Removable(b: Batch, e: Entity) {
    e in b.slots && b.slots[e] < |b.transforms| && |b.entities| == |b.transforms|
  }

  /** RemoveEntityFromBatch on one batch: unless `e` is last, the last instance moves into its
      slot and the moved entity is pointed at that slot; then both vectors shrink by one, the
      slot of `e` is erased and the batch is marked dirty. */
  function SwapRemoved(b: Batch, e: Entity): (r: Batch)
    requires Removable(b, e)
    ensures |r.transforms| == |b.transforms| - 1 && |r.entities| == |b.entities| - 1
    ensures e !in r.slots && r.dirty
  {
    var s := b.slots[e];
    var last := |b.transforms| - 1;
    if s != last then
      Batch(b.transforms[s := b.transforms[last]][..last], b.entities[s := b.entities[last]][..last],
            b.slots[b.entities[last] := s] - {e}, true)
    else
      Batch(b.transforms[..last], b.entities[..last], b.slots - {e}, true)
  }

  /** Appending an entity that is not batched yet keeps the batch invariant. */
  lemma AppendedIndexed(b: Batch, e: Entity, m: Mat)
    requires Indexed(b) && e !in b.slots
    ensures Indexed(Appended(b, e, m))
    ensures Instances(Appended(b, e, m)) == Instances(b) + [(e, m)]
  {
    var r := Appended(b, e, m);
    forall i | 0 <= i < |r.entities|
      ensures r.entities[i] in r.slots && r.slots[r.entities[i]] == i
    {
      if i < |b.entities| {
        assert r.entities[i] == b.entities[i] != e;
      }
    }
  }

  /** No check for an existing entry: appending a batched entity again duplicates it and points
      its slot at the newest copy, so the invariant no longer holds. */
  lemma AppendedTwice(b: Batch, e: Entity, m: Mat)
    requires Indexed(b) && e in b.slots
    ensures Appended(b, e, m).slots[e] == |b.entities|
    ensures !Indexed(Appended(b, e, m))
  {
    var r := Appended(b, e, m);
    var s := b.slots[e];
    assert r.entities[s] == e && r.slots[e] != s;
  }

  /** Swap-removal keeps the batch invariant. */
  lemma SwapRemovedIndexed(b: Batch, e: Entity)
    requires Indexed(b) && e in b.slots
    ensures Removable(b, e)
    ensures Indexed(SwapRemoved(b, e))
    ensures SwapRemoved(b, e).slots.Keys == b.slots.Keys - {e}
  {
    var r := SwapRemoved(b, e);
    var s := b.slots[e];
    var last := |b.transforms| - 1;
    forall i | 0 <= i < |r.entities|
      ensures r.entities[i] in r.slots && r.slots[r.entities[i]] == i
    {
      if i != s {
        assert r.entities[i] == b.entities[i];
        assert b.slots[b.entities[i]] == i;
      }
    }
    forall x | x in b.slots && x != e
      ensures x in r.slots
    {
    }
  }

  /** Swap-removal takes exactly the instance of `e` out of the batch. */
  lemma SwapRemovedInstances(b: Batch, e: Entity)
    requires Indexed(b) && e in b.slots
    ensures Removable(b, e)
    ensures multiset(Instances(SwapRemoved(b, e))) ==
            multiset(Instances(b)) - multiset{(e, b.transforms[b.slots[e]])}
  {
    assert b.entities[b.slots[e]] == e;
    RemovedInstances(b, e);
  }

  lemma RemovedInstances(b: Batch, e: Entity)
    requires Removable(b, e) && b.entities[b.slots[e]] == e
    ensures multiset(Instances(SwapRemoved(b, e))) ==
            multiset(Instances(b)) - multiset{(e, b.transforms[b.slots[e]])}
  {
    if b.slots[e] != |b.transforms| - 1 {
      RemovedMiddle(b, e);
    } else {
      RemovedLast(b, e);
    }
  }

  /** Removing an instance that is not the last one moves the last one into its place. */
  lemma RemovedMiddle(b: Batch, e: Entity)
    requires Removable(b, e) && b.entities[b.slots[e]] == e && b.slots[e] != |b.transforms| - 1
    ensures multiset(Instances(SwapRemoved(b, e))) ==
            multiset(Instances(b)) - multiset{(e, b.transforms[b.slots[e]])}
  {
    var s := b.slots[e];
    var last := |b.transforms| - 1;
    var p := Instances(b);
    var r := SwapRemoved(b, e);
    assert r.transforms == b.transforms[s := b.transforms[last]][..last];
    assert r.entities == b.entities[s := b.entities[last]][..last];
    var q := Instances(r);
    assert q == p[s := p[last]][..last] by {
      forall i | 0 <= i < last
        ensures q[i] == p[s := p[last]][i]
      {
        if i == s {
          assert q[i] == (b.entities[last], b.transforms[last]);
        } else {
          assert q[i] == (b.entities[i], b.transforms[i]);
        }
      }
    }
    SwapOut(p, s);
    assert p[s] == (e, b.transforms[s]);
  }

  /** Removing the last instance drops it. */
  lemma RemovedLast(b: Batch, e: Entity)
    requires Removable(b, e) && b.entities[b.slots[e]] == e && b.slots[e] == |b.transforms| - 1
    ensures multiset(Instances(SwapRemoved(b, e))) ==
            multiset(Instances(b)) - multiset{(e, b.transforms[b.slots[e]])}
  {
    var last := |b.transforms| - 1;
    var p := Instances(b);
    var r := SwapRemoved(b, e);
    assert r.transforms == b.transforms[..last] && r.entities == b.entities[..last];
    var q := Instances(r);
    assert q == p[..last];
    assert p == p[..last] + [p[last]];
    assert p[last] == (e, b.transforms[last]);
  }

  /** Moving the last element into position `s` and dropping the last position takes one copy
      of `xs[s]` out of the multiset. */
  lemma SwapOut<T>(xs: seq<T>, s: nat)
    requires s < |xs| - 1
    ensures multiset(xs[s := xs[|xs| - 1]][..|xs| - 1]) == multiset(xs) - multiset{xs[s]}
  {
    var last := |xs| - 1;
    var init := xs[..last];
    assert xs == init + [xs[last]];
    assert xs[s := xs[last]][..last] == init[s := xs[last]];
  }

  /** Appending an entity that is not batched yet and removing it again gives back the batch,
      marked dirty. */
  lemma AppendThenRemove(b: Batch, e: Entity, m: Mat)
    requires Indexed(b) && e !in b.slots
    ensures Removable(Appended(b, e, m), e)
    ensures SwapRemoved(Appended(b, e, m), e) == b.(dirty := true)
  {
    var r := Appended(b, e, m);
    assert r.transforms[..|b.transforms|] == b.transforms;
    assert r.entities[..|b.entities|] == b.entities;
    assert r.slots - {e} == b.slots;
  }

  /** The static batch table of RenderSystem. */
  class Renderer {
    var batches: map<ModelId, Batch>

    constructor()
      ensures batches == map[]
    {
      batches := map[];
    }

    /** RenderSystem::AddEntityToBatch: nothing happens to an entity without a MeshComponent or
        a TransformComponent; otherwise its world matrix is appended to its model's batch,
        which is created when missing. */
    method AddEntityToBatch(w: World, e: Entity)
      modifies this
      ensures e !in w.mesh || e !in w.xf ==> batches == old(batches)
      ensures e in w.mesh && e in w.xf ==>
                batches == old(batches)[w.mesh[e].model := Appended(BatchOf(old(batches), w.mesh[e].model), e, w.xf[e].world)]
    {
      if e !in w.mesh || e !in w.xf {
        return;
      }
      var model := w.mesh[e].model;
      var batch := if model in batches then batches[model] else EmptyBatch;
      var slot := |batch.transforms|;
      batch := batch.(transforms := batch.transforms + [w.xf[e].world]);
      batch := batch.(entities := batch.entities + [e]);
      batch := batch.(slots := batch.slots[e := slot]);
      batch := batch.(dirty := true);
      batches := batches[model := batch];
    }

    /** RenderSystem::RemoveEntityFromBatch: nothing happens when the entity has no
        MeshComponent, its model has no batch, or the batch holds no slot for it; otherwise the
        batch is swap-removed. The slot found must lie in both vectors (the source indexes them
        unchecked). */
    method RemoveEntityFromBatch(w: World, e: Entity)
      requires e in w.mesh && w.mesh[e].model in batches && e in batches[w.mesh[e].model].slots ==>
                 Removable(batches[w.mesh[e].model], e)
      modifies this
      ensures !(e in w.mesh && w.mesh[e].model in old(batches) && e in old(batches)[w.mesh[e].model].slots) ==>
                batches == old(batches)
      ensures e in w.mesh && w.mesh[e].model in old(batches) && e in old(batches)[w.mesh[e].model].slots ==>
                batches == old(batches)[w.mesh[e].model := SwapRemoved(old(batches)[w.mesh[e].model], e)]
    {
      if e !in w.mesh {
        return;
      }
      var model := w.mesh[e].model;
      if model !in batches {
        return;
      }
      var batch := batches[model];
      if e !in batch.slots {
        return;
      }
      var slot := batch.slots[e];
      var lastIndex := |batch.transforms| - 1;
      if slot != lastIndex {
        batch := batch.(transforms := batch.transforms[slot := batch.transforms[lastIndex]]);
        batch := batch.(entities := batch.entities[slot := batch.entities[lastIndex]]);
        batch := batch.(slots := batch.slots[batch.entities[slot] := slot]);
      }
      batch := batch.(transforms := batch.transforms[..lastIndex]);
      batch := batch.(entities := batch.entities[..lastIndex]);
      batch := batch.(slots := batch.slots - {e});
      batch := batch.(dirty := true);
      batches := batches[model := batch];
    }

    /** The batch bookkeeping of RenderSystem::Run: in ascending model order, an empty batch is
        skipped and keeps its flag; a dirty non-empty batch has its instance buffer uploaded and
        is marked clean. */
    method Run()
      modifies this
      ensures batches.Keys == old(batches).Keys
      ensures forall m :: m in batches ==>
                batches[m] == if old(batches)[m].transforms == [] then old(batches)[m]
                              else old(batches)[m].(dirty := false)
    {
      ghost var b0 := batches;
      var models := InOrder(batches.Keys);
      ghost var done: set<ModelId> := {};
      for i := 0 to |models|
        invariant done == set j | 0 <= j < i :: models[j]
        invariant batches.Keys == b0.Keys
        invariant forall m :: m in batches ==>
                    batches[m] == if m !in done || b0[m].transforms == [] then b0[m] else b0[m].(dirty := false)
      {
        var model := models[i];
        if batches[model].transforms != [] {
          if batches[model].dirty {
            batches := batches[model := batches[model].(dirty := false)];
          }
        }
        done := done + {model};
      }
    }
  }
}
