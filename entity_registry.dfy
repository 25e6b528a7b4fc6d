/** EntityRegistry: hands out entity identifiers and owns one component storage per component
    type. Component types are modelled by identifiers (`TypeId`); the function-local static
    storage and `registered` flag of GetStorage<T> become the entry for that type in `storages`,
    and each closure in componentRemovers / storageClearers is recorded by the type it serves. */
module EntityRegistry {
  import opened Wrappers
  import opened Entities
  import opened ComponentStorage
  import opened Views

  /** Stands for one component type T of the templated members. */
  type TypeId = nat

  /** The registration list after GetStorage<t>: `t` is appended on first use only. */
  function Registered(rs: seq<TypeId>, t: TypeId): seq<TypeId> {
    if t in rs then rs else rs + [t]
  }

  /** Registration lists never hold a type twice, however many lookups run. */
  lemma RegisteredDistinct(rs: seq<TypeId>, t: TypeId)
    requires forall i, j :: 0 <= i < j < |rs| ==> rs[i] != rs[j]
    ensures var r := Registered(rs, t);
      (forall i, j :: 0 <= i < j < |r| ==> r[i] != r[j]) &&
      t in r && (forall u :: u in r <==> u in rs || u == t)
  {
  }

  class Registry<T> {
    var nextEntity: Entity
    /** The storage of every component type used so far. */
    var storages: map<TypeId, Storage<T>>
    /** componentRemovers: one closure per registered type, in registration order. */
    var removers: seq<TypeId>
    /** storageClearers: one closure per registered type, in registration order. */
    var clearers: seq<TypeId>
    ghost var Repr: set<Storage<T>>

    ghost predicate Valid()
      reads this, Repr
    {
      (forall t :: t in storages ==> storages[t] in Repr && storages[t].Valid()) &&
      (forall t, u :: t in storages && u in storages && storages[t] == storages[u] ==> t == u) &&
      removers == clearers &&
      (forall i, j :: 0 <= i < j < |removers| ==> removers[i] != removers[j]) &&
      (forall t :: t in storages <==> t in removers)
    }

    /** The components of type `t`; an unregistered type has an empty storage. */
    ghost function ComponentsOf(t: TypeId): seq<Keyed<T>>
      reads this, Repr
      requires Valid()
    {
      if t in storages then storages[t].components else []
    }

    constructor ()
      ensures Valid() && fresh(Repr)
      ensures nextEntity == InvalidEntity && storages == map[] && removers == [] && clearers == []
    {
      nextEntity := InvalidEntity;
      storages := map[];
      removers := [];
      clearers := [];
      Repr := {};
    }

    /** A new identifier, one above the last one handed out. */
    method CreateEntity() returns (e: Entity)
      modifies this`nextEntity
      ensures e == old(nextEntity) + 1 && nextEntity == e
      ensures e != InvalidEntity
    {
      nextEntity := nextEntity + 1;
      e := nextEntity;
    }

    /** The storage of type `t`; the first call for a type creates it and registers one remover
        and one clearer for it. */
    method GetStorage(t: TypeId) returns (s: Storage<T>)
      requires Valid()
      modifies this
      ensures Valid() && fresh(Repr - old(Repr))
      ensures t in storages && s == storages[t]
      ensures storages.Keys == old(storages.Keys) + {t}
      ensures forall u :: u in old(storages) ==> storages[u] == old(storages[u])
      ensures t !in old(storages) ==> fresh(s) && s.components == []
      ensures removers == Registered(old(removers), t) && clearers == Registered(old(clearers), t)
      ensures nextEntity == old(nextEntity)
      ensures forall u :: ComponentsOf(u) == old(ComponentsOf(u))
    {
      if t !in storages {
        s := Register(t);
      } else {
        s := storages[t];
      }
    }

    /** The first GetStorage<T> for a type: its storage is created, with one remover and one
        clearer registered for it. */
    method Register(t: TypeId) returns (s: Storage<T>)
      requires Valid() && t !in storages
      modifies this
      ensures Valid() && Repr == old(Repr) + {s} && fresh(s) && s.components == []
      ensures storages == old(storages)[t := s]
      ensures removers == old(removers) + [t] && clearers == old(clearers) + [t]
      ensures nextEntity == old(nextEntity)
      ensures forall u :: ComponentsOf(u) == old(ComponentsOf(u))
    {
      s := new Storage();
      storages := storages[t := s];
      removers := removers + [t];
      clearers := clearers + [t];
      Repr := Repr + {s};
    }

    /** AddComponent<T>(e, args): stamps the constructed component with `e` and adds it to the
        storage of its type, which returns the existing component when the lookup finds one. */
    method AddComponent(t: TypeId, e: Entity, comp: Keyed<T>) returns (r: Keyed<T>)
      requires Valid()
      modifies this, Repr
      ensures Valid() && fresh(Repr - old(Repr))
      ensures storages.Keys == old(storages.Keys) + {t}
      ensures removers == Registered(old(removers), t) && nextEntity == old(nextEntity)
      ensures ComponentsOf(t) == Added(old(ComponentsOf(t)), e, comp.(entity := e))
      ensures r == if old(Found(ComponentsOf(t), e)) then old(ComponentsOf(t)[LowerBound(ComponentsOf(t), e)])
                   else comp.(entity := e)
      ensures forall u :: u != t ==> ComponentsOf(u) == old(ComponentsOf(u))
    {
      var stamped := comp.(entity := e);
      var s := GetStorage(t);
      r := s.Add(e, stamped);
    }

    /** GetComponent<T>(e): the component the lookup of type `t` lands on, or nothing. */
    method GetComponent(t: TypeId, e: Entity) returns (r: Option<Keyed<T>>)
      requires Valid()
      modifies this
      ensures Valid() && fresh(Repr - old(Repr))
      ensures storages.Keys == old(storages.Keys) + {t}
      ensures removers == Registered(old(removers), t) && nextEntity == old(nextEntity)
      ensures forall u :: ComponentsOf(u) == old(ComponentsOf(u))
      ensures r.None? <==> !Found(ComponentsOf(t), e)
      ensures r.Some? ==> r.value == ComponentsOf(t)[LowerBound(ComponentsOf(t), e)]
    {
      var s := GetStorage(t);
      r := s.Get(e);
    }

    /** HasComponent<T>(e): whether the lookup of type `t` finds a component. */
    method HasComponent(t: TypeId, e: Entity) returns (b: bool)
      requires Valid()
      modifies this
      ensures Valid() && fresh(Repr - old(Repr))
      ensures storages.Keys == old(storages.Keys) + {t}
      ensures removers == Registered(old(removers), t) && nextEntity == old(nextEntity)
      ensures forall u :: ComponentsOf(u) == old(ComponentsOf(u))
      ensures b == Found(ComponentsOf(t), e)
    {
      var s := GetStorage(t);
      b := s.Has(e);
    }

    /** RemoveComponent<T>(e): erases what the lookup of type `t` lands on. */
    method RemoveComponent(t: TypeId, e: Entity) returns (removed: bool)
      requires Valid()
      modifies this, Repr
      ensures Valid() && fresh(Repr - old(Repr))
      ensures storages.Keys == old(storages.Keys) + {t}
      ensures removers == Registered(old(removers), t) && nextEntity == old(nextEntity)
      ensures removed == old(Found(ComponentsOf(t), e))
      ensures ComponentsOf(t) == Erased(old(ComponentsOf(t)), e)
      ensures forall u :: u != t ==> ComponentsOf(u) == old(ComponentsOf(u))
    {
      var s := GetStorage(t);
      removed := s.Remove(e);
    }

    /** The remover closure registered for type `t`: Remove(e) on that type's storage. */
    method RunRemover(t: TypeId, e: Entity)
      requires Valid() && t in storages
      modifies storages[t]
      ensures Valid()
      ensures ComponentsOf(t) == Erased(old(ComponentsOf(t)), e)
      ensures forall u :: u != t ==> ComponentsOf(u) == old(ComponentsOf(u))
    {
      var _ := storages[t].Remove(e);
    }

    /** Runs every registered remover on `e`, in registration order. */
    method DestroyEntity(e: Entity)
      requires Valid()
      modifies Repr
      ensures Valid()
      ensures forall u :: ComponentsOf(u) == Erased(old(ComponentsOf(u)), e)
    {
      var i := 0;
      while i < |removers|
        invariant 0 <= i <= |removers|
        invariant Valid()
        invariant forall u :: u in removers[..i] ==> ComponentsOf(u) == Erased(old(ComponentsOf(u)), e)
        invariant forall u :: u !in removers[..i] ==> ComponentsOf(u) == old(ComponentsOf(u))
      {
        var t := removers[i];
        assert removers[..i + 1] == removers[..i] + [t];
        assert t !in removers[..i];
        assert ComponentsOf(t) == old(ComponentsOf(t));
        RunRemover(t, e);
        i := i + 1;
      }
      assert removers[..i] == removers;
      forall u | u !in removers
        ensures ComponentsOf(u) == Erased(old(ComponentsOf(u)), e)
      {
        assert ComponentsOf(u) == [] == old(ComponentsOf(u));
      }
    }

    /** The clearer closure registered for type `t`: Clear() on that type's storage. */
    method RunClearer(t: TypeId)
      requires Valid() && t in storages
      modifies storages[t]
      ensures Valid()
      ensures ComponentsOf(t) == []
      ensures forall u :: u != t ==> ComponentsOf(u) == old(ComponentsOf(u))
    {
      storages[t].Clear();
    }

    /** Runs every registered clearer, then resets the identifier counter. */
    method Cleanup()
      requires Valid()
      modifies this, Repr
      ensures Valid()
      ensures storages == old(storages) && removers == old(removers) && clearers == old(clearers)
      ensures nextEntity == InvalidEntity
      ensures forall u :: ComponentsOf(u) == []
    {
      var i := 0;
      while i < |clearers|
        invariant 0 <= i <= |clearers|
        invariant storages == old(storages) && removers == old(removers) && clearers == old(clearers)
        invariant Repr == old(Repr)
        invariant Valid()
        invariant forall u :: u in clearers[..i] ==> ComponentsOf(u) == []
      {
        var t := clearers[i];
        assert clearers[..i + 1] == clearers[..i] + [t];
        RunClearer(t);
        i := i + 1;
      }
      assert clearers[..i] == clearers;
      nextEntity := InvalidEntity;
    }

    /** The storages of the listed types, in order, each obtained through GetStorage: the
        pack expansion of MakeView, first type first. */
    method StoragesOf(ts: seq<TypeId>) returns (ss: seq<Storage<T>>)
      requires Valid()
      modifies this
      ensures Valid() && fresh(Repr - old(Repr))
      ensures forall u :: u in storages <==> u in old(storages) || u in ts
      ensures forall u :: u in old(storages) ==> storages[u] == old(storages[u])
      ensures forall u :: ComponentsOf(u) == old(ComponentsOf(u))
      ensures |ss| == |ts| && forall k :: 0 <= k < |ts| ==> ts[k] in storages && ss[k] == storages[ts[k]]
      decreases |ts|
    {
      if ts == [] {
        return [];
      }
      var s := GetStorage(ts[0]);
      ghost var middle := storages;
      var rest := StoragesOf(ts[1..]);
      assert ts[0] in middle && storages[ts[0]] == middle[ts[0]];
      ss := [s] + rest;
      forall k | 1 <= k < |ts|
        ensures ts[k] in storages && ss[k] == storages[ts[k]]
      {
        assert ts[k] == ts[1..][k - 1] && ss[k] == rest[k - 1];
      }
      assert forall u :: u in ts <==> u == ts[0] || u in ts[1..];
    }

    /** MakeView<Ts...>(): the storages of the listed types, in order, bound into a view. A
        pack naming a type twice does not compile and an empty one leaves std::min without
        operands, hence the requirements on `ts`. */
    method MakeView(ts: seq<TypeId>) returns (v: View<T>)
      requires Valid()
      requires |ts| > 0 && forall i, j :: 0 <= i < j < |ts| ==> ts[i] != ts[j]
      requires forall i :: 0 <= i < |ts| ==> |ComponentsOf(ts[i])| < SizeMax
      modifies this
      ensures Valid() && fresh(Repr - old(Repr)) && fresh(v)
      ensures forall u :: u in storages <==> u in old(storages) || u in ts
      ensures forall u :: ComponentsOf(u) == old(ComponentsOf(u))
      ensures |v.storages| == |ts| && forall i :: 0 <= i < |ts| ==> v.storages[i] == storages[ts[i]]
      ensures v.Valid() && v.primary < |ts|
      ensures forall i :: 0 <= i < |ts| ==> |ComponentsOf(ts[v.primary])| <= |ComponentsOf(ts[i])|
      ensures forall i :: 0 <= i < v.primary ==> |ComponentsOf(ts[v.primary])| < |ComponentsOf(ts[i])|
    {
      var ss := StoragesOf(ts);
      v := new View(ss);
    }
  }
}
