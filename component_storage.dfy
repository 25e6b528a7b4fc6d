/** ComponentStorage<T>: one contiguous vector of components per component type, kept in
    ascending entity order and searched with std::lower_bound. */
module ComponentStorage {
  import opened Wrappers
  import opened Entities

  /** A stored component. Every component type carries the entity it is attached to. */
  datatype Keyed<T> = Keyed(entity: Entity, value: T)

  /** Strictly ascending by entity: sorted and free of duplicates. */
  ghost predicate Ascending<T>(s: seq<Keyed<T>>) {
    forall i, j :: 0 <= i < j < |s| ==> s[i].entity < s[j].entity
  }

  /** The entities that have a component in `s`. */
  ghost function Ids<T>(s: seq<Keyed<T>>): set<Entity> {
    set k | 0 <= k < |s| :: s[k].entity
  }

  /** Whether some stored entity is at or above `e`: exactly when the lower bound of `e` is a
      position inside `s`, so exactly when the lookup as written succeeds. */
  ghost predicate Found<T>(s: seq<Keyed<T>>, e: Entity) {
    exists k :: 0 <= k < |s| && s[k].entity >= e
  }

  /** What std::lower_bound with the comparison `c.entity < e` denotes: the first position whose
      entity is not below `e`, or |s| when every entity is below `e`. */
  function LowerBound<T>(s: seq<Keyed<T>>, e: Entity): (i: nat)
    ensures i <= |s|
    ensures forall k :: 0 <= k < i ==> s[k].entity < e
    ensures i < |s| ==> s[i].entity >= e
  {
    if s == [] || s[0].entity >= e then 0 else 1 + LowerBound(s[1..], e)
  }

  /** Any position with the two defining properties of LowerBound is LowerBound. */
  lemma LowerBoundUnique<T>(s: seq<Keyed<T>>, e: Entity, i: nat)
    requires i <= |s|
    requires forall k :: 0 <= k < i ==> s[k].entity < e
    requires i < |s| ==> s[i].entity >= e
    ensures i == LowerBound(s, e)
  {
  }

  /** The lookup as written finds a component for `e` exactly when `e` does not exceed the
      largest stored entity, whether or not `e` itself is stored. */
  lemma {:induction false} FoundIffAtMostLast<T>(s: seq<Keyed<T>>, e: Entity)
    requires Ascending(s)
    ensures LowerBound(s, e) < |s| <==> (|s| > 0 && e <= s[|s| - 1].entity)
  {
    if s != [] && s[0].entity < e {
      assert Ascending(s[1..]) by {
        forall i, j | 0 <= i < j < |s[1..]| ensures s[1..][i].entity < s[1..][j].entity {
          assert s[1..][i] == s[i + 1] && s[1..][j] == s[j + 1];
        }
      }
      FoundIffAtMostLast(s[1..], e);
      if |s| > 1 {
        assert s[1..][|s[1..]| - 1] == s[|s| - 1];
      }
    } else if s != [] {
      assert s[0].entity <= s[|s| - 1].entity by {
        if |s| > 1 { assert s[0].entity < s[|s| - 1].entity; }
      }
    }
  }

  /** The component sequence after Add(e, comp): unchanged when the lookup finds a component,
      otherwise `comp` appended (the lookup fails only when every stored entity is below `e`,
      so the insertion point is the end). */
  function Added<T>(s: seq<Keyed<T>>, e: Entity, comp: Keyed<T>): seq<Keyed<T>> {
    var i := LowerBound(s, e);
    s[..i] + (if i < |s| then [] else [comp]) + s[i..]
  }

  /** The component sequence after Remove(e): the component the lookup lands on is erased. */
  function Erased<T>(s: seq<Keyed<T>>, e: Entity): seq<Keyed<T>> {
    var i := LowerBound(s, e);
    if i < |s| then s[..i] + s[i + 1..] else s
  }

  lemma AscendingTail<T>(s: seq<Keyed<T>>, i: nat)
    requires Ascending(s) && i <= |s|
    ensures Ascending(s[i..])
  {
    forall a, b | 0 <= a < b < |s[i..]| ensures s[i..][a].entity < s[i..][b].entity {
      assert s[i..][a] == s[i + a] && s[i..][b] == s[i + b];
    }
  }

  /** Adding a component stamped with `e` keeps the storage strictly ascending; the entities
      present afterwards are the old ones, plus `e` exactly when nothing at or above `e` was
      stored. */
  lemma AddedProperties<T>(s: seq<Keyed<T>>, e: Entity, comp: Keyed<T>)
    requires Ascending(s) && comp.entity == e
    ensures Ascending(Added(s, e, comp))
    ensures Ids(Added(s, e, comp)) == Ids(s) + (if Found(s, e) then {} else {e})
    ensures Found(s, e) ==> Added(s, e, comp) == s
  {
    if LowerBound(s, e) < |s| {
      AddedInside(s, e, comp);
    } else {
      AddedAtEnd(s, e, comp);
    }
  }

  /** When something at or above `e` is stored, Add changes nothing. */
  lemma AddedInside<T>(s: seq<Keyed<T>>, e: Entity, comp: Keyed<T>)
    requires LowerBound(s, e) < |s|
    ensures Found(s, e) && Added(s, e, comp) == s
  {
    var i := LowerBound(s, e);
    assert s[..i] + [] + s[i..] == s;
    assert s[i].entity >= e;
  }

  /** Otherwise the component goes last. */
  lemma AddedAtEnd<T>(s: seq<Keyed<T>>, e: Entity, comp: Keyed<T>)
    requires Ascending(s) && comp.entity == e && LowerBound(s, e) == |s|
    ensures !Found(s, e) && Added(s, e, comp) == s + [comp]
    ensures Ascending(s + [comp]) && Ids(s + [comp]) == Ids(s) + {e}
  {
    assert forall k :: 0 <= k < |s| ==> s[k].entity < e;
    assert s[..|s|] == s && s[|s|..] == [];
    AppendAscending(s, comp);
    IdsAppend(s, comp);
  }

  /** A component above every stored one can go last. */
  lemma AppendAscending<T>(s: seq<Keyed<T>>, c: Keyed<T>)
    requires Ascending(s) && forall k :: 0 <= k < |s| ==> s[k].entity < c.entity
    ensures Ascending(s + [c])
  {
    var r := s + [c];
    forall a, b | 0 <= a < b < |r| ensures r[a].entity < r[b].entity {
      assert r[a] == s[a];
      if b < |s| {
        assert r[b] == s[b];
      }
    }
  }

  lemma IdsAppend<T>(s: seq<Keyed<T>>, c: Keyed<T>)
    ensures Ids(s + [c]) == Ids(s) + {c.entity}
  {
    var r := s + [c];
    forall x | x in Ids(r) ensures x in Ids(s) + {c.entity} {
      var k :| 0 <= k < |r| && r[k].entity == x;
      if k < |s| {
        assert r[k] == s[k];
      }
    }
    forall x | x in Ids(s) + {c.entity} ensures x in Ids(r) {
      if x in Ids(s) {
        var k :| 0 <= k < |s| && s[k].entity == x;
        assert r[k] == s[k];
      } else {
        assert r[|s|] == c;
      }
    }
  }

  /** Deleting position `i` of a strictly ascending sequence keeps it strictly ascending and
      takes away exactly the entity at `i`. */
  lemma DeleteAt<T>(s: seq<Keyed<T>>, i: nat)
    requires Ascending(s) && i < |s|
    ensures Ascending(s[..i] + s[i + 1..])
    ensures Ids(s[..i] + s[i + 1..]) == Ids(s) - {s[i].entity}
  {
    DeleteAscending(s, i);
    DeleteIds(s, i);
  }

  lemma DeleteAscending<T>(s: seq<Keyed<T>>, i: nat)
    requires Ascending(s) && i < |s|
    ensures Ascending(s[..i] + s[i + 1..])
  {
    var r := s[..i] + s[i + 1..];
    forall a, b | 0 <= a < b < |r| ensures r[a].entity < r[b].entity {
      var a' := if a < i then a else a + 1;
      var b' := if b < i then b else b + 1;
      assert r[a] == s[a'] && r[b] == s[b'];
    }
  }

  lemma DeleteIds<T>(s: seq<Keyed<T>>, i: nat)
    requires Ascending(s) && i < |s|
    ensures Ids(s[..i] + s[i + 1..]) == Ids(s) - {s[i].entity}
  {
    var r := s[..i] + s[i + 1..];
    assert Ids(r) <= Ids(s) - {s[i].entity} by {
      forall x | x in Ids(r) ensures x in Ids(s) - {s[i].entity} {
        var k :| 0 <= k < |r| && r[k].entity == x;
        var k' := if k < i then k else k + 1;
        assert r[k] == s[k'];
      }
    }
    assert Ids(s) - {s[i].entity} <= Ids(r) by {
      forall x | x in Ids(s) - {s[i].entity} ensures x in Ids(r) {
        var k :| 0 <= k < |s| && s[k].entity == x;
        var k' := if k < i then k else k - 1;
        assert r[k'] == s[k];
      }
    }
  }

  /** Removing keeps the storage strictly ascending and takes away exactly the entity of the
      component the lookup lands on: `e` itself when it is stored, otherwise the next larger
      stored entity (see LookupAcceptsAbsentEntity). */
  lemma ErasedProperties<T>(s: seq<Keyed<T>>, e: Entity)
    requires Ascending(s)
    ensures Ascending(Erased(s, e))
    ensures Found(s, e) ==> Ids(Erased(s, e)) == Ids(s) - {s[LowerBound(s, e)].entity}
    ensures !Found(s, e) ==> Erased(s, e) == s
    ensures e in Ids(s) ==> Ids(Erased(s, e)) == Ids(s) - {e}
  {
    FoundIsInRange(s, e);
    if LowerBound(s, e) < |s| {
      ErasedInside(s, e);
    } else {
      assert Erased(s, e) == s;
    }
  }

  /** Found says the lower bound lands inside the storage. */
  lemma FoundIsInRange<T>(s: seq<Keyed<T>>, e: Entity)
    ensures Found(s, e) <==> LowerBound(s, e) < |s|
  {
    if Found(s, e) {
      var k :| 0 <= k < |s| && s[k].entity >= e;
    }
  }

  /** Erasing when the lower bound lands inside the storage removes that position. */
  lemma ErasedInside<T>(s: seq<Keyed<T>>, e: Entity)
    requires Ascending(s) && LowerBound(s, e) < |s|
    ensures Ascending(Erased(s, e))
    ensures Ids(Erased(s, e)) == Ids(s) - {s[LowerBound(s, e)].entity}
    ensures e in Ids(s) ==> Ids(Erased(s, e)) == Ids(s) - {e}
  {
    var i := LowerBound(s, e);
    assert Erased(s, e) == s[..i] + s[i + 1..];
    DeleteAt(s, i);
    if e in Ids(s) {
      FindExactIsMembership(s, e);
      assert s[i].entity == e;
    }
  }

  /** The exact lookup the storage evidently intends: lower_bound followed by a check that the
      position found really holds `e`. */
  function FindExact<T>(s: seq<Keyed<T>>, e: Entity): (r: Option<nat>)
    ensures r.Some? ==> r.value < |s| && s[r.value].entity == e
  {
    var i := LowerBound(s, e);
    if i < |s| && s[i].entity == e then Some(i) else None
  }

  /** On a strictly ascending storage the exact lookup succeeds exactly for stored entities and
      returns the only position holding that entity. */
  lemma FindExactIsMembership<T>(s: seq<Keyed<T>>, e: Entity)
    requires Ascending(s)
    ensures FindExact(s, e).Some? <==> e in Ids(s)
    ensures FindExact(s, e).Some? ==>
      forall k :: 0 <= k < |s| && s[k].entity == e ==> k == FindExact(s, e).value
  {
    if e in Ids(s) {
      var k :| 0 <= k < |s| && s[k].entity == e;
    }
  }

  /** A storage holding only entity 2's component answers the as-written lookup for entity 1
      with entity 2's component. */
  lemma LookupAcceptsAbsentEntity()
    ensures var s := [Keyed(2, 0)];
      Ascending(s) && 1 !in Ids(s) && LowerBound(s, 1) == 0 && s[LowerBound(s, 1)].entity == 2
      && FindExact(s, 1).None?
  {
    var s := [Keyed(2, 0)];
    assert Ids(s) == {2} by {
      assert s[0].entity == 2;
    }
  }

  class Storage<T> {
    /** The components, in the order the vector holds them. */
    var components: seq<Keyed<T>>

    ghost predicate Valid()
      reads this
    {
      Ascending(components)
    }

    /** A fresh storage is empty. */
    constructor ()
      ensures Valid() && components == []
    {
      components := [];
    }

    function Size(): nat
      reads this
    {
      |components|
    }

    function All(): seq<Keyed<T>>
      reads this
    {
      components
    }

    /** Indexed access; an index past the end is undefined behaviour in the editor. */
    function At(index: nat): Keyed<T>
      reads this
      requires index < |components|
    {
      components[index]
    }

    /** Binary search for the lower bound of `e`. */
    method Find(e: Entity) returns (i: nat)
      requires Valid()
      ensures i == LowerBound(components, e)
    {
      var lo, hi := 0, |components|;
      while lo < hi
        invariant 0 <= lo <= hi <= |components|
        invariant forall k :: 0 <= k < lo ==> components[k].entity < e
        invariant forall k :: hi <= k < |components| ==> components[k].entity >= e
        decreases hi - lo
      {
        var mid := (lo + hi) / 2;
        if components[mid].entity < e {
          lo := mid + 1;
        } else {
          hi := mid;
        }
      }
      LowerBoundUnique(components, e, lo);
      i := lo;
    }

    /** Whether the lookup finds a component: true exactly when some stored entity is at or
        above `e` (see FoundIffAtMostLast). */
    method Has(e: Entity) returns (b: bool)
      requires Valid()
      ensures b <==> Found(components, e)
    {
      var i := Find(e);
      b := i != |components|;
    }

    /** The component the lookup lands on: the first one whose entity is at or above `e`,
        or nothing (a null pointer) when every stored entity is below `e`. */
    method Get(e: Entity) returns (r: Option<Keyed<T>>)
      requires Valid()
      ensures r.None? <==> !Found(components, e)
      ensures r.Some? ==> r.value == components[LowerBound(components, e)] && r.value.entity >= e
    {
      var i := Find(e);
      if i != |components| {
        r := Some(components[i]);
      } else {
        r := None;
      }
    }

    /** Adds `comp` for `e` unless the lookup finds a component, which is then returned
        unchanged. Because the lookup fails only when every stored entity is below `e`, a new
        component always goes at the end, and the storage stays strictly ascending. */
    method Add(e: Entity, comp: Keyed<T>) returns (r: Keyed<T>)
      requires Valid()
      requires comp.entity == e
      modifies this
      ensures Valid()
      ensures components == Added(old(components), e, comp)
      ensures r == if old(Found(components, e)) then old(components[LowerBound(components, e)]) else comp
    {
      var it := Find(e);
      if it != |components| {
        return components[it];
      }
      AddedProperties(components, e, comp);
      components := components[..it] + [comp] + components[it..];
      r := comp;
    }

    /** Erases the component the lookup lands on, if any, and reports whether one was erased. */
    method Remove(e: Entity) returns (removed: bool)
      requires Valid()
      modifies this
      ensures Valid()
      ensures removed == old(Found(components, e))
      ensures components == Erased(old(components), e)
    {
      var it := Find(e);
      if it == |components| {
        return false;
      }
      ErasedProperties(components, e);
      components := components[..it] + components[it + 1..];
      removed := true;
    }

    /** Empties the storage. ComponentStorage.h does not declare Clear, which the registry's
        clearers call; this is the behaviour its name and those callers require. */
    method Clear()
      modifies this
      ensures Valid() && components == []
    {
      components := [];
    }
  }
}
