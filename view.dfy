/** View<Ts...>: a lazy join over several component storages, driven by the storage that held
    the fewest components when the view was made. The type list is modelled as a
    sequence of storages of one payload type; the iteration is specified by functions over
    the storages' contents (`Layout`, a sequence with one component sequence per storage). */
module Views {
  import opened Wrappers
  import opened Entities
  import opened ComponentStorage

  /** SIZE_MAX for a 64-bit size_t. */
  const SizeMax: nat := 0xFFFF_FFFF_FFFF_FFFF

  /** What the iterator dereferences to: the entity and, for each storage in order, the
      component its Get returns for that entity. */
  datatype Row<T> = Row(entity: Entity, components: seq<Keyed<T>>)

  /** The std::out_of_range thrown when dereferencing past the last position. */
  datatype OutOfRange = OutOfRange

  type Layout<T> = seq<seq<Keyed<T>>>

  /** The smallest size among the storages. */
  function MinSize<T>(cs: Layout<T>): (n: nat)
    requires |cs| > 0
    ensures forall k :: 0 <= k < |cs| ==> n <= |cs[k]|
    ensures exists k :: 0 <= k < |cs| && n == |cs[k]|
  {
    if |cs| == 1 then |cs[0]|
    else
      var rest := MinSize(cs[1..]);
      assert forall k :: 1 <= k < |cs| ==> cs[1..][k - 1] == cs[k];
      if |cs[0]| <= rest then |cs[0]| else rest
  }

  /** Whether the lookup of every storage finds a component for `e`. */
  ghost predicate FoundInAll<T>(cs: Layout<T>, e: Entity) {
    forall k :: 0 <= k < |cs| ==> Found(cs[k], e)
  }

  /** Each storage's component for `e`: the one its lookup lands on, whose entity is at or
      above `e`. */
  ghost function Lookups<T>(cs: Layout<T>, e: Entity): (r: seq<Keyed<T>>)
    requires FoundInAll(cs, e)
    ensures |r| == |cs|
    ensures forall k :: 0 <= k < |cs| ==> r[k].entity >= e
  {
    seq(|cs|, k requires 0 <= k < |cs| => cs[k][LowerBound(cs[k], e)])
  }

  /** Whether position `i` of the primary storage `p` is one the view yields. */
  ghost predicate Matches<T>(cs: Layout<T>, p: nat, i: nat)
    requires p < |cs|
  {
    i < MinSize(cs) && FoundInAll(cs, cs[p][i].entity)
  }

  /** Where AdvanceToValid stops when started at `i`: the first yielded position from `i` on,
      or the primary size when there is none; a start beyond the primary size stays put. */
  ghost function NextMatch<T>(cs: Layout<T>, p: nat, i: nat): (j: nat)
    requires p < |cs|
    ensures i <= j
    ensures j < MinSize(cs) ==> Matches(cs, p, j)
    ensures j >= MinSize(cs) ==> j == i || j == MinSize(cs)
    decreases MinSize(cs) - i
  {
    if i >= MinSize(cs) || Matches(cs, p, i) then i else NextMatch(cs, p, i + 1)
  }

  /** NextMatch skips only positions that are not yielded. */
  lemma {:induction false} NextMatchSkipsNonMatches<T>(cs: Layout<T>, p: nat, i: nat, k: nat)
    requires p < |cs|
    requires i <= k < NextMatch(cs, p, i)
    ensures !Matches(cs, p, k)
    decreases MinSize(cs) - i
  {
    if k > i {
      NextMatchSkipsNonMatches(cs, p, i + 1, k);
    }
  }

  /** The entities the view yields from position `i` on, in iteration order. */
  ghost function Yielded<T>(cs: Layout<T>, p: nat, i: nat): seq<Entity>
    requires p < |cs|
    decreases MinSize(cs) - i
  {
    if i >= MinSize(cs) then []
    else if Matches(cs, p, i) then [cs[p][i].entity] + Yielded(cs, p, i + 1)
    else Yielded(cs, p, i + 1)
  }

  /** At a yielded position the view yields that position's entity, then the rest. */
  lemma YieldedStep<T>(cs: Layout<T>, p: nat, i: nat)
    requires p < |cs|
    requires Matches(cs, p, i)
    ensures Yielded(cs, p, i) == [cs[p][i].entity] + Yielded(cs, p, i + 1)
  {
  }

  /** The bookkeeping of one turn of the range-for: appending the entity at a yielded position
      and moving on to the next yielded position leaves the concatenation unchanged. */
  lemma YieldedVisit<T>(cs: Layout<T>, p: nat, i: nat, j: nat, es: seq<Entity>, es': seq<Entity>)
    requires p < |cs| && Matches(cs, p, i)
    requires j == NextMatch(cs, p, i + 1)
    requires es' == es + [cs[p][i].entity]
    ensures es' + Yielded(cs, p, j) == es + Yielded(cs, p, i)
    ensures i < j <= MinSize(cs) && (j < MinSize(cs) ==> Matches(cs, p, j))
  {
    var x := cs[p][i].entity;
    var y := Yielded(cs, p, j);
    assert Yielded(cs, p, i) == [x] + y by {
      YieldedStep(cs, p, i);
      YieldedFrom(cs, p, i + 1);
    }
    SeqAssoc(es, [x], y);
  }

  lemma SeqAssoc<X>(a: seq<X>, b: seq<X>, c: seq<X>)
    ensures (a + b) + c == a + (b + c)
  {
  }

  /** Skipping the positions AdvanceToValid skips does not change what is yielded. */
  lemma {:induction false} YieldedFrom<T>(cs: Layout<T>, p: nat, i: nat)
    requires p < |cs|
    ensures Yielded(cs, p, i) == Yielded(cs, p, NextMatch(cs, p, i))
    decreases MinSize(cs) - i
  {
    if i < MinSize(cs) && !Matches(cs, p, i) {
      YieldedFrom(cs, p, i + 1);
    }
  }

  /** An entity is yielded exactly when it sits below the primary size in the primary storage
      and every storage's lookup finds it. */
  lemma {:induction false} YieldedMembers<T>(cs: Layout<T>, p: nat, i: nat, x: Entity)
    requires p < |cs|
    ensures x in Yielded(cs, p, i) <==>
      exists k :: i <= k < MinSize(cs) && cs[p][k].entity == x && FoundInAll(cs, x)
    decreases MinSize(cs) - i
  {
    if i < MinSize(cs) {
      YieldedMembers(cs, p, i + 1, x);
      if exists k :: i <= k < MinSize(cs) && cs[p][k].entity == x && FoundInAll(cs, x) {
        var k :| i <= k < MinSize(cs) && cs[p][k].entity == x && FoundInAll(cs, x);
        if k == i {
          assert Matches(cs, p, i);
        }
      }
    }
  }

  /** Entities strictly ascending. */
  ghost predicate AscendingIds(s: seq<Entity>) {
    forall i, j :: 0 <= i < j < |s| ==> s[i] < s[j]
  }

  /** Over an ascending primary storage the view yields strictly ascending entities, each of
      them a primary entity at or after the starting position. */
  lemma {:induction false} YieldedAscending<T>(cs: Layout<T>, p: nat, i: nat)
    requires p < |cs| && Ascending(cs[p])
    ensures AscendingIds(Yielded(cs, p, i))
    ensures forall k :: 0 <= k < |Yielded(cs, p, i)| ==>
      exists q :: i <= q < MinSize(cs) && Yielded(cs, p, i)[k] == cs[p][q].entity
    decreases MinSize(cs) - i
  {
    if i < MinSize(cs) {
      YieldedAscending(cs, p, i + 1);
      var s := Yielded(cs, p, i);
      var t := Yielded(cs, p, i + 1);
      if Matches(cs, p, i) {
        assert s == [cs[p][i].entity] + t;
        forall k | 0 <= k < |s|
          ensures (k > 0 ==> cs[p][i].entity < s[k]) &&
            exists q :: i <= q < MinSize(cs) && s[k] == cs[p][q].entity
        {
          if k > 0 {
            assert s[k] == t[k - 1];
            var q :| i + 1 <= q < MinSize(cs) && t[k - 1] == cs[p][q].entity;
          } else {
            assert s[0] == cs[p][i].entity;
          }
        }
      }
    }
  }

  /** The contents of the storages, one sequence per storage. */
  function Contents<T>(ss: seq<Storage<T>>): (cs: Layout<T>)
    reads ss
    ensures |cs| == |ss|
    ensures forall k :: 0 <= k < |ss| ==> cs[k] == ss[k].components
  {
    if ss == [] then [] else [ss[0].components] + Contents(ss[1..])
  }

  /** The index of the first storage whose size is smallest. The running minimum starts at
      SIZE_MAX and is replaced only by a strictly smaller size. */
  method FindSmallestStorage<T>(ss: seq<Storage<T>>) returns (index: nat)
    requires |ss| > 0
    requires forall k :: 0 <= k < |ss| ==> |ss[k].components| < SizeMax
    ensures index < |ss|
    ensures forall k :: 0 <= k < |ss| ==> |ss[index].components| <= |ss[k].components|
    ensures forall k :: 0 <= k < index ==> |ss[index].components| < |ss[k].components|
  {
    index := 0;
    var minSize := SizeMax;
    var i := 0;
    while i < |ss|
      invariant 0 <= i <= |ss|
      invariant i == 0 ==> index == 0 && minSize == SizeMax
      invariant i > 0 ==> index < i && minSize == |ss[index].components|
      invariant forall k :: 0 <= k < i ==> minSize <= |ss[k].components|
      invariant forall k :: 0 <= k < index ==> minSize < |ss[k].components|
    {
      if |ss[i].components| < minSize {
        minSize := |ss[i].components|;
        index := i;
      }
      i := i + 1;
    }
  }

  class View<T> {
    const storages: seq<Storage<T>>
    /** Index of the storage that drives iteration. */
    const primary: nat

    ghost predicate Valid()
      reads this, storages
    {
      |storages| > 0 && primary < |storages| &&
      forall k :: 0 <= k < |storages| ==> storages[k].Valid()
    }

    /** Binds the storages and picks as primary the first one of the smallest size. */
    constructor (ss: seq<Storage<T>>)
      requires |ss| > 0
      requires forall k :: 0 <= k < |ss| ==> ss[k].Valid() && |ss[k].components| < SizeMax
      ensures storages == ss && Valid()
      ensures forall k :: 0 <= k < |ss| ==> |ss[primary].components| <= |ss[k].components|
      ensures forall k :: 0 <= k < primary ==> |ss[primary].components| < |ss[k].components|
    {
      var index := FindSmallestStorage(ss);
      storages, primary := ss, index;
    }

    /** The smallest current size among the storages: positions below it are inside every
        storage, in particular inside the primary one. */
    function PrimarySize(): (n: nat)
      reads storages
      requires |storages| > 0
      ensures forall k :: 0 <= k < |storages| ==> n <= |storages[k].components|
    {
      MinSize(Contents(storages))
    }

    function GetPrimaryEntity(index: nat): Entity
      reads this, storages
      requires Valid()
      requires index < PrimarySize()
    {
      storages[primary].components[index].entity
    }

    /** Whether every storage has a component for `e`, evaluated left to right with
        short-circuit. */
    method HasAll(e: Entity) returns (b: bool)
      requires Valid()
      ensures b <==> FoundInAll(Contents(storages), e)
    {
      var i := 0;
      while i < |storages|
        invariant 0 <= i <= |storages|
        invariant forall k :: 0 <= k < i ==> Found(storages[k].components, e)
      {
        var found := storages[i].Has(e);
        if !found {
          return false;
        }
        i := i + 1;
      }
      b := true;
    }

    /** Each storage's component for `e`, in storage order; every lookup must succeed, since
        the editor dereferences the pointers unchecked. */
    method GetAll(e: Entity) returns (comps: seq<Keyed<T>>)
      requires Valid()
      requires FoundInAll(Contents(storages), e)
      ensures comps == Lookups(Contents(storages), e)
    {
      ghost var cs := Contents(storages);
      comps := [];
      var k := 0;
      while k < |storages|
        invariant cs == Contents(storages)
        invariant 0 <= k <= |storages|
        invariant |comps| == k
        invariant forall j :: 0 <= j < k ==> comps[j] == cs[j][LowerBound(cs[j], e)]
      {
        var c := storages[k].Get(e);
        comps := comps + [c.value];
        k := k + 1;
      }
      assert forall j :: 0 <= j < |cs| ==> comps[j] == Lookups(cs, e)[j];
    }

    /** One test of the scan: whether every storage holds the entity at primary position `j`.
        The search for the next yielded position stops there exactly when it does. */
    method MatchAt(j: nat, ghost cs: Layout<T>) returns (b: bool)
      requires Valid() && cs == Contents(storages) && j < MinSize(cs)
      ensures b <==> Matches(cs, primary, j)
      ensures b ==> NextMatch(cs, primary, j) == j
      ensures !b ==> NextMatch(cs, primary, j) == NextMatch(cs, primary, j + 1)
    {
      var e := GetPrimaryEntity(j);
      b := HasAll(e);
      assert e == cs[primary][j].entity;
    }

    /** The scan of AdvanceToValid: from position `i`, skip every position whose entity some
        storage lacks, stopping at the primary size. */
    method FirstMatchFrom(i: nat) returns (j: nat)
      requires Valid()
      ensures j == NextMatch(Contents(storages), primary, i)
    {
      ghost var cs: Layout<T> := Contents(storages);
      var size := PrimarySize();
      assert size == MinSize(cs);
      j := i;
      while j < size
        invariant cs == Contents(storages)
        invariant i <= j
        invariant NextMatch(cs, primary, i) == NextMatch(cs, primary, j)
        decreases size - j
      {
        var yielded := MatchAt(j, cs);
        if yielded {
          return;
        }
        j := j + 1;
      }
      assert NextMatch(cs, primary, j) == j;
    }

    method Begin() returns (it: Iterator<T>)
      requires Valid()
      ensures fresh(it) && it.view == this
      ensures it.index == NextMatch(Contents(storages), primary, 0)
    {
      it := new Iterator(this, 0);
    }

    method End() returns (it: Iterator<T>)
      requires Valid()
      ensures fresh(it) && it.view == this
      ensures it.index == PrimarySize()
    {
      it := new Iterator(this, PrimarySize());
    }

    /** One turn of the range-for: dereference the iterator, append the row's entity to
        `es` and step the iterator. */
    method Visit(it: Iterator<T>, ghost cs: Layout<T>, es: seq<Entity>) returns (es': seq<Entity>)
      requires Valid() && it.view == this && cs == Contents(storages)
      requires it.index < MinSize(cs) && Matches(cs, primary, it.index)
      modifies it`index
      ensures Contents(storages) == cs
      ensures es' + Yielded(cs, primary, it.index) == es + Yielded(cs, primary, old(it.index))
      ensures old(it.index) < it.index <= MinSize(cs)
      ensures it.index < MinSize(cs) ==> Matches(cs, primary, it.index)
    {
      ghost var here := it.index;
      var e := RowEntity(it, cs);
      assert e == cs[primary][here].entity;
      es' := es + [e];
      it.Next();
      YieldedVisit(cs, primary, here, it.index, es, es');
    }

    /** The entity of the row `*it` yields while `it` is on a matching row. */
    method RowEntity(it: Iterator<T>, ghost cs: Layout<T>) returns (e: Entity)
      requires Valid() && it.view == this && cs == Contents(storages)
      requires it.index < MinSize(cs) && Matches(cs, primary, it.index)
      ensures e == cs[primary][it.index].entity
    {
      var row := it.Deref();
      e := row.value.entity;
    }

    /** A range-for over the view: the entities of the rows it visits, in order. These are the
        yielded entities, strictly ascending. */
    method Entities() returns (es: seq<Entity>)
      requires Valid()
      ensures es == Yielded(Contents(storages), primary, 0)
      ensures AscendingIds(es)
    {
      ghost var cs: Layout<T> := Contents(storages);
      var first := Begin();
      assert Contents(storages) == cs;
      var last := End();
      assert Contents(storages) == cs;
      es := Collect(first, last, cs);
      assert AscendingIds(Yielded(cs, primary, 0)) by {
        YieldedAscending(cs, primary, 0);
      }
    }

    /** The loop of the range-for, from `it` up to the end iterator `last`. */
    method Collect(it: Iterator<T>, last: Iterator<T>, ghost cs: Layout<T>) returns (es: seq<Entity>)
      requires Valid() && cs == Contents(storages)
      requires it != last && it.view == this && last.view == this && last.index == MinSize(cs)
      requires it.index == NextMatch(cs, primary, 0)
      modifies it`index
      ensures es == Yielded(cs, primary, 0)
    {
      es := [];
      assert es + Yielded(cs, primary, it.index) == Yielded(cs, primary, 0) by {
        YieldedFrom(cs, primary, 0);
      }
      while it.NotEqual(last)
        invariant Contents(storages) == cs && last.index == MinSize(cs)
        invariant it.index <= MinSize(cs)
        invariant it.index < MinSize(cs) ==> Matches(cs, primary, it.index)
        invariant es + Yielded(cs, primary, it.index) == Yielded(cs, primary, 0)
        decreases MinSize(cs) - it.index
      {
        es := Visit(it, cs, es);
      }
    }
  }

  class Iterator<T> {
    const view: View<T>
    var index: nat

    /** Makes an iterator at `i` and advances it to the first yielded position at or after `i`. */
    constructor (v: View<T>, i: nat)
      requires v.Valid()
      ensures view == v && index == NextMatch(Contents(v.storages), v.primary, i)
    {
      view := v;
      index := i;
      new;
      AdvanceToValid();
    }

    method AdvanceToValid()
      requires view.Valid()
      modifies this`index
      ensures index == NextMatch(Contents(view.storages), view.primary, old(index))
    {
      var i := view.FirstMatchFrom(index);
      index := i;
    }

    /** operator++: step once, then advance to the next yielded position. */
    method Next()
      requires view.Valid()
      modifies this`index
      ensures index == NextMatch(Contents(view.storages), view.primary, old(index) + 1)
    {
      index := index + 1;
      AdvanceToValid();
    }

    /** operator!=: iterators compare by position only. */
    predicate NotEqual(other: Iterator<T>)
      reads this, other
    {
      index != other.index
    }

    /** operator*: past the primary size it throws; otherwise the entity at this position with
        each storage's component for it. Dereferencing the null pointer Get returns for a
        storage lacking the entity is undefined, hence the requirement that this position is
        one the iterator can stop at. */
    method Deref() returns (r: Result<Row<T>, OutOfRange>)
      requires view.Valid()
      requires index < view.PrimarySize() ==> Matches(Contents(view.storages), view.primary, index)
      ensures r.Err? <==> index >= view.PrimarySize()
      ensures r.Ok? ==>
        r.value.entity == view.GetPrimaryEntity(index) &&
        r.value.components == Lookups(Contents(view.storages), r.value.entity)
    {
      if index >= view.PrimarySize() {
        return Err(OutOfRange);
      }
      var e := view.GetPrimaryEntity(index);
      var comps := view.GetAll(e);
      r := Ok(Row(e, comps));
    }
  }
}
