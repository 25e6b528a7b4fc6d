/** Entity identifiers. The editor hands out identifiers from a counter that starts at the
    invalid identifier 0, so every entity it creates has an identifier of at least 1. */
module Entities {
  type Entity = nat

  const InvalidEntity: Entity := 0

  /** A set holding `x` has a least element, found by descending from `x`. */
  lemma {:induction false} HasLeast(s: set<Entity>, x: Entity)
    requires x in s
    ensures exists m :: m in s && forall y :: y in s ==> m <= y
    decreases x
  {
    if y :| y in s && y < x {
      HasLeast(s, y);
    } else {
      assert forall y :: y in s ==> x <= y;
    }
  }

  /** One step of iterating a std::set<Entity>: the least remaining element and the rest. */
  method PopLeast(s: set<Entity>) returns (m: Entity, rest: set<Entity>)
    requires s != {}
    ensures m in s && rest == s - {m}
    ensures forall y :: y in s ==> m <= y
  {
    var x :| x in s;
    HasLeast(s, x);
    m :| m in s && forall y :: y in s ==> m <= y;
    rest := s - {m};
  }

  /** Strictly ascending: the order in which a std::set<Entity> is iterated. */
  predicate Increasing(ks: seq<Entity>) {
    forall a, b :: 0 <= a < b < |ks| ==> ks[a] < ks[b]
  }

  /** The elements of `s` in the order a range-for over a std::set<Entity> visits them. */
  method InOrder(s: set<Entity>) returns (ks: seq<Entity>)
    ensures Increasing(ks)
    ensures forall x :: x in s <==> x in ks
  {
    ks := [];
    var todo := s;
    while todo != {}
      invariant Increasing(ks)
      invariant forall x :: x in s <==> x in ks || x in todo
      invariant forall a, y :: 0 <= a < |ks| && y in todo ==> ks[a] < y
      invariant forall y :: y in todo ==> y in s
      decreases |todo|
    {
      var m;
      m, todo := PopLeast(todo);
      ks := ks + [m];
    }
  }
}
