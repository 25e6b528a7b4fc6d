/** The observer list of Event.h. A Subject keeps its observers in registration order, each with
    the id AddObserver handed out; a callback is an opaque value of type C, and invoking it is
    recorded in an append-only log of (callback, data) pairs. */
module Events {

  /** One registered observer: its id and its callback. */
  datatype Entry<C> = Entry(id: nat, cb: C)

  /** Ids strictly increase along the list and stay below `next`. */
  ghost predicate IdsBelow<C>(obs: seq<Entry<C>>, next: nat) {
    && 0 < next
    && (forall i, j :: 0 <= i < j < |obs| ==> obs[i].id < obs[j].id)
    && (forall i :: 0 <= i < |obs| ==> 0 < obs[i].id < next)
  }

  /** The list without the entries whose id is `id`, others in their order (erase/remove_if). */
  function Without<C>(obs: seq<Entry<C>>, id: nat): (r: seq<Entry<C>>)
    ensures |r| <= |obs|
  {
    if obs == [] then []
    else (if obs[0].id == id then [] else [obs[0]]) + Without(obs[1..], id)
  }

  /** The calls Notify makes for `obs`, in order. */
  function Calls<C, T>(obs: seq<Entry<C>>, data: T): seq<(C, T)> {
    seq(|obs|, i requires 0 <= i < |obs| => (obs[i].cb, data))
  }

  /** Removing an id leaves no entry with it, and keeps exactly the entries with other ids. */
  lemma {:induction false} WithoutMembers<C>(obs: seq<Entry<C>>, id: nat)
    ensures forall x :: x in Without(obs, id) <==> x in obs && x.id != id
  {
    if obs != [] {
      WithoutMembers(obs[1..], id);
      assert obs == [obs[0]] + obs[1..];
    }
  }

  /** Removing an id that no entry holds changes nothing. */
  lemma {:induction false} WithoutAbsent<C>(obs: seq<Entry<C>>, id: nat)
    requires forall i :: 0 <= i < |obs| ==> obs[i].id != id
    ensures Without(obs, id) == obs
  {
    if obs != [] {
      WithoutAbsent(obs[1..], id);
      assert obs == [obs[0]] + obs[1..];
    }
  }

  /** Removing entries keeps the ids increasing and below the counter. */
  lemma {:induction false} WithoutKeepsIds<C>(obs: seq<Entry<C>>, id: nat, next: nat)
    requires IdsBelow(obs, next)
    ensures IdsBelow(Without(obs, id), next)
  {
    if obs != [] {
      var tail := obs[1..];
      assert IdsBelow(tail, next);
      WithoutKeepsIds(tail, id, next);
      if obs[0].id != id {
        assert forall i :: 0 <= i < |tail| ==> obs[0].id < tail[i].id < next by {
          forall i | 0 <= i < |tail|
            ensures obs[0].id < tail[i].id
          {
            assert tail[i] == obs[i + 1];
          }
        }
        WithoutBounds(tail, id, obs[0].id, next);
        ConsIds(obs[0], Without(tail, id), next);
      }
    }
  }

  /** Removing entries keeps every id within bounds that held for all of them. */
  lemma {:induction false} WithoutBounds<C>(obs: seq<Entry<C>>, id: nat, lo: nat, next: nat)
    requires forall i :: 0 <= i < |obs| ==> lo < obs[i].id < next
    ensures forall j :: 0 <= j < |Without(obs, id)| ==> lo < Without(obs, id)[j].id < next
  {
    if obs != [] {
      WithoutBounds(obs[1..], id, lo, next);
    }
  }

  /** An entry whose id is below every id of an increasing list can go in front of it. */
  lemma ConsIds<C>(x: Entry<C>, rest: seq<Entry<C>>, next: nat)
    requires IdsBelow(rest, next) && 0 < x.id < next
    requires forall j :: 0 <= j < |rest| ==> x.id < rest[j].id
    ensures IdsBelow([x] + rest, next)
  {
  }

  /** A Subject: its observers in registration order, the next id, and the log of the callback
      invocations it made. */
  class Subject<T, C> {
    var observers: seq<Entry<C>>
    var nextId: nat
    var log: seq<(C, T)>

    /** The ids of the observers increase in registration order and are below nextId. */
    ghost predicate Valid()
      reads this
    {
      IdsBelow(observers, nextId)
    }

    /** A new Subject: no observers, and the first id handed out is 1. */
    constructor()
      ensures observers == [] && nextId == 1 && log == []
      ensures Valid()
    {
      observers, nextId, log := [], 1, [];
    }

    /** Subject::AddObserver: the callback is appended under the next id, which is then
        advanced; the handle names this subject and that id. */
    method AddObserver(cb: C) returns (handle: ObserverHandle<T, C>)
      requires Valid()
      modifies this
      ensures observers == old(observers) + [Entry(old(nextId), cb)]
      ensures nextId == old(nextId) + 1 && log == old(log)
      ensures fresh(handle) && handle.subject == this && handle.id == old(nextId)
      ensures Valid()
    {
      var observerId := nextId;
      nextId := nextId + 1;
      observers := observers + [Entry(observerId, cb)];
      handle := new ObserverHandle.Bound(this, observerId);
    }

    /** Subject::Notify: every current observer's callback is invoked once with `data`, in
        registration order. */
    method Notify(data: T)
      modifies this
      ensures log == old(log) + Calls(old(observers), data)
      ensures observers == old(observers) && nextId == old(nextId)
    {
      var i := 0;
      while i < |observers|
        invariant 0 <= i <= |observers|
        invariant observers == old(observers) && nextId == old(nextId)
        invariant log == old(log) + Calls(observers[..i], data)
      {
        assert observers[..i + 1] == observers[..i] + [observers[i]];
        log := log + [(observers[i].cb, data)];
        i := i + 1;
      }
      assert observers[..i] == observers;
    }

    /** Subject::RemoveObserver: every entry with id `id` is erased, the others keep their
        order. */
    method RemoveObserver(id: nat)
      requires Valid()
      modifies this
      ensures observers == Without(old(observers), id)
      ensures nextId == old(nextId) && log == old(log)
      ensures Valid()
    {
      WithoutKeepsIds(observers, id, nextId);
      observers := Without(observers, id);
    }
  }

  /** ObserverHandle: the subject it can unsubscribe from (null for a default handle or once
      unsubscribed) and its observer id. */
  class ObserverHandle<T, C> {
    var subject: Subject?<T, C>
    var id: nat

    /** The default handle: no subject, id 0. */
    constructor()
      ensures subject == null && id == 0
    {
      subject, id := null, 0;
    }

    constructor Bound(s: Subject<T, C>, observerId: nat)
      ensures subject == s && id == observerId
    {
      subject, id := s, observerId;
    }

    /** ObserverHandle::Unsubscribe: removes this handle's observer from its subject, if any,
        and forgets the subject, so later calls do nothing. */
    method Unsubscribe()
      requires subject != null ==> subject.Valid()
      modifies this, subject
      ensures subject == null && id == old(id)
      ensures old(subject) != null ==>
                && old(subject).observers == Without(old(subject.observers), id)
                && old(subject).nextId == old(subject.nextId) && old(subject).log == old(subject.log)
                && old(subject).Valid()
    {
      if subject != null {
        subject.RemoveObserver(id);
      }
      subject := null;
    }
  }
}
