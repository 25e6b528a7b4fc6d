/** The older key table of InputManager.cpp (the copy under Voxel/ and the one beside it are the
    same code): each key maps to a vector of entries, an entry being a GLFW (action, mods) pair
    with the callbacks bound to it. Callbacks are opaque values of type C; running one is
    recorded by appending it to `log`. */
module KeyTable {

  /** One (action, mods) entry of a key and its callbacks in binding order. */
  datatype KeyEntry<C> = KeyEntry(action: int, mods: int, callbacks: seq<C>)

  predicate IsFor<C>(e: KeyEntry<C>, action: int, mods: int) {
    e.action == action && e.mods == mods
  }

  /** At most one entry per (action, mods) pair. */
  predicate Unique<C>(entries: seq<KeyEntry<C>>) {
    forall i, j :: 0 <= i < j < |entries| ==> !(entries[i].action == entries[j].action && entries[i].mods == entries[j].mods)
  }

  /** The index of the first entry for (action, mods), or |entries| when there is none. */
  function FirstEntry<C>(entries: seq<KeyEntry<C>>, action: int, mods: int): (r: nat)
    ensures r <= |entries|
    ensures r < |entries| ==> IsFor(entries[r], action, mods)
    ensures forall j :: 0 <= j < r ==> !IsFor(entries[j], action, mods)
  {
    if entries == [] then 0
    else if IsFor(entries[0], action, mods) then 0
    else 1 + FirstEntry(entries[1..], action, mods)
  }

  /** The entries of a key after BindNewKey: the callback is appended to the first entry for
      (action, mods), or a new entry holding just the callback goes last. */
  function Bound<C>(entries: seq<KeyEntry<C>>, action: int, mods: int, cb: C): seq<KeyEntry<C>> {
    var i := FirstEntry(entries, action, mods);
    if i < |entries| then entries[i := entries[i].(callbacks := entries[i].callbacks + [cb])]
    else entries + [KeyEntry(action, mods, [cb])]
  }

  /** The callbacks KeyCallback runs for (action, mods) over these entries: those of every
      entry for the pair, entry by entry, each in order. */
  function Fired<C>(entries: seq<KeyEntry<C>>, action: int, mods: int): seq<C> {
    if entries == [] then []
    else Fired(entries[..|entries| - 1], action, mods)
         + (if IsFor(entries[|entries| - 1], action, mods) then entries[|entries| - 1].callbacks else [])
  }

  /** What a key event runs on a table: nothing for an unbound key. */
  function FiredOn<C>(table: map<int, seq<KeyEntry<C>>>, key: int, action: int, mods: int): seq<C> {
    if key in table then Fired(table[key], action, mods) else []
  }

  /** Only the entry for a pair contributes to what fires for it, so in a unique table the
      callbacks of (action, mods) are those of its one entry. */
  lemma {:induction false} FiredUnique<C>(entries: seq<KeyEntry<C>>, action: int, mods: int)
    requires Unique(entries)
    ensures FirstEntry(entries, action, mods) < |entries| ==>
              Fired(entries, action, mods) == entries[FirstEntry(entries, action, mods)].callbacks
    ensures FirstEntry(entries, action, mods) == |entries| ==> Fired(entries, action, mods) == []
  {
    if entries != [] {
      var init := entries[..|entries| - 1];
      var last := entries[|entries| - 1];
      assert Unique(init);
      FiredUnique(init, action, mods);
      FirstSame(init, entries, action, mods);
    }
  }

  /** BindNewKey keeps at most one entry per pair. */
  lemma BoundUnique<C>(entries: seq<KeyEntry<C>>, action: int, mods: int, cb: C)
    requires Unique(entries)
    ensures Unique(Bound(entries, action, mods, cb))
    ensures |Bound(entries, action, mods, cb)| <= |entries| + 1
  {
    var i := FirstEntry(entries, action, mods);
    var r := Bound(entries, action, mods, cb);
    if i == |entries| {
      forall a, b | 0 <= a < b < |r|
        ensures !(r[a].action == r[b].action && r[a].mods == r[b].mods)
      {
        if b == |entries| {
          assert !IsFor(entries[a], action, mods);
        }
      }
    }
  }

  /** In a unique table, binding puts the callback last among those fired for its pair and
      leaves what fires for every other pair unchanged. */
  lemma BoundFired<C>(entries: seq<KeyEntry<C>>, action: int, mods: int, cb: C, action': int, mods': int)
    requires Unique(entries)
    ensures Fired(Bound(entries, action, mods, cb), action, mods) == Fired(entries, action, mods) + [cb]
    ensures action' != action || mods' != mods ==>
              Fired(Bound(entries, action, mods, cb), action', mods') == Fired(entries, action', mods')
  {
    var r := Bound(entries, action, mods, cb);
    BoundUnique(entries, action, mods, cb);
    FiredUnique(entries, action, mods);
    FiredUnique(r, action, mods);
    var i := FirstEntry(entries, action, mods);
    if i < |entries| {
      assert FirstEntry(r, action, mods) == i by {
        FirstSame(entries, r, action, mods);
      }
    } else {
      assert FirstEntry(r, action, mods) == |entries| by {
        FirstSame(entries, r, action, mods);
      }
    }
    if action' != action || mods' != mods {
      FiredUnique(entries, action', mods');
      FiredUnique(r, action', mods');
      FirstSame(entries, r, action', mods');
    }
  }

  /** Two vectors whose entries agree on their pairs, position by position up to the shorter
      one, have the same first entry for every pair found there. */
  lemma {:induction false} FirstSame<C>(a: seq<KeyEntry<C>>, b: seq<KeyEntry<C>>, action: int, mods: int)
    requires |a| <= |b|
    requires forall j :: 0 <= j < |a| ==> a[j].action == b[j].action && a[j].mods == b[j].mods
    ensures FirstEntry(a, action, mods) < |a| ==> FirstEntry(b, action, mods) == FirstEntry(a, action, mods)
    ensures FirstEntry(a, action, mods) == |a| ==> FirstEntry(b, action, mods) >= |a|
  {
    if a != [] {
      FirstSame(a[1..], b[1..], action, mods);
    }
  }

  /** The static table of the older InputManager and the callbacks it has run. */
  class KeyBindings<C> {
    var actionKeys: map<int, seq<KeyEntry<C>>>
    var log: seq<C>

    /** Every key's entries hold at most one entry per pair. */
    ghost predicate Valid()
      reads this
    {
      forall k :: k in actionKeys ==> Unique(actionKeys[k])
    }

    constructor()
      ensures actionKeys == map[] && log == []
      ensures Valid()
    {
      actionKeys, log := map[], [];
    }

    /** InputManager::BindNewKey: the callback joins the key's entry for (action, mods), or a
        new entry, or a new key; no other key changes. */
    method BindNewKey(key: int, action: int, mods: int, cb: C)
      requires Valid()
      modifies this
      ensures actionKeys == old(actionKeys)[key := Bound(if key in old(actionKeys) then old(actionKeys)[key] else [], action, mods, cb)]
      ensures log == old(log)
      ensures Valid()
    {
      if key in actionKeys {
        var entries := actionKeys[key];
        BoundUnique(entries, action, mods, cb);
        for i := 0 to |entries|
          invariant forall j :: 0 <= j < i ==> !IsFor(entries[j], action, mods)
        {
          if entries[i].action == action && entries[i].mods == mods {
            assert FirstEntry(entries, action, mods) == i by {
              FirstIs(entries, action, mods, i);
            }
            actionKeys := actionKeys[key := entries[i := entries[i].(callbacks := entries[i].callbacks + [cb])]];
            return;
          }
        }
        FirstIs(entries, action, mods, |entries|);
        actionKeys := actionKeys[key := entries + [KeyEntry(action, mods, [cb])]];
      } else {
        assert Bound([], action, mods, cb) == [KeyEntry(action, mods, [cb])];
        actionKeys := actionKeys[key := [KeyEntry(action, mods, [cb])]];
      }
    }

    /** InputManager::KeyCallback: every callback of every entry of the key for exactly
        (action, mods) runs in order; an unbound key runs none. */
    method KeyCallback(key: int, action: int, mods: int)
      modifies this
      ensures log == old(log) + FiredOn(old(actionKeys), key, action, mods)
      ensures actionKeys == old(actionKeys)
    {
      if key !in actionKeys {
        return;
      }
      var entries := actionKeys[key];
      for i := 0 to |entries|
        invariant log == old(log) + Fired(entries[..i], action, mods)
        invariant actionKeys == old(actionKeys)
      {
        assert entries[..i + 1][..i] == entries[..i];
        if entries[i].action == action && entries[i].mods == mods {
          RunEntry(entries[i].callbacks);
        }
      }
      assert entries[..|entries|] == entries;
    }

    /** The inner loop of KeyCallback: the callbacks of one entry run in order. */
    method RunEntry(cbs: seq<C>)
      modifies this
      ensures log == old(log) + cbs
      ensures actionKeys == old(actionKeys)
    {
      for j := 0 to |cbs|
        invariant log == old(log) + cbs[..j]
        invariant actionKeys == old(actionKeys)
      {
        assert cbs[..j + 1] == cbs[..j] + [cbs[j]];
        log := log + [cbs[j]];
      }
      assert cbs[..|cbs|] == cbs;
    }

    /** InputManager::Cleanup: every binding is dropped, so every later key event runs
        nothing. */
    method Cleanup()
      modifies this
      ensures actionKeys == map[] && log == old(log)
      ensures forall key, action, mods :: FiredOn(actionKeys, key, action, mods) == []
      ensures Valid()
    {
      actionKeys := map[];
    }
  }

  /** The scan of BindNewKey stops at the first entry for the pair. */
  lemma {:induction false} FirstIs<C>(entries: seq<KeyEntry<C>>, action: int, mods: int, i: nat)
    requires i <= |entries|
    requires i < |entries| ==> IsFor(entries[i], action, mods)
    requires forall j :: 0 <= j < i ==> !IsFor(entries[j], action, mods)
    ensures FirstEntry(entries, action, mods) == i
  {
    if i > 0 {
      FirstIs(entries[1..], action, mods, i - 1);
    }
  }
}
