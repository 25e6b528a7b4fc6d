/** The action-binding InputManager of Input/InputManager.cpp: chords bound to actions, callbacks
    per action and trigger, and the held state of each action. Callbacks are opaque values of type
    C; invoking one is recorded by appending it to `log`. */
module InputBindings {
  import opened InputActions

  datatype InputDevice = Keyboard | MouseButton | MouseScroll
  datatype InputTrigger = Pressed | Released | Held

  /** A key, mouse button or scroll direction on a device, with a GLFW modifier bitmask. The
      source's `int` mods are 32-bit two's complement, so `&` on them is `&` on bv32. */
  datatype KeyChord = KeyChord(device: InputDevice, key: int, mods: bv32)

  /** The pressed, released and held callbacks of one action, each in binding order. */
  datatype ActionCallbacks<C> = ActionCallbacks(pressed: seq<C>, released: seq<C>, held: seq<C>)

  /** GLFW's key-action codes. */
  const GlfwRelease: int := 0
  const GlfwPress: int := 1
  const GlfwRepeat: int := 2

  /** GLFW's Shift, Control, Alt and Super modifier bits. */
  const ModShift: bv32 := 0x1
  const ModControl: bv32 := 0x2
  const ModAlt: bv32 := 0x4
  const ModSuper: bv32 := 0x8

  /** The scroll "keys" of the MouseScroll device; their values are not part of this model's
      sources, only that they are distinct and not 0. */
  const ScrollUp: int := 1
  const ScrollDown: int := -1

  type Bindings = map<InputAction, seq<KeyChord>>

  /** NormaliseMods: only the Shift, Control, Alt and Super bits are kept. */
  function NormaliseMods(mods: bv32): (r: bv32)
    ensures r & !(ModShift | ModControl | ModAlt | ModSuper) == 0
    ensures r & ModShift == mods & ModShift && r & ModControl == mods & ModControl
    ensures r & ModAlt == mods & ModAlt && r & ModSuper == mods & ModSuper
  {
    mods & (ModShift | ModControl | ModAlt | ModSuper)
  }

  /** Normalising twice is normalising once. */
  lemma NormaliseIdempotent(mods: bv32)
    ensures NormaliseMods(NormaliseMods(mods)) == NormaliseMods(mods)
  {
  }

  /** A binding that uses only the four modifier bits matches a chord exactly when it matches
      the chord with its mods normalised: lock-key bits never decide a match. */
  lemma NormalisedMatch(binding: KeyChord, current: KeyChord)
    requires NormaliseMods(binding.mods) == binding.mods
    ensures Matches(binding, current) <==> Matches(binding, current.(mods := NormaliseMods(current.mods)))
  {
    var k := ModShift | ModControl | ModAlt | ModSuper;
    assert binding.mods & k == binding.mods;
    MaskedAnd(binding.mods, current.mods, k);
    assert NormaliseMods(current.mods) == current.mods & k;
  }

  /** Masking the present bits with a mask the required bits lie within changes nothing. */
  lemma MaskedAnd(m: bv32, c: bv32, k: bv32)
    requires m & k == m
    ensures m & (c & k) == m & c
  {
  }

  /** A binding matches a chord on the same device and key whose mods include all of the
      binding's mods. */
  predicate Matches(binding: KeyChord, current: KeyChord) {
    binding.device == current.device && binding.key == current.key && ModsCovered(binding.mods, current.mods)
  }

  /** The mods-subset test: every bit of `required` is set in `present`. */
  predicate ModsCovered(required: bv32, present: bv32) {
    required & present == required
  }

  /** Some chord bound to `action` matches `current`. */
  predicate BoundTo(bindings: Bindings, action: InputAction, current: KeyChord) {
    action in bindings && exists i :: 0 <= i < |bindings[action]| && Matches(bindings[action][i], current)
  }

  /** Some binding of some action matches `current`. */
  predicate AnyMatch(bindings: Bindings, current: KeyChord) {
    exists a :: BoundTo(bindings, a, current)
  }

  /** The chords of `action`, or the empty vector operator[] would insert. */
  function ChordsOf(bindings: Bindings, action: InputAction): seq<KeyChord> {
    if action in bindings then bindings[action] else []
  }

  /** A chord matches itself: a chord's mods are a subset of its own. */
  lemma MatchesItself(c: KeyChord)
    ensures Matches(c, c)
  {
  }

  /** After a chord is appended to an action, that action is bound to the chord, and which
      actions other chords are bound to only grows by that action. */
  lemma AppendedBinds(bindings: Bindings, action: InputAction, c: KeyChord, other: KeyChord)
    ensures BoundTo(bindings[action := ChordsOf(bindings, action) + [c]], action, c)
    ensures forall a :: a != action ==>
              (BoundTo(bindings[action := ChordsOf(bindings, action) + [c]], a, other) <==> BoundTo(bindings, a, other))
    ensures BoundTo(bindings, action, other) ==> BoundTo(bindings[action := ChordsOf(bindings, action) + [c]], action, other)
  {
    var b := bindings[action := ChordsOf(bindings, action) + [c]];
    var n := |ChordsOf(bindings, action)|;
    assert b[action][n] == c;
    if BoundTo(bindings, action, other) {
      var i :| 0 <= i < |bindings[action]| && Matches(bindings[action][i], other);
      assert b[action][i] == bindings[action][i];
    }
  }

  /** The conflict test looks one way only: a chord with more modifiers than an existing binding
      is refused, but one with fewer is accepted, after which both match the chord with more. */
  lemma ConflictDependsOnOrder()
    ensures Matches(KeyChord(Keyboard, 75, ModControl), KeyChord(Keyboard, 75, ModControl | ModShift))
    ensures !Matches(KeyChord(Keyboard, 75, ModControl | ModShift), KeyChord(Keyboard, 75, ModControl))
  {
  }

  /** The vector without its first element equal to `x` (std::find then erase). */
  function RemoveFirst(s: seq<KeyChord>, x: KeyChord): (r: seq<KeyChord>)
    ensures x in s ==> |r| == |s| - 1
    ensures x !in s ==> r == s
  {
    if s == [] then []
    else if s[0] == x then s[1..]
    else [s[0]] + RemoveFirst(s[1..], x)
  }

  /** RemoveFirst takes one copy of `x` out of the multiset of chords. */
  lemma {:induction false} RemoveFirstMultiset(s: seq<KeyChord>, x: KeyChord)
    ensures x in s ==> multiset(RemoveFirst(s, x)) == multiset(s) - multiset{x}
  {
    if s != [] && s[0] != x {
      RemoveFirstMultiset(s[1..], x);
      assert s == [s[0]] + s[1..];
    } else if s != [] {
      assert s == [s[0]] + s[1..];
    }
  }

  /** Erasing at the first occurrence of `x` is RemoveFirst. */
  lemma {:induction false} RemoveFirstAt(s: seq<KeyChord>, x: KeyChord, i: nat)
    requires i < |s| && s[i] == x && forall j :: 0 <= j < i ==> s[j] != x
    ensures RemoveFirst(s, x) == s[..i] + s[i + 1..]
  {
    if i > 0 {
      RemoveFirstAt(s[1..], x, i - 1);
      assert s[1..][..i - 1] == s[1..i];
      assert s[..i] == [s[0]] + s[1..i];
    }
  }

  /** Appending a chord the action did not hold and removing it again restores the chords. */
  lemma {:induction false} RemoveAppended(s: seq<KeyChord>, x: KeyChord)
    requires x !in s
    ensures RemoveFirst(s + [x], x) == s
  {
    if s != [] {
      RemoveAppended(s[1..], x);
      assert (s + [x])[1..] == s[1..] + [x];
    }
  }

  /** The callbacks of `action` for `trigger`, or none when no callback was bound. */
  function CallbacksFor<C>(callbacks: map<InputAction, ActionCallbacks<C>>, action: InputAction, trigger: InputTrigger): seq<C> {
    if action !in callbacks then []
    else match trigger
      case Pressed => callbacks[action].pressed
      case Released => callbacks[action].released
      case Held => callbacks[action].held
  }

  /** The callbacks of one action after binding `cb` for `trigger`. */
  function WithCallback<C>(cbs: ActionCallbacks<C>, trigger: InputTrigger, cb: C): ActionCallbacks<C> {
    match trigger
    case Pressed => cbs.(pressed := cbs.pressed + [cb])
    case Released => cbs.(released := cbs.released + [cb])
    case Held => cbs.(held := cbs.held + [cb])
  }

  /** The callbacks of `action`, or the empty set operator[] would insert. */
  function CallbacksOf<C>(callbacks: map<InputAction, ActionCallbacks<C>>, action: InputAction): ActionCallbacks<C> {
    if action in callbacks then callbacks[action] else ActionCallbacks([], [], [])
  }

  /** Binding a callback puts it last in its own list and leaves every other list as it was. */
  lemma BoundCallbackLast<C>(callbacks: map<InputAction, ActionCallbacks<C>>, action: InputAction, trigger: InputTrigger, cb: C)
    ensures CallbacksFor(callbacks[action := WithCallback(CallbacksOf(callbacks, action), trigger, cb)], action, trigger) ==
            CallbacksFor(callbacks, action, trigger) + [cb]
    ensures forall a, t :: a != action || t != trigger ==>
              CallbacksFor(callbacks[action := WithCallback(CallbacksOf(callbacks, action), trigger, cb)], a, t) ==
              CallbacksFor(callbacks, a, t)
  {
  }

  predicate IsHeld(states: map<InputAction, bool>, a: InputAction) {
    a in states && states[a]
  }

  /** The held states after a button event with GLFW action `glfwAction` whose chord was found
      to belong to `action`: a repeat or an unbound chord changes nothing, a press marks the
      action held, a release marks it not held, and other codes change nothing. */
  function ButtonStates(states: map<InputAction, bool>, action: InputAction, glfwAction: int): map<InputAction, bool> {
    if glfwAction == GlfwRepeat || action == None then states
    else if glfwAction == GlfwPress then (if IsHeld(states, action) then states else states[action := true])
    else if glfwAction == GlfwRelease then states[action := false]
    else states
  }

  /** The callbacks such an event fires: Pressed ones for a press of an action not held, Released
      ones for every release, none otherwise. */
  function ButtonFired<C>(callbacks: map<InputAction, ActionCallbacks<C>>, states: map<InputAction, bool>,
                          action: InputAction, glfwAction: int): seq<C> {
    if glfwAction == GlfwRepeat || action == None then []
    else if glfwAction == GlfwPress then (if IsHeld(states, action) then [] else CallbacksFor(callbacks, action, Pressed))
    else if glfwAction == GlfwRelease then CallbacksFor(callbacks, action, Released)
    else []
  }

  /** Pressing twice fires the Pressed callbacks once: the second press finds the action held
      and changes nothing. */
  lemma PressTwice<C>(callbacks: map<InputAction, ActionCallbacks<C>>, states: map<InputAction, bool>, action: InputAction)
    requires action != None
    ensures IsHeld(ButtonStates(states, action, GlfwPress), action)
    ensures ButtonStates(ButtonStates(states, action, GlfwPress), action, GlfwPress) == ButtonStates(states, action, GlfwPress)
    ensures ButtonFired(callbacks, ButtonStates(states, action, GlfwPress), action, GlfwPress) == []
  {
  }

  /** A release clears the held state and fires the Released callbacks whether or not the
      action was held, after which a press fires the Pressed callbacks again. */
  lemma ReleaseThenPress<C>(callbacks: map<InputAction, ActionCallbacks<C>>, states: map<InputAction, bool>, action: InputAction)
    requires action != None
    ensures !IsHeld(ButtonStates(states, action, GlfwRelease), action)
    ensures ButtonFired(callbacks, states, action, GlfwRelease) == CallbacksFor(callbacks, action, Released)
    ensures ButtonFired(callbacks, ButtonStates(states, action, GlfwRelease), action, GlfwPress) ==
            CallbacksFor(callbacks, action, Pressed)
  {
  }

  /** Button events only ever touch the state of the action they were found to belong to. */
  lemma ButtonStatesLocal(states: map<InputAction, bool>, action: InputAction, glfwAction: int, other: InputAction)
    requires other != action
    ensures IsHeld(ButtonStates(states, action, glfwAction), other) == IsHeld(states, other)
  {
  }

  /** The Held callbacks of the actions in `order`, in that order. */
  function HeldCalls<C>(callbacks: map<InputAction, ActionCallbacks<C>>, order: seq<InputAction>): seq<C> {
    if order == [] then []
    else HeldCalls(callbacks, order[..|order| - 1]) + CallbacksFor(callbacks, order[|order| - 1], Held)
  }

  /** Visiting two runs of actions one after the other calls the Held callbacks of the first,
      then those of the second. */
  lemma {:induction false} HeldCallsConcat<C>(callbacks: map<InputAction, ActionCallbacks<C>>, a: seq<InputAction>, b: seq<InputAction>)
    ensures HeldCalls(callbacks, a + b) == HeldCalls(callbacks, a) + HeldCalls(callbacks, b)
  {
    if b == [] {
      assert a + b == a;
    } else {
      HeldCallsConcat(callbacks, a, b[..|b| - 1]);
      assert (a + b)[..|a + b| - 1] == a + b[..|b| - 1];
    }
  }

  /** A single visited action contributes exactly its own Held callbacks. */
  lemma {:induction false} HeldCallsOne<C>(callbacks: map<InputAction, ActionCallbacks<C>>, a: InputAction)
    ensures HeldCalls(callbacks, [a]) == CallbacksFor(callbacks, a, Held)
  {
    assert [a][..0] == [];
  }

  /** The scroll key of a vertical offset: up for a positive one, down for a negative one, 0 for
      none. */
  function ScrollDirection(yOffset: int): int {
    if yOffset > 0 then ScrollUp else if yOffset < 0 then ScrollDown else 0
  }

  class InputManager<C> {
    var actionBindings: Bindings
    var callbacks: map<InputAction, ActionCallbacks<C>>
    var actionStates: map<InputAction, bool>
    var log: seq<C>

    constructor()
      ensures actionBindings == map[] && callbacks == map[] && actionStates == map[] && log == []
    {
      actionBindings, callbacks, actionStates, log := map[], map[], map[], [];
    }

    /** InputManager::BindAction: the callback goes last in the list of its action and
        trigger. */
    method BindAction(action: InputAction, trigger: InputTrigger, cb: C)
      modifies this
      ensures callbacks == old(callbacks)[action := WithCallback(CallbacksOf(old(callbacks), action), trigger, cb)]
      ensures actionBindings == old(actionBindings) && actionStates == old(actionStates) && log == old(log)
    {
      var cbs := if action in callbacks then callbacks[action] else ActionCallbacks([], [], []);
      match trigger {
        case Pressed => cbs := cbs.(pressed := cbs.pressed + [cb]);
        case Released => cbs := cbs.(released := cbs.released + [cb]);
        case Held => cbs := cbs.(held := cbs.held + [cb]);
      }
      callbacks := callbacks[action := cbs];
    }

    /** InputManager::FindMatchingAction: the actions are visited in the unordered map's
        unspecified order and the first one with a matching chord is returned, None when no
        chord matches. So the result is None when nothing matches, and otherwise an action
        with a matching chord (which is None itself only if None has one). */
    method FindMatchingAction(current: KeyChord) returns (r: InputAction)
      ensures !AnyMatch(actionBindings, current) ==> r == None
      ensures AnyMatch(actionBindings, current) ==> BoundTo(actionBindings, r, current)
    {
      var todo := actionBindings.Keys;
      while todo != {}
        invariant todo <= actionBindings.Keys
        invariant forall a :: a in actionBindings && a !in todo ==> !BoundTo(actionBindings, a, current)
        decreases |todo|
      {
        var action :| action in todo;
        var matched := ChordsMatch(action, current);
        if matched {
          return action;
        }
        todo := todo - {action};
      }
      return None;
    }

    /** One turn of FindMatchingAction's outer loop: the chords of `action` are scanned in order
        for one that matches `current`. */
    method ChordsMatch(action: InputAction, current: KeyChord) returns (matched: bool)
      requires action in actionBindings
      ensures matched <==> BoundTo(actionBindings, action, current)
    {
      var chords := actionBindings[action];
      for i := 0 to |chords|
        invariant forall j :: 0 <= j < i ==> !Matches(chords[j], current)
      {
        var binding := chords[i];
        if binding.device != current.device {
          continue;
        }
        if binding.key != current.key {
          continue;
        }
        if ModsCovered(binding.mods, current.mods) {
          return true;
        }
      }
      return false;
    }

    /** InputManager::AddBinding: a chord some binding already matches is refused with no
        change (whenever the lookup lands on an action other than None); otherwise it is
        appended to the action's chords. */
    method AddBinding(action: InputAction, device: InputDevice, key: int, mods: bv32) returns (ok: bool)
      modifies this
      ensures ok ==> actionBindings == old(actionBindings)[action := ChordsOf(old(actionBindings), action) + [KeyChord(device, key, mods)]]
      ensures ok ==> !AnyMatch(old(actionBindings), KeyChord(device, key, mods)) || BoundTo(old(actionBindings), None, KeyChord(device, key, mods))
      ensures !ok ==> actionBindings == old(actionBindings) && AnyMatch(old(actionBindings), KeyChord(device, key, mods))
      ensures !AnyMatch(old(actionBindings), KeyChord(device, key, mods)) ==> ok
      ensures callbacks == old(callbacks) && actionStates == old(actionStates) && log == old(log)
    {
      var chord := KeyChord(device, key, mods);
      var found := FindMatchingAction(chord);
      if found != None {
        return false;
      }
      var chords := if action in actionBindings then actionBindings[action] else [];
      actionBindings := actionBindings[action := chords + [chord]];
      return true;
    }

    /** InputManager::RemoveBinding: an unknown action or a chord the action does not hold is
        refused with no change; otherwise the first equal chord is erased. */
    method RemoveBinding(action: InputAction, device: InputDevice, key: int, mods: bv32) returns (ok: bool)
      modifies this
      ensures ok <==> action in old(actionBindings) && KeyChord(device, key, mods) in old(actionBindings)[action]
      ensures ok ==> actionBindings == old(actionBindings)[action := RemoveFirst(old(actionBindings)[action], KeyChord(device, key, mods))]
      ensures !ok ==> actionBindings == old(actionBindings)
      ensures callbacks == old(callbacks) && actionStates == old(actionStates) && log == old(log)
    {
      var chord := KeyChord(device, key, mods);
      if action !in actionBindings {
        return false;
      }
      var vec := actionBindings[action];
      var i := 0;
      while i < |vec| && vec[i] != chord
        invariant 0 <= i <= |vec|
        invariant forall j :: 0 <= j < i ==> vec[j] != chord
      {
        i := i + 1;
      }
      if i == |vec| {
        return false;
      }
      RemoveFirstAt(vec, chord, i);
      actionBindings := actionBindings[action := vec[..i] + vec[i + 1..]];
      return true;
    }

    /** InputManager::TriggerAction: the callbacks of the action for the trigger run in order;
        an action without callbacks runs none. */
    method TriggerAction(action: InputAction, trigger: InputTrigger)
      modifies this
      ensures log == old(log) + CallbacksFor(callbacks, action, trigger)
      ensures actionBindings == old(actionBindings) && callbacks == old(callbacks) && actionStates == old(actionStates)
    {
      if action !in callbacks {
        return;
      }
      var funcs := match trigger
        case Pressed => callbacks[action].pressed
        case Released => callbacks[action].released
        case Held => callbacks[action].held;
      assert funcs == CallbacksFor(callbacks, action, trigger);
      for i := 0 to |funcs|
        invariant log == old(log) + funcs[..i]
        invariant actionBindings == old(actionBindings) && callbacks == old(callbacks) && actionStates == old(actionStates)
      {
        assert funcs[..i + 1] == funcs[..i] + [funcs[i]];
        log := log + [funcs[i]];
      }
      assert funcs[..|funcs|] == funcs;
    }

    /** The shared body of OnKey and OnMouseButton for one chord. */
    method OnButton(chord: KeyChord, glfwAction: int) returns (ghost found: InputAction)
      modifies this
      ensures glfwAction == GlfwRepeat || !AnyMatch(actionBindings, chord) ==> found == None
      ensures glfwAction != GlfwRepeat && AnyMatch(actionBindings, chord) ==> BoundTo(actionBindings, found, chord)
      ensures actionStates == ButtonStates(old(actionStates), found, glfwAction)
      ensures log == old(log) + ButtonFired(callbacks, old(actionStates), found, glfwAction)
      ensures actionBindings == old(actionBindings) && callbacks == old(callbacks)
    {
      found := None;
      if glfwAction == GlfwRepeat {
        return;
      }
      var inputAction := FindMatchingAction(chord);
      found := inputAction;
      if inputAction == None {
        return;
      }
      if glfwAction == GlfwPress {
        var held := if inputAction in actionStates then actionStates[inputAction] else false;
        if !held {
          actionStates := actionStates[inputAction := true];
          TriggerAction(inputAction, Pressed);
        }
      } else if glfwAction == GlfwRelease {
        actionStates := actionStates[inputAction := false];
        TriggerAction(inputAction, Released);
      }
    }

    /** InputManager::OnKey: repeats are ignored; a keyboard chord bound to an action presses
        or releases it (see ButtonStates and ButtonFired); an unbound chord changes nothing. */
    method OnKey(key: int, glfwAction: int, mods: bv32) returns (ghost found: InputAction)
      modifies this
      ensures glfwAction == GlfwRepeat || !AnyMatch(actionBindings, KeyChord(Keyboard, key, mods)) ==> found == None
      ensures glfwAction != GlfwRepeat && AnyMatch(actionBindings, KeyChord(Keyboard, key, mods)) ==> BoundTo(actionBindings, found, KeyChord(Keyboard, key, mods))
      ensures actionStates == ButtonStates(old(actionStates), found, glfwAction)
      ensures log == old(log) + ButtonFired(callbacks, old(actionStates), found, glfwAction)
      ensures actionBindings == old(actionBindings) && callbacks == old(callbacks)
    {
      found := OnButton(KeyChord(Keyboard, key, mods), glfwAction);
    }

    /** InputManager::OnMouseButton: the same as OnKey for a mouse-button chord. */
    method OnMouseButton(button: int, glfwAction: int, mods: bv32) returns (ghost found: InputAction)
      modifies this
      ensures glfwAction == GlfwRepeat || !AnyMatch(actionBindings, KeyChord(MouseButton, button, mods)) ==> found == None
      ensures glfwAction != GlfwRepeat && AnyMatch(actionBindings, KeyChord(MouseButton, button, mods)) ==> BoundTo(actionBindings, found, KeyChord(MouseButton, button, mods))
      ensures actionStates == ButtonStates(old(actionStates), found, glfwAction)
      ensures log == old(log) + ButtonFired(callbacks, old(actionStates), found, glfwAction)
      ensures actionBindings == old(actionBindings) && callbacks == old(callbacks)
    {
      found := OnButton(KeyChord(MouseButton, button, mods), glfwAction);
    }

    /** InputManager::OnScroll: no vertical offset does nothing; otherwise the scroll chord's
        action fires its Pressed, Released and then Held callbacks. The held states never
        change. */
    method OnScroll(xOffset: int, yOffset: int, mods: bv32) returns (ghost found: InputAction)
      modifies this
      ensures yOffset == 0 ==> found == None
      ensures yOffset != 0 && !AnyMatch(actionBindings, KeyChord(MouseScroll, ScrollDirection(yOffset), mods)) ==> found == None
      ensures yOffset != 0 && AnyMatch(actionBindings, KeyChord(MouseScroll, ScrollDirection(yOffset), mods)) ==>
                BoundTo(actionBindings, found, KeyChord(MouseScroll, ScrollDirection(yOffset), mods))
      ensures found == None ==> log == old(log)
      ensures found != None ==>
                log == old(log) + CallbacksFor(callbacks, found, Pressed) + CallbacksFor(callbacks, found, Released)
                                + CallbacksFor(callbacks, found, Held)
      ensures actionBindings == old(actionBindings) && callbacks == old(callbacks) && actionStates == old(actionStates)
    {
      found := None;
      var direction := 0;
      if yOffset > 0 {
        direction := ScrollUp;
      } else if yOffset < 0 {
        direction := ScrollDown;
      }
      if direction == 0 {
        return;
      }
      var chord := KeyChord(MouseScroll, direction, mods);
      var inputAction := FindMatchingAction(chord);
      found := inputAction;
      if inputAction == None {
        return;
      }
      TriggerAction(inputAction, Pressed);
      TriggerAction(inputAction, Released);
      TriggerAction(inputAction, Held);
    }

    /** InputManager::Update: every held action fires its Held callbacks once, in the unordered
        map's unspecified order (`order`); nothing else changes. */
    method Update() returns (ghost order: seq<InputAction>)
      modifies this
      ensures forall a :: a in order <==> IsHeld(actionStates, a)
      ensures forall i, j :: 0 <= i < j < |order| ==> order[i] != order[j]
      ensures log == old(log) + HeldCalls(callbacks, order)
      ensures actionBindings == old(actionBindings) && callbacks == old(callbacks) && actionStates == old(actionStates)
    {
      order := [];
      var todo := actionStates.Keys;
      while todo != {}
        invariant todo <= actionStates.Keys
        invariant forall a :: a in order <==> IsHeld(actionStates, a) && a !in todo
        invariant forall i, j :: 0 <= i < j < |order| ==> order[i] != order[j]
        invariant log == old(log) + HeldCalls(callbacks, order)
        invariant actionBindings == old(actionBindings) && callbacks == old(callbacks) && actionStates == old(actionStates)
        decreases |todo|
      {
        var action :| action in todo;
        if actionStates[action] {
          ghost var before := log;
          TriggerAction(action, Held);
          assert HeldCalls(callbacks, order + [action]) == HeldCalls(callbacks, order) + CallbacksFor(callbacks, action, Held) by {
            assert (order + [action])[..|order|] == order;
          }
          assert log == old(log) + HeldCalls(callbacks, order + [action]) by {
            assert log == before + CallbacksFor(callbacks, action, Held);
          }
          order := order + [action];
        }
        todo := todo - {action};
      }
    }
  }
}
