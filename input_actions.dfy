/** The action table of InputActions.h: the INPUT_ACTIONS list expanded into an enumeration, the
    enumerator-to-name switch and the name-to-enumerator if-chain. */
module InputActions {

  /** The actions, in the order of the INPUT_ACTIONS list. */
  datatype InputAction =
    | None
    | Camera_MoveForward
    | Camera_MoveBackward
    | Camera_MoveLeft
    | Camera_MoveRight
    | Camera_MoveUp
    | Camera_MoveDown
    | Camera_FocusViewport
    | Camera_ModifySpeed
    | Debug_Exit
    | Debug_Wireframe

  /** Every action once, in list order. */
  const AllActions: seq<InputAction> := [
    None, Camera_MoveForward, Camera_MoveBackward, Camera_MoveLeft, Camera_MoveRight,
    Camera_MoveUp, Camera_MoveDown, Camera_FocusViewport, Camera_ModifySpeed, Debug_Exit,
    Debug_Wireframe]

  /** ActionToString: the enumerator's own name. */
  function ActionToString(action: InputAction): string {
    match action
    case None => "None"
    case Camera_MoveForward => "Camera_MoveForward"
    case Camera_MoveBackward => "Camera_MoveBackward"
    case Camera_MoveLeft => "Camera_MoveLeft"
    case Camera_MoveRight => "Camera_MoveRight"
    case Camera_MoveUp => "Camera_MoveUp"
    case Camera_MoveDown => "Camera_MoveDown"
    case Camera_FocusViewport => "Camera_FocusViewport"
    case Camera_ModifySpeed => "Camera_ModifySpeed"
    case Debug_Exit => "Debug_Exit"
    case Debug_Wireframe => "Debug_Wireframe"
  }

  /** StringToAction: the names are compared in list order, exactly and case-sensitively; a
      string equal to none of them gives None. */
  function StringToAction(str: string): InputAction {
    if str == "None" then None
    else if str == "Camera_MoveForward" then Camera_MoveForward
    else if str == "Camera_MoveBackward" then Camera_MoveBackward
    else if str == "Camera_MoveLeft" then Camera_MoveLeft
    else if str == "Camera_MoveRight" then Camera_MoveRight
    else if str == "Camera_MoveUp" then Camera_MoveUp
    else if str == "Camera_MoveDown" then Camera_MoveDown
    else if str == "Camera_FocusViewport" then Camera_FocusViewport
    else if str == "Camera_ModifySpeed" then Camera_ModifySpeed
    else if str == "Debug_Exit" then Debug_Exit
    else if str == "Debug_Wireframe" then Debug_Wireframe
    else None
  }

  /** A string is a name when it is the name of some action. */
  predicate IsActionName(str: string) {
    exists a :: ActionToString(a) == str
  }

  /** The list holds every action exactly once. */
  lemma AllActionsComplete(a: InputAction)
    ensures a in AllActions
    ensures forall i, j :: 0 <= i < j < |AllActions| ==> AllActions[i] != AllActions[j]
  {
  }

  /** Reading back the name of an action gives the action. */
  lemma {:induction false} RoundTrip(a: InputAction)
    ensures StringToAction(ActionToString(a)) == a
  {
    match a
    case None =>
    case Camera_MoveForward =>
      assert "Camera_MoveForward"[0] != "None"[0];
    case Camera_MoveBackward =>
      assert "Camera_MoveBackward"[11] != "Camera_MoveForward"[11];
    case Camera_MoveLeft =>
      assert "Camera_MoveLeft"[11] != "Camera_MoveForward"[11];
    case Camera_MoveRight =>
      assert "Camera_MoveRight"[11] != "Camera_MoveForward"[11];
      assert "Camera_MoveRight"[11] != "Camera_MoveLeft"[11];
    case Camera_MoveUp =>
      assert |"Camera_MoveUp"| != |"Camera_MoveLeft"|;
      assert "Camera_MoveUp"[11] != "Camera_MoveForward"[11];
    case Camera_MoveDown =>
      assert "Camera_MoveDown"[11] != "Camera_MoveForward"[11];
      assert "Camera_MoveDown"[11] != "Camera_MoveLeft"[11];
    case Camera_FocusViewport =>
      assert "Camera_FocusViewport"[7] != "Camera_MoveForward"[7];
    case Camera_ModifySpeed =>
      assert "Camera_ModifySpeed"[9] != "Camera_MoveForward"[9];
    case Debug_Exit =>
      assert "Debug_Exit"[0] != "Camera_MoveForward"[0];
    case Debug_Wireframe =>
      assert "Debug_Wireframe"[6] != "Debug_Exit"[6];
      assert "Debug_Wireframe"[0] != "Camera_MoveForward"[0];
  }

  /** Different actions have different names. */
  lemma NamesInjective(a: InputAction, b: InputAction)
    ensures ActionToString(a) == ActionToString(b) ==> a == b
  {
    RoundTrip(a);
    RoundTrip(b);
  }

  /** A string that is not an exact action name reads as None; one that reads as another action
      is that action's name. */
  lemma StringToActionOfOthers(str: string)
    ensures !IsActionName(str) ==> StringToAction(str) == None
    ensures StringToAction(str) != None ==> ActionToString(StringToAction(str)) == str
  {
  }
}
