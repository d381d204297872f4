/** Frame input (AttoInput.h) and the GLFW key and mouse-button callbacks that
    keep it up to date (AttoLib.cpp). Each key and each mouse button has two
    flags: whether it is down now, and the flag the callbacks use to tell a
    fresh press or release from a held state. */
module Input {

  /** The number of key codes the key arrays hold (KEY_CODE_COUNT). */
  const KEY_CODE_COUNT: nat := 349

  /** The engine's last mouse button, MOUSE_BUTTON_8, and the size it gives
      its mouse arrays. */
  const MOUSE_BUTTON_LAST: nat := 7

  // Action and button values of GLFW 3 (glfw3.h), which the callbacks compare
  // against; the engine's own Action enumeration is not used there.
  const GLFW_RELEASE: int := 0
  const GLFW_PRESS: int := 1
  const GLFW_REPEAT: int := 2
  /** GLFW_MOUSE_BUTTON_8, the largest button GLFW reports. */
  const GLFW_MOUSE_BUTTON_LAST: nat := 7

  /** Mouse arrays with an entry for every button GLFW reports, 0 to 7. */
  const MOUSE_BUTTON_COUNT: nat := GLFW_MOUSE_BUTTON_LAST + 1

  /** IsKeyJustDown and IsMouseJustDown for one entry: down now, and not
      down before. */
  predicate JustDown(now: bool, last: bool) {
    now && !last
  }

  /** IsMouseJustUp for one entry: up now, and down before. */
  predicate JustUp(now: bool, last: bool) {
    !now && last
  }

  /** An entry is never just down and just up at once; just down means down,
      just up means up. */
  lemma JustDownAndJustUpExclusive(now: bool, last: bool)
    ensures !(JustDown(now, last) && JustUp(now, last))
    ensures JustDown(now, last) ==> now
    ensures JustUp(now, last) ==> !now
  {
  }

  /** The two flag arrays after GLFW reports `action` for entry i: a press
      marks the entry down and not down before, a release marks it up and
      down before, and any other action (a repeat) changes nothing. */
  function AfterAction(now: seq<bool>, last: seq<bool>, i: nat, action: int): (r: (seq<bool>, seq<bool>))
    requires i < |now| == |last|
    ensures |r.0| == |now| && |r.1| == |last|
    ensures forall j :: 0 <= j < |now| && j != i ==> r.0[j] == now[j] && r.1[j] == last[j]
    ensures action == GLFW_PRESS ==> JustDown(r.0[i], r.1[i])
    ensures action == GLFW_RELEASE ==> JustUp(r.0[i], r.1[i])
    ensures action != GLFW_PRESS && action != GLFW_RELEASE ==> r == (now, last)
  {
    if action == GLFW_PRESS then (now[i := true], last[i := false])
    else if action == GLFW_RELEASE then (now[i := false], last[i := true])
    else (now, last)
  }

  /** Reporting the same action twice has the effect of reporting it once. */
  lemma AfterActionIdempotent(now: seq<bool>, last: seq<bool>, i: nat, action: int)
    requires i < |now| == |last|
    ensures var (n, l) := AfterAction(now, last, i, action);
      AfterAction(n, l, i, action) == (n, l)
  {
    var (n, l) := AfterAction(now, last, i, action);
    if action == GLFW_PRESS {
      assert n[i := true] == n && l[i := false] == l;
    } else if action == GLFW_RELEASE {
      assert n[i := false] == n && l[i := true] == l;
    }
  }

  /** The outcome of a press or a release depends only on the last of them:
      whatever came before, a press leaves the entry just down and a release
      leaves it just up. */
  lemma LastActionDecides(now: seq<bool>, last: seq<bool>, i: nat, first: int, second: int)
    requires i < |now| == |last|
    requires second == GLFW_PRESS || second == GLFW_RELEASE
    ensures var (n, l) := AfterAction(now, last, i, first);
      AfterAction(n, l, i, second) == AfterAction(now, last, i, second)
  {
    var (n, l) := AfterAction(now, last, i, first);
    if second == GLFW_PRESS {
      assert n[i := true] == now[i := true] && l[i := false] == last[i := false];
    } else {
      assert n[i := false] == now[i := false] && l[i := true] == last[i := true];
    }
  }

  /** The engine's mouse arrays have MOUSE_BUTTON_LAST entries, so the last
      button GLFW reports has no entry in them. */
  lemma EngineMouseArraysMissLastButton()
    ensures GLFW_MOUSE_BUTTON_LAST >= MOUSE_BUTTON_LAST
    ensures MOUSE_BUTTON_COUNT == MOUSE_BUTTON_LAST + 1
  {
  }

  /** FrameInput: the key and mouse-button flags of the current frame. */
  class FrameInput {
    var keys: array<bool>
    var lastKeys: array<bool>
    var mouseButtons: array<bool>
    var lastMouseButtons: array<bool>

    /** Each array has its full length, and the two arrays of a pair are
        distinct. */
    ghost predicate Valid()
      reads this
    {
      keys.Length == KEY_CODE_COUNT && lastKeys.Length == KEY_CODE_COUNT && keys != lastKeys &&
      mouseButtons.Length == MOUSE_BUTTON_COUNT && lastMouseButtons.Length == MOUSE_BUTTON_COUNT &&
      mouseButtons != lastMouseButtons
    }

    /** A new FrameInput: every key and button is up and was up. */
    constructor ()
      ensures Valid()
      ensures forall k :: 0 <= k < KEY_CODE_COUNT ==> !keys[k] && !lastKeys[k]
      ensures forall b :: 0 <= b < MOUSE_BUTTON_COUNT ==> !mouseButtons[b] && !lastMouseButtons[b]
    {
      keys := new bool[KEY_CODE_COUNT](_ => false);
      lastKeys := new bool[KEY_CODE_COUNT](_ => false);
      mouseButtons := new bool[MOUSE_BUTTON_COUNT](_ => false);
      lastMouseButtons := new bool[MOUSE_BUTTON_COUNT](_ => false);
    }

    /** IsKeyJustDown. */
    predicate IsKeyJustDown(key: nat)
      requires Valid() && key < KEY_CODE_COUNT
      reads this, keys, lastKeys
    {
      JustDown(keys[key], lastKeys[key])
    }

    /** IsMouseDown. */
    predicate IsMouseDown(button: nat)
      requires Valid() && button < MOUSE_BUTTON_COUNT
      reads this, mouseButtons
    {
      mouseButtons[button]
    }

    /** IsMouseJustDown. */
    predicate IsMouseJustDown(button: nat)
      requires Valid() && button < MOUSE_BUTTON_COUNT
      reads this, mouseButtons, lastMouseButtons
    {
      JustDown(mouseButtons[button], lastMouseButtons[button])
    }

    /** IsMouseJustUp. */
    predicate IsMouseJustUp(button: nat)
      requires Valid() && button < MOUSE_BUTTON_COUNT
      reads this, mouseButtons, lastMouseButtons
    {
      JustUp(mouseButtons[button], lastMouseButtons[button])
    }

    /** KeyCallback: an unknown key (negative code) is ignored; otherwise
        the key's flags follow the action. GLFW reports no key code above
        GLFW_KEY_LAST, 348. */
    method KeyCallback(key: int, action: int)
      requires Valid() && key < KEY_CODE_COUNT
      modifies keys, lastKeys
      ensures key < 0 ==> keys[..] == old(keys[..]) && lastKeys[..] == old(lastKeys[..])
      ensures key >= 0 ==> (keys[..], lastKeys[..]) == AfterAction(old(keys[..]), old(lastKeys[..]), key, action)
      ensures key >= 0 && action == GLFW_PRESS ==> IsKeyJustDown(key)
    {
      if key < 0 {
        return;
      }
      if action == GLFW_PRESS {
        lastKeys[key] := false;
        keys[key] := true;
      } else if action == GLFW_RELEASE {
        lastKeys[key] := true;
        keys[key] := false;
      }
    }

    /** MouseButtonCallback: the button's flags follow the action. */
    method MouseButtonCallback(button: nat, action: int)
      requires Valid() && button <= GLFW_MOUSE_BUTTON_LAST
      modifies mouseButtons, lastMouseButtons
      ensures (mouseButtons[..], lastMouseButtons[..]) ==
        AfterAction(old(mouseButtons[..]), old(lastMouseButtons[..]), button, action)
      ensures action == GLFW_PRESS ==> IsMouseJustDown(button) && IsMouseDown(button)
      ensures action == GLFW_RELEASE ==> IsMouseJustUp(button) && !IsMouseDown(button)
    {
      if action == GLFW_PRESS {
        lastMouseButtons[button] := false;
        mouseButtons[button] := true;
      } else if action == GLFW_RELEASE {
        lastMouseButtons[button] := true;
        mouseButtons[button] := false;
      }
    }
  }
}
