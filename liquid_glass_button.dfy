/**
 * The liquid-glass button behaviours (assets/js/components/liquid-glass-button.js):
 * a once-only initialiser over the buttons of the page, and per button a
 * press state (`isPressed`, mirrored by the `pressed` class) driven by
 * pointer, touch and key events, plus the `aria-pressed` toggle of toggle buttons.
 */
module LiquidGlassButton {
  import opened Wrappers

  /** A key code that presses the button: Space or Enter. */
  predicate Activates(code: string)
  {
    code == "Space" || code == "Enter"
  }

  /**
   * The `aria-pressed` value a click on a toggle button writes: "false" when
   * it read exactly "true", otherwise "true".
   */
  function ToggledAria(current: Option<string>): (next: string)
    ensures next == "true" || next == "false"
    ensures next == "true" <==> current != Some("true")
  {
    if current == Some("true") then "false" else "true"
  }

  /** Two clicks give back "true" or "false" as they were; any other value settles on "false". */
  lemma TwoClicks(current: Option<string>)
    ensures ToggledAria(Some(ToggledAria(current))) == (if current == Some("true") then "true" else "false")
  {
  }

  class Button {
    /** The element's tag is BUTTON. */
    const isNativeButton: bool
    /** `data-toggle` is 'true'. */
    const toggle: bool
    /** `data-initialized` is 'true'. */
    var initialized: bool
    /** How many times `initButtonBehaviors` attached its listeners to this button. */
    var bindings: nat
    /** The handlers' `isPressed`. */
    var isPressed: bool
    /** The handlers' `touchId`: the identifier of the touch that pressed the button, or null. */
    var touchId: Option<int>
    /** The `pressed` class. */
    var pressedClass: bool
    /** The `tabindex` attribute. */
    var tabindex: Option<string>
    /** The `role` attribute. */
    var role: Option<string>
    /** The `aria-pressed` attribute. */
    var ariaPressed: Option<string>

    /**
     * The class mirrors the pressed state; a bound toggle button carries
     * `aria-pressed`; and, for the bindings `initLiquidButtons` makes, behaviours
     * are attached at most once and only to a button it flagged as initialized.
     * The DOM observer binds added buttons without that flag, so it is not
     * covered by this invariant.
     */
    ghost predicate Valid()
      reads this
    {
      && pressedClass == isPressed
      && bindings <= 1
      && (bindings == 1 ==> initialized)
      && (bindings == 1 && toggle ==> ariaPressed.Some?)
    }

    /** A button as found in the markup, before any script ran on it. */
    constructor (isNativeButton: bool, toggle: bool, initialized: bool,
                 tabindex: Option<string>, role: Option<string>, ariaPressed: Option<string>)
      ensures Valid()
      ensures this.isNativeButton == isNativeButton && this.toggle == toggle && this.initialized == initialized
      ensures this.tabindex == tabindex && this.role == role && this.ariaPressed == ariaPressed
      ensures bindings == 0 && !isPressed && touchId == None
    {
      this.isNativeButton := isNativeButton;
      this.toggle := toggle;
      this.initialized := initialized;
      this.tabindex := tabindex;
      this.role := role;
      this.ariaPressed := ariaPressed;
      bindings := 0;
      isPressed := false;
      pressedClass := false;
      touchId := None;
    }

    /**
     * `initButtonBehaviors`: fresh handler state, keyboard focus for a
     * non-native button without `tabindex`, and `aria-pressed` defaulting to
     * 'false' on a toggle button.
     */
    method InitButtonBehaviors()
      requires Valid() && bindings == 0 && initialized
      modifies this
      ensures Valid() && bindings == 1 && initialized
      ensures !isPressed && touchId == None
      ensures !isNativeButton && old(tabindex) == None ==> tabindex == Some("0") && role == Some("button")
      ensures isNativeButton || old(tabindex) != None ==> tabindex == old(tabindex) && role == old(role)
      ensures ariaPressed == if toggle && old(ariaPressed) == None then Some("false") else old(ariaPressed)
    {
      isPressed := false;
      touchId := None;
      pressedClass := false;
      if !isNativeButton && tabindex == None {
        tabindex := Some("0");
        role := Some("button");
      }
      if toggle && ariaPressed == None {
        ariaPressed := Some("false");
      }
      bindings := 1;
    }

    /** `pointerdown`: only the main button (0) presses. */
    method PointerDown(button: int)
      requires Valid() && bindings == 1
      modifies this
      ensures Valid() && bindings == 1
      ensures initialized == old(initialized) && tabindex == old(tabindex) && role == old(role)
      ensures isPressed == (button == 0 || old(isPressed))
      ensures touchId == old(touchId) && ariaPressed == old(ariaPressed)
    {
      if button != 0 {
        return;
      }
      isPressed := true;
      pressedClass := true;
    }

    /** `pointerup`: always released. */
    method PointerUp()
      requires Valid() && bindings == 1
      modifies this
      ensures Valid() && bindings == 1 && !isPressed
      ensures initialized == old(initialized) && tabindex == old(tabindex) && role == old(role)
      ensures touchId == old(touchId) && ariaPressed == old(ariaPressed)
    {
      isPressed := false;
      pressedClass := false;
    }

    /** `pointercancel`: always released. */
    method PointerCancel()
      requires Valid() && bindings == 1
      modifies this
      ensures Valid() && bindings == 1 && !isPressed
      ensures initialized == old(initialized) && tabindex == old(tabindex) && role == old(role)
      ensures touchId == old(touchId) && ariaPressed == old(ariaPressed)
    {
      isPressed := false;
      pressedClass := false;
    }

    /** `pointerleave`: releases a pressed button; an unpressed one is left alone. */
    method PointerLeave()
      requires Valid() && bindings == 1
      modifies this
      ensures Valid() && bindings == 1 && !isPressed
      ensures initialized == old(initialized) && tabindex == old(tabindex) && role == old(role)
      ensures !old(isPressed) ==> unchanged(this)
      ensures touchId == old(touchId) && ariaPressed == old(ariaPressed)
    {
      if isPressed {
        isPressed := false;
        pressedClass := false;
      }
    }

    /** `touchstart`: remember the first touch's identifier and press. */
    method TouchStart(touches: seq<int>)
      requires Valid() && bindings == 1
      requires touches != []
      modifies this
      ensures Valid() && bindings == 1 && isPressed
      ensures initialized == old(initialized) && tabindex == old(tabindex) && role == old(role)
      ensures touchId == Some(touches[0]) && ariaPressed == old(ariaPressed)
    {
      touchId := Some(touches[0]);
      isPressed := true;
      pressedClass := true;
    }

    /** `touchend`: releases only when the touch that pressed is among the changed touches. */
    method TouchEnd(changedTouches: seq<int>)
      requires Valid() && bindings == 1
      modifies this
      ensures Valid() && bindings == 1
      ensures initialized == old(initialized) && tabindex == old(tabindex) && role == old(role)
      ensures touchId == old(touchId) && ariaPressed == old(ariaPressed)
      ensures old(touchId).Some? && old(touchId).value in changedTouches ==> !isPressed
      ensures !(old(touchId).Some? && old(touchId).value in changedTouches) ==> unchanged(this)
    {
      if touchId.Some? && touchId.value in changedTouches {
        isPressed := false;
        pressedClass := false;
      }
    }

    /** `touchcancel`: always released. */
    method TouchCancel()
      requires Valid() && bindings == 1
      modifies this
      ensures Valid() && bindings == 1 && !isPressed
      ensures initialized == old(initialized) && tabindex == old(tabindex) && role == old(role)
      ensures touchId == old(touchId) && ariaPressed == old(ariaPressed)
    {
      isPressed := false;
      pressedClass := false;
    }

    /** `keydown`: Space or Enter presses (once; a repeat changes nothing) and prevents the default. */
    method KeyDown(code: string) returns (preventDefault: bool)
      requires Valid() && bindings == 1
      modifies this
      ensures Valid() && bindings == 1
      ensures initialized == old(initialized) && tabindex == old(tabindex) && role == old(role)
      ensures preventDefault == Activates(code)
      ensures isPressed == (Activates(code) || old(isPressed))
      ensures touchId == old(touchId) && ariaPressed == old(ariaPressed)
      ensures !Activates(code) || old(isPressed) ==> unchanged(this)
    {
      preventDefault := false;
      if Activates(code) {
        preventDefault := true;
        if !isPressed {
          isPressed := true;
          pressedClass := true;
        }
      }
    }

    /**
     * `keyup`: Space or Enter releases and prevents the default; only a
     * button that was pressed and is not a native BUTTON gets a synthetic click.
     */
    method KeyUp(code: string) returns (preventDefault: bool, clicked: bool)
      requires Valid() && bindings == 1
      modifies this
      ensures Valid() && bindings == 1
      ensures initialized == old(initialized) && tabindex == old(tabindex) && role == old(role)
      ensures preventDefault == Activates(code)
      ensures clicked <==> Activates(code) && old(isPressed) && !isNativeButton
      ensures isPressed == (old(isPressed) && !Activates(code))
      ensures ariaPressed == if clicked && toggle then Some(ToggledAria(old(ariaPressed))) else old(ariaPressed)
      ensures touchId == old(touchId)
    {
      preventDefault, clicked := false, false;
      if Activates(code) {
        preventDefault := true;
        if isPressed {
          isPressed := false;
          pressedClass := false;
          if !isNativeButton {
            clicked := true;
            Click();
          }
        }
      }
    }

    /** A click reaching the button: a toggle button flips `aria-pressed`; nothing else changes. */
    method Click()
      requires Valid() && bindings == 1
      modifies this
      ensures Valid() && bindings == 1
      ensures initialized == old(initialized) && tabindex == old(tabindex) && role == old(role)
      ensures ariaPressed == if toggle then Some(ToggledAria(old(ariaPressed))) else old(ariaPressed)
      ensures isPressed == old(isPressed) && touchId == old(touchId)
    {
      if toggle {
        ariaPressed := Some(ToggledAria(ariaPressed));
      }
    }
  }

  /**
   * `initLiquidButtons`: every button found is flagged as initialized, and
   * behaviours are attached to a button exactly when it was not flagged
   * before, so repeated calls of this initialiser never bind a button twice.
   * A newly bound button is unpressed with no touch recorded, gets the
   * `tabindex`/`role` and `aria-pressed` defaults, and a flagged one is untouched.
   */
  method InitLiquidButtons(buttons: seq<Button>)
    requires forall b :: b in buttons ==> b.Valid()
    modifies set b | b in buttons
    ensures forall b :: b in buttons ==> b.Valid() && b.initialized
    ensures forall b :: b in buttons && old(b.initialized) ==> unchanged(b)
    ensures forall b :: b in buttons && !old(b.initialized) ==>
              && b.bindings == old(b.bindings) + 1 && !b.isPressed && b.touchId == None
              && b.ariaPressed == (if b.toggle && old(b.ariaPressed) == None then Some("false") else old(b.ariaPressed))
              && (if !b.isNativeButton && old(b.tabindex) == None then b.tabindex == Some("0") && b.role == Some("button")
                  else b.tabindex == old(b.tabindex) && b.role == old(b.role))
  {
    for i := 0 to |buttons|
      invariant forall b :: b in buttons ==> b.Valid()
      invariant forall b :: b in buttons[..i] ==> b.initialized
      invariant forall b :: b in buttons && old(b.initialized) ==> unchanged(b)
      invariant forall b :: b in buttons && !old(b.initialized) && b !in buttons[..i] ==> unchanged(b)
      invariant forall b :: b in buttons && !old(b.initialized) && b in buttons[..i] ==>
                  && b.bindings == old(b.bindings) + 1 && !b.isPressed && b.touchId == None
                  && b.ariaPressed == (if b.toggle && old(b.ariaPressed) == None then Some("false") else old(b.ariaPressed))
                  && (if !b.isNativeButton && old(b.tabindex) == None then b.tabindex == Some("0") && b.role == Some("button")
                      else b.tabindex == old(b.tabindex) && b.role == old(b.role))
    {
      var btn := buttons[i];
      if btn.initialized {
        continue;
      }
      btn.initialized := true;
      btn.InitButtonBehaviors();
    }
  }
}
