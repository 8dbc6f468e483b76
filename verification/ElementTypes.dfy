/**
 `XCUIElement.ElementType`, as its raw values. A raw value the enumeration does not know reads as
 `.other` everywhere but in `IsTyped`, which tests the raw value itself.
 */
module ElementTypes {
  const ANY: nat := 0
  const OTHER: nat := 1
  const APPLICATION: nat := 2
  const WINDOW: nat := 4
  const SHEET: nat := 5
  const ALERT: nat := 7
  const DIALOG: nat := 8
  const BUTTON: nat := 9
  const RADIO_BUTTON: nat := 10
  const CHECK_BOX: nat := 12
  const POP_UP_BUTTON: nat := 14
  const MENU_BUTTON: nat := 16
  const POPOVER: nat := 18
  const KEYBOARD: nat := 19
  const NAVIGATION_BAR: nat := 21
  const TAB_BAR: nat := 22
  const TOOLBAR: nat := 24
  const TABLE: nat := 26
  const COLLECTION_VIEW: nat := 32
  const SLIDER: nat := 33
  const SEGMENTED_CONTROL: nat := 37
  const PICKER: nat := 38
  const PICKER_WHEEL: nat := 39
  const SWITCH: nat := 40
  const TOGGLE: nat := 41
  const LINK: nat := 42
  const SEARCH_FIELD: nat := 45
  const SCROLL_VIEW: nat := 46
  const STATIC_TEXT: nat := 48
  const TEXT_FIELD: nat := 49
  const SECURE_TEXT_FIELD: nat := 50
  const TEXT_VIEW: nat := 52
  const MENU_ITEM: nat := 54
  const WEB_VIEW: nat := 58
  const CELL: nat := 75
  const STEPPER: nat := 79
  const TAB: nat := 80
  /** The largest raw value the enumeration knows (`.statusItem`). */
  const LAST_KNOWN: nat := 82

  function ElementType(raw: nat): nat {
    if raw <= LAST_KNOWN then raw else OTHER
  }

  /** A raw type specific enough to narrow a query to it. */
  predicate IsTyped(raw: nat) {
    raw <= LAST_KNOWN && raw != OTHER && raw != ANY
  }

  predicate IsSwitch(t: nat) {
    t == SWITCH || t == TOGGLE
  }
}
