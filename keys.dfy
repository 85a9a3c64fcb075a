/** Key events as crossterm delivers them: a key code and a set of modifier bits. */
module Keys {

  /** crossterm's `KeyCode`. */
  datatype KeyCode =
    | Backspace | Enter | Left | Right | Up | Down | Home | End | PageUp | PageDown
    | Tab | BackTab | Delete | Insert | F(n: nat) | Char(c: char) | Null | Esc

  /** crossterm's `KeyModifiers`, a bit set. */
  type Modifiers = bv8

  const NONE: Modifiers := 0
  const SHIFT: Modifiers := 1
  const CONTROL: Modifiers := 2
  const ALT: Modifiers := 4

  /** crossterm's `KeyEvent`. */
  datatype KeyEvent = KeyEvent(code: KeyCode, modifiers: Modifiers)
}
