/**
 * The two JavaScript value conventions the game engine leans on: a value
 * that may be missing (`null` / `undefined`), and string indexing, which
 * yields `undefined` rather than failing when the index is past the end.
 */
module Js {

  datatype Option<+T> = None | Some(value: T)

  /** `s[i]` in JavaScript: the character at `i`, or `undefined` past the end. */
  function CharAt(s: string, i: nat): Option<char> {
    if i < |s| then Some(s[i]) else None
  }
}
