/** Stock types shared by every module. */
module Prelude {
  datatype Option<+T> = None | Some(value: T)

  datatype Result<+T, +E> = Ok(value: T) | Err(error: E)

  /** A UTF-16 code unit and a JavaScript string, which is a sequence of them. */
  type CodeUnit = u: int | 0 <= u < 0x1_0000
  type Text = seq<CodeUnit>

  type Byte = b: int | 0 <= b < 0x100
  type Bytes = seq<Byte>

  /** A string literal as a JavaScript string. */
  function Ascii(s: string): (t: Text)
    requires forall i :: 0 <= i < |s| ==> s[i] < '\U{0080}'
    ensures |t| == |s|
  {
    if s == [] then [] else [s[0] as CodeUnit] + Ascii(s[1..])
  }

  /** The string is the literal, character for character. */
  predicate Spells(t: Text, literal: string) {
    |t| == |literal| && forall i :: 0 <= i < |t| ==> t[i] == literal[i] as int
  }

  lemma {:induction false} AsciiSpells(s: string)
    requires forall i :: 0 <= i < |s| ==> s[i] < '\U{0080}'
    ensures Spells(Ascii(s), s)
  {
    if s != [] {
      AsciiSpells(s[1..]);
    }
  }
}
