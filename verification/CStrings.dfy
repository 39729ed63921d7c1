/** C strings and the pointers into them. */
module CStrings {

  datatype Option<+T> = None | Some(value: T)

  /** A byte of a C string other than the terminator. */
  type Char = c: char | 0 < c as int < 256 witness 'a'

  /** The text of a C string, without the terminator. */
  type CString = seq<Char>

  /** Dereferences the string at an offset; the terminator sits at the offset equal to the length. */
  function CharAt(s: CString, off: nat): char
    requires off <= |s|
  {
    if off < |s| then s[off] else '\0'
  }

  /** The value of a byte as an `int`; plain `char` is taken to be signed. */
  function CharValue(c: char): (v: int)
    requires c as int < 256
    ensures -128 <= v < 128 && (c as int - v) % 256 == 0
  {
    if c as int < 128 then c as int else c as int - 256
  }

  /** A `char *`: null, or offset `off` in the string that was argument `arg` of the command line. */
  datatype CharPtr = Null | At(arg: nat, off: nat)
}
