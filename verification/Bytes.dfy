/** Bytes and texts, shared by the other modules. */
module Bytes {

  newtype byte = b: int | 0 <= b < 256

  type Text = seq<byte>

  datatype Option<+T> = None | Some(value: T)

  /** The bytes of an ASCII literal. */
  function Ascii(s: string): Text
    requires forall i :: 0 <= i < |s| ==> s[i] < 128 as char
  {
    seq(|s|, i requires 0 <= i < |s| => s[i] as int as byte)
  }
}
