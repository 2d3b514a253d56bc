/** Byte strings as the relay handles them. A Go `string` is a sequence of
    bytes and `len` counts bytes, so every text in the model is a sequence
    of bytes: characters below 256, one per byte of the Go string. */
module Text {

  type Byte = c: char | c as int < 256

  type Bytes = seq<Byte>

  datatype Option<+T> = None | Some(value: T)

  /** The line terminator of the Internet Message Format. */
  const CRLF: Bytes := "\r\n"

  /** Neither a carriage return nor a line feed occurs in `s`. */
  predicate NoLineBreak(s: Bytes) {
    forall i :: 0 <= i < |s| ==> s[i] != '\r' && s[i] != '\n'
  }
}
