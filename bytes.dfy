/** Bytes as the encoder sees them: Rust's `String` and `&str` are UTF-8 byte
    buffers. `bencode` builds its `String` with `format!`; the model gives that
    output as the sequence of its bytes. */
module Bytes {

  type Byte = b: int | 0 <= b < 256

  const ZERO: Byte := '0' as int
  const COLON: Byte := ':' as int
  const MINUS: Byte := '-' as int
  /** The kind tags of the bencode grammar and the common terminator. */
  const TAG_INT: Byte := 'i' as int
  const TAG_LIST: Byte := 'l' as int
  const TAG_DICT: Byte := 'd' as int
  const TAG_END: Byte := 'e' as int

  predicate IsDigit(b: Byte) {
    ZERO <= b <= ZERO + 9
  }

  /** The bytes of a string of single-byte characters, for writing byte
      literals as text; a wider character keeps only its low eight bits. */
  function Ascii(s: string): (r: seq<Byte>)
    ensures |r| == |s| && forall i :: 0 <= i < |s| ==> r[i] == s[i] as int % 256
  {
    seq(|s|, i requires 0 <= i < |s| => s[i] as int % 256)
  }
}
