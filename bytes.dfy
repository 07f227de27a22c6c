/** Bytes as parson sees them: `unsigned char` values and NUL-terminated
    C strings. */
module Bytes {

  type byte = x: int | 0 <= x < 256

  type Bytes = seq<byte>

  /** The byte a C string cursor sees at offset `i`: past the end of the
      text lies the terminating NUL. */
  function At(s: Bytes, i: nat): byte {
    if i < |s| then s[i] else 0
  }

  /** Text as C's `strlen` sees it: no NUL inside. */
  predicate CString(t: Bytes) {
    forall k :: 0 <= k < |t| ==> t[k] != NUL
  }

  /** `isspace` in the C locale: space, \t, \n, \v, \f and \r. */
  predicate IsSpace(c: byte) {
    c == 0x20 || 0x09 <= c <= 0x0D
  }

  /** An ASCII literal as bytes. */
  function Ascii(s: string): (r: Bytes)
    requires forall k :: 0 <= k < |s| ==> s[k] as int < 128
    ensures |r| == |s|
    ensures forall k :: 0 <= k < |s| ==> r[k] == s[k] as int
  {
    if s == [] then [] else [s[0] as int] + Ascii(s[1..])
  }

  const NUL: byte := 0
  const QUOTE: byte := 0x22
  const BACKSLASH: byte := 0x5C
  const SLASH: byte := 0x2F
  const SPACE: byte := 0x20
  const NEWLINE: byte := 0x0A
}
