/**
 * Rust strings are UTF-8 byte sequences: `len()` counts bytes and the
 * percent-encoding of the `url` crate works byte by byte.  The model keeps
 * every string as its byte sequence.
 */
module Bytes {

  type byte = x: int | 0 <= x < 0x100
  type Bytes = seq<byte>

  const PERCENT: byte := 0x25
  const PLUS: byte := 0x2B
  const STAR: byte := 0x2A
  const DOT: byte := 0x2E
  const SLASH: byte := 0x2F
  const COLON: byte := 0x3A

  predicate IsAsciiString(s: string)
  {
    forall i :: 0 <= i < |s| ==> s[i] < 0x80 as char
  }

  /** The bytes of an ASCII literal (ASCII text is its own UTF-8 encoding). */
  function Ascii(s: string): Bytes
    requires IsAsciiString(s)
  {
    seq(|s|, i requires 0 <= i < |s| => s[i] as int)
  }

  /** Number of occurrences of `b` in `s`. */
  function Count(s: Bytes, b: byte): nat
  {
    if |s| == 0 then 0 else (if s[0] == b then 1 else 0) + Count(s[1..], b)
  }

  lemma {:induction false} CountAppend(s: Bytes, t: Bytes, b: byte)
    ensures Count(s + t, b) == Count(s, b) + Count(t, b)
  {
    if |s| == 0 {
      assert s + t == t;
    } else {
      assert (s + t)[1..] == s[1..] + t;
      CountAppend(s[1..], t, b);
    }
  }

  lemma {:induction false} CountZero(s: Bytes, b: byte)
    ensures Count(s, b) == 0 <==> b !in s
  {
    if |s| > 0 {
      CountZero(s[1..], b);
      assert s == [s[0]] + s[1..];
    }
  }
}
