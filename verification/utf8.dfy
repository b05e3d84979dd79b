/**
 * UTF-8 well-formedness as Rust's `str::from_utf8` checks it: the
 * well-formed byte sequences of Table 3-7 of the Unicode Standard (no
 * overlong forms, no surrogates, nothing above U+10FFFF).
 */
module Utf8 {
  import opened Bytes

  predicate IsContinuation(b: byte)
  {
    0x80 <= b <= 0xBF
  }

  /** Length of the well-formed sequence that starts `s`, or 0 when none does. */
  function SequenceLength(s: Bytes): (n: nat)
    ensures n <= |s| && n <= 4
    ensures |s| > 0 && s[0] < 0x80 ==> n == 1
  {
    if |s| == 0 then 0
    else
      var b := s[0];
      if b <= 0x7F then 1
      else if 0xC2 <= b <= 0xDF then
        (if |s| >= 2 && IsContinuation(s[1]) then 2 else 0)
      else if 0xE0 <= b <= 0xEF then
        var lo := if b == 0xE0 then 0xA0 else 0x80;
        var hi := if b == 0xED then 0x9F else 0xBF;
        (if |s| >= 3 && lo <= s[1] <= hi && IsContinuation(s[2]) then 3 else 0)
      else if 0xF0 <= b <= 0xF4 then
        var lo := if b == 0xF0 then 0x90 else 0x80;
        var hi := if b == 0xF4 then 0x8F else 0xBF;
        (if |s| >= 4 && lo <= s[1] <= hi && IsContinuation(s[2]) && IsContinuation(s[3]) then 4 else 0)
      else 0
  }

  predicate ValidUtf8(s: Bytes)
    decreases |s|
  {
    |s| == 0 || (SequenceLength(s) > 0 && ValidUtf8(s[SequenceLength(s)..]))
  }
}
