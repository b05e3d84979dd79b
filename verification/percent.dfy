/**
 * Percent-encoding of one path segment (`utf8_percent_encode` with the
 * `url` crate's PATH_SEGMENT_ENCODE_SET) and percent-decoding
 * (`percent_decode`), both byte by byte, with the `%XX` triplets of
 * section 2.1 of RFC 3986.
 */
module PercentEncoding {
  import opened Bytes

  /**
   * PATH_SEGMENT_ENCODE_SET: C0 controls and every byte above 0x7E, then
   * space " # < > (query set), ` ? { } (default set), and finally % and /.
   */
  predicate InPathSegmentSet(b: byte)
  {
    || b < 0x20 || b > 0x7E
    || b == 0x20 || b == 0x22 || b == 0x23 || b == 0x3C || b == 0x3E
    || b == 0x60 || b == 0x3F || b == 0x7B || b == 0x7D
    || b == PERCENT || b == SLASH
  }

  predicate IsHexDigit(b: byte)
  {
    (0x30 <= b <= 0x39) || (0x41 <= b <= 0x46) || (0x61 <= b <= 0x66)
  }

  /** Value of a hex digit of either case (`char::to_digit(16)`). */
  function HexValue(b: byte): (v: nat)
    requires IsHexDigit(b)
    ensures v < 16
  {
    if b <= 0x39 then b - 0x30 else if b <= 0x46 then b - 0x41 + 10 else b - 0x61 + 10
  }

  /** Upper-case hex digit, as in the encoder's `%XX` table. */
  function HexDigit(n: nat): (b: byte)
    requires n < 16
    ensures IsHexDigit(b) && HexValue(b) == n
    ensures !InPathSegmentSet(b)
  {
    if n < 10 then 0x30 + n else 0x41 + (n - 10)
  }

  function EncodeByte(b: byte): Bytes
  {
    if InPathSegmentSet(b) then [PERCENT, HexDigit(b / 16), HexDigit(b % 16)] else [b]
  }

  /**
   * The encoded segment holds no byte of the encode set except the `%` that
   * opens a triplet; in particular it holds no `/`.
   */
  function EncodeSegment(s: Bytes): (r: Bytes)
    ensures forall j :: 0 <= j < |r| ==> r[j] == PERCENT || !InPathSegmentSet(r[j])
    ensures SLASH !in r
    ensures |s| <= |r| <= 3 * |s|
  {
    if |s| == 0 then [] else EncodeByte(s[0]) + EncodeSegment(s[1..])
  }

  /** `%` followed by two hex digits becomes one byte; any other byte is kept. */
  function PercentDecode(s: Bytes): (r: Bytes)
    ensures |r| <= |s|
    ensures |r| == 0 <==> |s| == 0
  {
    if |s| == 0 then []
    else if s[0] == PERCENT && |s| >= 3 && IsHexDigit(s[1]) && IsHexDigit(s[2]) then
      [16 * HexValue(s[1]) + HexValue(s[2])] + PercentDecode(s[3..])
    else [s[0]] + PercentDecode(s[1..])
  }

  lemma DecodeEncodeByte(b: byte, rest: Bytes)
    ensures PercentDecode(EncodeByte(b) + rest) == [b] + PercentDecode(rest)
  {
    var e := EncodeByte(b) + rest;
    if InPathSegmentSet(b) {
      assert e[3..] == rest;
      assert 16 * (b / 16) + b % 16 == b;
    } else {
      assert b != PERCENT;
      assert e[1..] == rest;
    }
  }

  /** Decoding undoes encoding, for every byte string. */
  lemma {:induction false} DecodeEncodeSegment(s: Bytes)
    ensures PercentDecode(EncodeSegment(s)) == s
  {
    if |s| > 0 {
      DecodeEncodeByte(s[0], EncodeSegment(s[1..]));
      DecodeEncodeSegment(s[1..]);
      assert s == [s[0]] + s[1..];
    }
  }

  /** A segment with no byte of the encode set is emitted unchanged. */
  lemma {:induction false} EncodeSafeSegment(s: Bytes)
    requires forall j :: 0 <= j < |s| ==> !InPathSegmentSet(s[j])
    ensures EncodeSegment(s) == s
  {
    if |s| > 0 {
      EncodeSafeSegment(s[1..]);
      assert s == [s[0]] + s[1..];
    }
  }

  /** Decoding never lets a `%`-free segment change. */
  lemma {:induction false} DecodeWithoutPercent(s: Bytes)
    requires PERCENT !in s
    ensures PercentDecode(s) == s
  {
    if |s| > 0 {
      DecodeWithoutPercent(s[1..]);
      assert s == [s[0]] + s[1..];
    }
  }
}
