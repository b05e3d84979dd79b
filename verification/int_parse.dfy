/**
 * `str::parse` for the unsigned integer types (`u8`, `u16`, `usize`), as
 * `from_str_radix` with radix 10 does it: an optional leading `+`, then
 * digits read left to right, failing at the first non-digit or at the first
 * digit that takes the value past the type's maximum.
 */
module IntParse {
  import opened Wrappers
  import opened Bytes

  const U8_MAX: nat := 0xFF
  const U16_MAX: nat := 0xFFFF
  const USIZE_MAX: nat := 0xFFFF_FFFF_FFFF_FFFF

  /** The kinds of `ParseIntError` an unsigned parse can give. */
  datatype IntErrorKind = Empty | InvalidDigit | Overflow

  /** `ParseIntError::description()`, the message a clap validator passes on. */
  function Description(k: IntErrorKind): Bytes
  {
    match k
    case Empty => Ascii("cannot parse integer from empty string")
    case InvalidDigit => Ascii("invalid digit found in string")
    case Overflow => Ascii("number too large to fit in target type")
  }

  predicate IsDigit(b: byte)
  {
    0x30 <= b <= 0x39
  }

  predicate AllDigits(d: Bytes)
  {
    forall j :: 0 <= j < |d| ==> IsDigit(d[j])
  }

  /** The value of a decimal numeral, most significant digit first. */
  function DecimalValue(d: Bytes): nat
    requires AllDigits(d)
  {
    if |d| == 0 then 0 else DecimalValue(d[..|d| - 1]) * 10 + (d[|d| - 1] - 0x30)
  }

  /** A numeral is worth at least as much as any of its prefixes. */
  lemma {:induction false} PrefixValueBounded(d: Bytes, k: nat)
    requires AllDigits(d) && k <= |d|
    ensures AllDigits(d[..k]) && DecimalValue(d[..k]) <= DecimalValue(d)
    decreases |d| - k
  {
    if k < |d| {
      var p := d[..|d| - 1];
      assert p[..k] == d[..k];
      PrefixValueBounded(p, k);
    } else {
      assert d[..k] == d;
    }
  }

  /** The digits after an optional `+` (`-` is no sign for an unsigned type). */
  function Digits(s: Bytes): Bytes
  {
    if |s| > 0 && s[0] == PLUS then s[1..] else s
  }

  /**
   * The digit loop of `from_str_radix`, from position `i` with `acc` the
   * value of the digits before it.  It succeeds exactly when every digit is
   * one and the whole value fits, and it overflows exactly when some
   * all-digit prefix is too large.
   */
  function Scan(d: Bytes, i: nat, acc: nat, max: nat): (r: Result<nat, IntErrorKind>)
    requires i <= |d| && AllDigits(d[..i]) && acc == DecimalValue(d[..i]) && acc <= max
    ensures r != Failure(Empty)
    ensures r.Success? <==> AllDigits(d) && DecimalValue(d) <= max
    ensures r.Success? ==> r.value == DecimalValue(d)
    ensures r == Failure(Overflow) <==>
              exists k :: i < k <= |d| && AllDigits(d[..k]) && DecimalValue(d[..k]) > max
    decreases |d| - i
  {
    if i == |d| then
      assert d[..i] == d;
      Success(acc)
    else if !IsDigit(d[i]) then
      assert forall k :: i < k <= |d| ==> d[..k][i] == d[i];
      Failure(InvalidDigit)
    else
      var v := acc * 10 + (d[i] - 0x30);
      assert d[..i + 1][..i] == d[..i];
      assert AllDigits(d[..i + 1]) && DecimalValue(d[..i + 1]) == v;
      if v > max then
        PrefixBoundsWhole(d, i + 1);
        Failure(Overflow)
      else
        Scan(d, i + 1, v, max)
  }

  /** Once a prefix is too large, the whole numeral is too (if it is one). */
  lemma PrefixBoundsWhole(d: Bytes, k: nat)
    requires k <= |d|
    ensures AllDigits(d) ==> AllDigits(d[..k]) && DecimalValue(d[..k]) <= DecimalValue(d)
  {
    if AllDigits(d) {
      PrefixValueBounded(d, k);
    }
  }

  /**
   * `s.parse::<T>()` for an unsigned `T` whose maximum is `max`: empty
   * digits (also a lone `+`) fail with Empty; otherwise it succeeds with the
   * decimal value exactly when all are digits and the value fits, and fails
   * with Overflow exactly when some all-digit prefix is too large, before any
   * non-digit is reached.
   */
  function ParseUint(s: Bytes, max: nat): (r: Result<nat, IntErrorKind>)
    ensures r == Failure(Empty) <==> |Digits(s)| == 0
    ensures r.Success? <==> |Digits(s)| > 0 && AllDigits(Digits(s)) && DecimalValue(Digits(s)) <= max
    ensures r.Success? ==> r.value == DecimalValue(Digits(s))
    ensures r == Failure(Overflow) <==>
              exists k :: 0 < k <= |Digits(s)| && AllDigits(Digits(s)[..k]) && DecimalValue(Digits(s)[..k]) > max
  {
    var d := Digits(s);
    if |s| == 0 || |d| == 0 then Failure(Empty)
    else
      assert AllDigits(d[..0]) && DecimalValue(d[..0]) == 0;
      Scan(d, 0, 0, max)
  }
}
