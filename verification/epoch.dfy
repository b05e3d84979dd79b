/**
 * The epoch normalisation inside `system_time_to_date_time`: the outcome of
 * `t.duration_since(UNIX_EPOCH)` becomes the signed `(sec, nsec)` pair that
 * is handed to `Local.timestamp`.  `as i64` and unary minus are modelled
 * with the wrap-around of a release build.
 */
module EpochTime {

  const NANOS_PER_SEC: int := 1_000_000_000
  const I64_MIN: int := -0x8000_0000_0000_0000
  const I64_MAX: int := 0x7FFF_FFFF_FFFF_FFFF
  const U64_MODULUS: int := 0x1_0000_0000_0000_0000

  type u64 = x: int | 0 <= x < 0x1_0000_0000_0000_0000
  type i64 = x: int | -0x8000_0000_0000_0000 <= x < 0x8000_0000_0000_0000
  type SubsecNanos = x: int | 0 <= x < 1_000_000_000

  /** `std::time::Duration`: whole seconds and a sub-second part in nanoseconds. */
  datatype Duration = Duration(secs: u64, nanos: SubsecNanos) {
    function TotalNanos(): nat
    {
      secs * NANOS_PER_SEC + nanos
    }
  }

  /**
   * `Ok(d)` of `duration_since` when the time is at or after the epoch;
   * `Err(e)` with `e.duration()` = how far before the epoch it lies.
   */
  datatype SinceEpoch = AtOrAfter(d: Duration) | Before(d: Duration) {
    /** The signed distance from the epoch, in nanoseconds. */
    function Offset(): int
    {
      if AtOrAfter? then d.TotalNanos() else -(d.TotalNanos() as int)
    }
  }

  /** The `(sec, nsec)` arguments of `Local.timestamp`. */
  datatype EpochPair = EpochPair(sec: int, nsec: int)

  /** `x as i64` for a `u64` value. */
  function AsI64(x: u64): i64
  {
    if x <= I64_MAX then x else x - U64_MODULUS
  }

  /** Unary minus on `i64`, wrapping at `i64::MIN`. */
  function WrappingNeg(x: i64): i64
  {
    if x == I64_MIN then I64_MIN else -x
  }

  /** `x - 1` on `i64`, wrapping at `i64::MIN`. */
  function WrappingDec(x: i64): i64
  {
    if x == I64_MIN then I64_MAX else x - 1
  }

  /**
   * The pair is an `i64` second and a nanosecond in `[0, 10^9)`.  At or
   * after the epoch it is the duration's whole seconds and sub-second
   * nanoseconds; before it, with no sub-second part, minus the seconds and
   * 0; otherwise one second further back and the complement of the
   * nanoseconds, so that `sec * 10^9 + nsec` is minus the duration.
   */
  function Normalise(t: SinceEpoch): (p: EpochPair)
    ensures I64_MIN <= p.sec <= I64_MAX
    ensures 0 <= p.nsec < NANOS_PER_SEC
    ensures t.AtOrAfter? && t.d.secs <= I64_MAX ==> p == EpochPair(t.d.secs, t.d.nanos)
    ensures t.Before? && t.d.nanos == 0 && t.d.secs <= -I64_MIN ==> p == EpochPair(-(t.d.secs as int), 0)
    ensures t.Before? && t.d.nanos != 0 && t.d.secs < -I64_MIN ==>
              p == EpochPair(-(t.d.secs as int) - 1, NANOS_PER_SEC - t.d.nanos)
    ensures I64_MIN * NANOS_PER_SEC <= t.Offset() < -I64_MIN * NANOS_PER_SEC ==>
              p.sec * NANOS_PER_SEC + p.nsec == t.Offset()
  {
    match t
    case AtOrAfter(d) => EpochPair(AsI64(d.secs), d.nanos)
    case Before(d) =>
      var sec := AsI64(d.secs);
      if d.nanos == 0 then EpochPair(WrappingNeg(sec), 0)
      else EpochPair(WrappingDec(WrappingNeg(sec)), NANOS_PER_SEC - d.nanos)
  }

  /**
   * Within the `i64` range the pair is the floor division of the signed
   * offset by one second: quotient and non-negative remainder.
   */
  lemma NormaliseIsFloorDivision(t: SinceEpoch)
    requires I64_MIN * NANOS_PER_SEC <= t.Offset() <= I64_MAX * NANOS_PER_SEC + (NANOS_PER_SEC - 1)
    ensures Normalise(t).sec == t.Offset() / NANOS_PER_SEC
    ensures Normalise(t).nsec == t.Offset() % NANOS_PER_SEC
  {
    var p := Normalise(t);
    FloorDivisionUnique(t.Offset(), p.sec, p.nsec);
  }

  lemma FloorDivisionUnique(x: int, q: int, r: int)
    requires 0 <= r < NANOS_PER_SEC && q * NANOS_PER_SEC + r == x
    ensures q == x / NANOS_PER_SEC && r == x % NANOS_PER_SEC
  {
  }

  /** A Unix `SystemTime`: signed seconds and nanoseconds since the epoch. */
  datatype Timespec = Timespec(sec: i64, nsec: SubsecNanos)

  /** `t.duration_since(UNIX_EPOCH)` as the standard library computes it. */
  function DurationSinceEpoch(t: Timespec): SinceEpoch
  {
    if t.sec >= 0 then AtOrAfter(Duration(t.sec, t.nsec))
    else
      var behind := -(t.sec * NANOS_PER_SEC + t.nsec);
      Before(Duration(behind / NANOS_PER_SEC, behind % NANOS_PER_SEC))
  }

  /** For every file time the pair recovers the time itself, before the epoch included. */
  lemma NormaliseRecoversTimespec(t: Timespec)
    ensures Normalise(DurationSinceEpoch(t)) == EpochPair(t.sec, t.nsec)
  {
    var s := DurationSinceEpoch(t);
    assert s.Offset() == t.sec * NANOS_PER_SEC + t.nsec;
    NormaliseIsFloorDivision(s);
    FloorDivisionUnique(s.Offset(), t.sec, t.nsec);
  }
}
