/** The 32.32 fixed-point NTP timestamps of common/timestamp.go (section 6 of
    RFC 5905) and the durations computed from them.

    Go converts between nanoseconds and fractions through float64.  Fraction to
    nanoseconds is exact there: the factor is 1953125 / 2^23, so the product of a
    32-bit fraction needs 53 bits, and the conversion back to an integer takes the
    floor.  Nanoseconds to fraction is rounded, so it is a parameter here, and the
    results hold for every conversion that stays within one unit of the exact floor.
    On a negative operand Go leaves the conversion to the platform; then the
    parameter may return anything. */
module Timestamps {
  import opened Bytes

  const NANOS := 1_000_000_000
  const NTP_EPOCH_OFFSET := 2208988800
  const NTP_ERA1_UNIX := 2085978496

  datatype Timestamp = Timestamp(seconds: uint32, fraction: uint32)

  /** A Go time.Time: Unix seconds and nanoseconds within the second. */
  datatype Time = Time(unix: int, nanos: int) {
    predicate Valid() {
      0 <= nanos < NANOS
    }

    function Instant(): int {
      unix * NANOS + nanos
    }

    /** The NTP era the time falls in; era 0 starts in 1900, era 1 in 2036. */
    function Era(): int {
      (unix + NTP_EPOCH_OFFSET) / TWO32
    }
  }

  type FloatConversion = int -> uint32

  function FloorFraction(n: int): uint32
    requires 0 <= n < NANOS
  {
    n * TWO32 / NANOS
  }

  ghost predicate RoundsNanos(conv: FloatConversion) {
    forall n :: 0 <= n < NANOS ==> -1 <= conv(n) as int - FloorFraction(n) as int <= 1
  }

  function FracToNanos(f: int): (n: int)
    requires 0 <= f < TWO32
    ensures 0 <= n < NANOS
  {
    f * NANOS / TWO32
  }

  /** The timestamp as one 64-bit number of 2^-32 s units. */
  function Value(ts: Timestamp): int {
    ts.seconds as int * TWO32 + ts.fraction as int
  }

  function FromTime(t: Time, conv: FloatConversion): Timestamp {
    Timestamp((t.unix + NTP_EPOCH_OFFSET) % TWO32, conv(t.nanos))
  }

  function ToTimeWithReference(ts: Timestamp, ref: Time): Time {
    var ntpSecs := if ref.unix < NTP_ERA1_UNIX then ts.seconds as int else TWO32 + ts.seconds as int;
    Time(ntpSecs - NTP_EPOCH_OFFSET, FracToNanos(ts.fraction))
  }

  function Duration(ts: Timestamp): int {
    ts.seconds as int * NANOS + FracToNanos(ts.fraction)
  }

  /** DurationBetween, with its three era cases and its borrow, in nanoseconds.
      The result always fits the int64 of a Go duration. */
  function DurationBetween(start: Timestamp, end: Timestamp): (d: int)
    ensures -TWO63 <= d < TWO63
  {
    var s: int, e: int := start.seconds, end.seconds;
    var secDiff :=
      if e < s && s - e > 0x8000_0000 then e + TWO32 - s
      else if s < e && e - s > 0x8000_0000 then e - (s + TWO32)
      else e - s;
    var sf: int, ef: int := start.fraction, end.fraction;
    if ef >= sf then
      secDiff * NANOS + FracToNanos(ef - sf)
    else
      (secDiff - 1) * NANOS + FracToNanos(ef + TWO32 - sf)
  }

  /** Go's truncating division and its remainder. */
  function Quo(d: int, m: int): int
    requires m > 0
  {
    if d >= 0 then d / m else -(-d / m)
  }

  function Rem(d: int, m: int): int
    requires m > 0
  {
    d - Quo(d, m) * m
  }

  function Add(ts: Timestamp, d: int, conv: FloatConversion): Timestamp {
    var sum := ts.fraction as int + conv(Rem(d, NANOS)) as int;
    var carry := if sum >= TWO32 then 1 else 0;
    Timestamp((ts.seconds as int + Quo(d, NANOS) % TWO32 + carry) % TWO32, sum - carry * TWO32)
  }

  function Sub(ts: Timestamp, d: int, conv: FloatConversion): Timestamp {
    var fracToSub: int := conv(Rem(d, NANOS));
    var borrow := if fracToSub > ts.fraction then 1 else 0;
    Timestamp((ts.seconds as int - Quo(d, NANOS) % TWO32 - borrow) % TWO32,
              ts.fraction as int + borrow * TWO32 - fracToSub)
  }

  predicate Before(a: Timestamp, b: Timestamp) {
    a.seconds < b.seconds || (a.seconds == b.seconds && a.fraction < b.fraction)
  }

  /** The Timeout field a client puts into its session request. */
  function RequestTimeout(d: int, conv: FloatConversion): Timestamp {
    Timestamp(Quo(d, NANOS) % TWO32, conv(Rem(d, NANOS)))
  }

  // ---- What the conversions keep ----

  lemma NanosWithinOne(conv: FloatConversion, n: int)
    requires RoundsNanos(conv) && 0 <= n < NANOS
    ensures n - 1 <= FracToNanos(conv(n)) <= n
  {
    assert -1 <= conv(n) as int - FloorFraction(n) as int <= 1;
  }

  /** 1241897 is the inverse of 2^23 modulo 5^9. */
  lemma PowersCoprime(f: int, n: int)
    requires f * 1953125 == n * 8388608
    ensures n % 1953125 == 0
  {
    assert n == 1953125 * (1241897 * f - 5333907 * n);
  }

  /** With exact floors the nanoseconds come back unchanged precisely on the
      multiples of 5^9. */
  lemma NanosExact(n: int)
    requires 0 <= n < NANOS
    ensures FracToNanos(FloorFraction(n)) == n <==> n % 1953125 == 0
  {
    var f: int, m := FloorFraction(n), n / 1953125;
    if n == 1953125 * m {
      assert f == 8388608 * m;
    } else if f * 1953125 == n * 8388608 {
      PowersCoprime(f, n);
    } else {
      assert f * 1953125 < n * 8388608;
    }
  }

  // ---- DurationBetween is signed 64-bit subtraction ----

  function Signed64(x: int): int {
    var r := x % TWO64;
    if r < TWO63 then r else r - TWO64
  }

  /** A span in 2^-32 s units, rounded down to nanoseconds. */
  function FloorNanos(v: int): int {
    v * NANOS / TWO32
  }

  /** The span DurationBetween measures, before rounding. */
  function Span(a: Timestamp, b: Timestamp): int {
    var s: int, e: int := a.seconds, b.seconds;
    var era := if e < s - 0x8000_0000 then 1 else if e > s + 0x8000_0000 then -1 else 0;
    (e - s + era * TWO32) * TWO32 + b.fraction as int - a.fraction as int
  }

  lemma DurationBetweenIsFloor(a: Timestamp, b: Timestamp)
    ensures DurationBetween(a, b) == FloorNanos(Span(a, b))
  {
  }

  /** Seconds fields exactly half an era apart, with the fractions on the side on
      which the signed difference leaves the 64-bit range. */
  predicate HalfEraApart(a: Timestamp, b: Timestamp) {
    || (b.seconds as int - a.seconds as int == 0x8000_0000 && b.fraction >= a.fraction)
    || (a.seconds as int - b.seconds as int == 0x8000_0000 && b.fraction < a.fraction)
  }

  lemma DurationBetweenRefinesSubtraction(a: Timestamp, b: Timestamp)
    ensures DurationBetween(a, b) == FloorNanos(Signed64(Value(b) - Value(a))) <==> !HalfEraApart(a, b)
  {
    DurationBetweenIsFloor(a, b);
    var v, w := Span(a, b), Signed64(Value(b) - Value(a));
    assert w == v || w == v - TWO64 || w == v + TWO64;
  }

  lemma DurationBetweenAntisymmetric(a: Timestamp, b: Timestamp)
    ensures DurationBetween(a, b) + DurationBetween(b, a) in {0, -1}
  {
    DurationBetweenIsFloor(a, b);
    DurationBetweenIsFloor(b, a);
    assert Span(b, a) == -Span(a, b);
  }

  lemma SpanOfReadings(x: int, y: int, a: Timestamp, b: Timestamp)
    requires -0x7fff_ffff <= y - x <= 0x7fff_ffff
    requires a.seconds == (x + NTP_EPOCH_OFFSET) % TWO32 && b.seconds == (y + NTP_EPOCH_OFFSET) % TWO32
    ensures Span(a, b) == (y - x) * TWO32 + b.fraction as int - a.fraction as int
  {
    var i, j := (x + NTP_EPOCH_OFFSET) / TWO32, (y + NTP_EPOCH_OFFSET) / TWO32;
    assert x + NTP_EPOCH_OFFSET == i * TWO32 + a.seconds && y + NTP_EPOCH_OFFSET == j * TWO32 + b.seconds;
    assert b.seconds as int - a.seconds as int == y - x - (j - i) * TWO32 && -1 <= j - i <= 1;
  }

  lemma FractionDifference(m: int, n: int, f: int, g: int, q: int)
    requires 0 <= m < NANOS && 0 <= n < NANOS
    requires -1 <= f - FloorFraction(m) as int <= 1 && -1 <= g - FloorFraction(n) as int <= 1
    ensures 0 <= q * NANOS + n - m - FloorNanos(q * TWO32 + g - f) <= 1
  {
  }

  /** Two clock readings up to 2^31 - 1 s apart, in the same era or on both sides
      of a rollover: the measured duration is the true one or 1 ns less. */
  lemma DurationBetweenReadings(t: Time, u: Time, conv: FloatConversion)
    requires RoundsNanos(conv) && t.Valid() && u.Valid()
    requires -0x7fff_ffff * NANOS <= u.Instant() - t.Instant() <= 0x7fff_ffff * NANOS
    ensures 0 <= u.Instant() - t.Instant() - DurationBetween(FromTime(t, conv), FromTime(u, conv)) <= 1
  {
    var a, b, q := FromTime(t, conv), FromTime(u, conv), u.unix - t.unix;
    assert -0x7fff_ffff <= q <= 0x7fff_ffff;
    DurationBetweenIsFloor(a, b);
    SpanOfReadings(t.unix, u.unix, a, b);
    assert -1 <= conv(t.nanos) as int - FloorFraction(t.nanos) as int <= 1;
    assert -1 <= conv(u.nanos) as int - FloorFraction(u.nanos) as int <= 1;
    FractionDifference(t.nanos, u.nanos, a.fraction, b.fraction, q);
  }

  // ---- Round trips and order ----

  /** A clock reading comes back with its seconds exactly when the reference time
      selects the reading's own era, and always with its nanoseconds or one less. */
  lemma TimeRoundTrip(t: Time, ref: Time, conv: FloatConversion)
    requires RoundsNanos(conv) && t.Valid()
    ensures var r := ToTimeWithReference(FromTime(t, conv), ref);
            && r.Valid()
            && (r.unix == t.unix <==> t.Era() == if ref.Era() < 1 then 0 else 1)
            && t.nanos - 1 <= r.nanos <= t.nanos
  {
    NanosWithinOne(conv, t.nanos);
  }

  /** The Unix epoch lies 70 years with 17 leap days after the NTP epoch, and era 1
      starts where 32 bits of seconds from there run out. */
  lemma Epochs(conv: FloatConversion)
    ensures FromTime(Time(0, 0), conv).seconds == (70 * 365 + 17) * 86400
    ensures NTP_ERA1_UNIX == TWO32 - (70 * 365 + 17) * 86400
    ensures FromTime(Time(NTP_ERA1_UNIX, 0), conv).seconds == 0
    ensures Time(NTP_ERA1_UNIX, 0).Era() == 1 && Time(NTP_ERA1_UNIX - 1, 0).Era() == 0
  {
  }

  /** Within one era the naive order of timestamps is the order of the readings. */
  lemma BeforeWithinEra(t: Time, u: Time, conv: FloatConversion)
    requires RoundsNanos(conv) && t.Valid() && u.Valid() && t.Era() == u.Era()
    ensures Before(FromTime(t, conv), FromTime(u, conv)) <==> t.Instant() < u.Instant()
    ensures FromTime(t, conv) == FromTime(u, conv) <==> t == u
  {
    assert -1 <= conv(t.nanos) as int - FloorFraction(t.nanos) as int <= 1;
    assert -1 <= conv(u.nanos) as int - FloorFraction(u.nanos) as int <= 1;
  }

  lemma Residue(r: int, k: int)
    requires 0 <= r < TWO32
    ensures (r + k * TWO32) % TWO32 == r
  {
    assert (r + k * TWO32) / TWO32 == k;
  }

  lemma SecondsInverse(s: uint32, q: uint32, c: int)
    requires 0 <= c <= 1
    ensures ((s as int + q + c) % TWO32 - q - c) % TWO32 == s
    ensures ((s as int - q - c) % TWO32 + q + c) % TWO32 == s
  {
    var up, down := s as int + q + c, s as int - q - c;
    var i := if up < TWO32 then 0 else if up < 2 * TWO32 then 1 else 2;
    var j := if down >= 0 then 0 else if down >= -TWO32 then 1 else 2;
    Residue(up - i * TWO32, i);
    Residue(s, -i);
    Residue(down + j * TWO32, -j);
    Residue(s, j);
  }

  /** Add and Sub undo each other for every duration, negative ones included, and
      whatever the float conversion does, with every carry, borrow and wrap. */
  lemma AddSubInverse(ts: Timestamp, d: int, conv: FloatConversion)
    ensures Sub(Add(ts, d, conv), d, conv) == ts
    ensures Add(Sub(ts, d, conv), d, conv) == ts
  {
    var sum: int, diff: int := ts.fraction as int + conv(Rem(d, NANOS)), ts.fraction as int - conv(Rem(d, NANOS));
    SecondsInverse(ts.seconds, Quo(d, NANOS) % TWO32, if sum >= TWO32 then 1 else 0);
    SecondsInverse(ts.seconds, Quo(d, NANOS) % TWO32, if diff < 0 then 1 else 0);
  }

  lemma SpanOfAdd(ts: Timestamp, sum: Timestamp, q: int, f: int)
    requires 0 <= q < 0x8000_0000 && 0 <= f < TWO32
    requires var carry := if ts.fraction as int + f >= TWO32 then 1 else 0;
             && sum.fraction as int == ts.fraction as int + f - carry * TWO32
             && sum.seconds as int == (ts.seconds as int + q + carry) % TWO32
    ensures Span(ts, sum) == q * TWO32 + f - if HalfEraApart(ts, sum) then TWO64 else 0
    ensures q < 0x7fff_ffff ==> !HalfEraApart(ts, sum)
  {
  }

  /** Adding a duration under 2^31 s and measuring it again gives the duration or
      1 ns less, except when the two ends lie half an era apart; below 2^31 - 1 s
      they never do. */
  lemma DurationBetweenAdd(ts: Timestamp, d: int, conv: FloatConversion)
    requires RoundsNanos(conv) && 0 <= d < 0x8000_0000 * NANOS
    ensures d - 1 <= DurationBetween(ts, Add(ts, d, conv)) <= d <==> !HalfEraApart(ts, Add(ts, d, conv))
    ensures d < 0x7fff_ffff * NANOS ==> !HalfEraApart(ts, Add(ts, d, conv))
  {
    var q, n, sum := d / NANOS, d % NANOS, Add(ts, d, conv);
    assert Quo(d, NANOS) == q && Rem(d, NANOS) == n && q % TWO32 == q;
    NanosWithinOne(conv, n);
    DurationBetweenIsFloor(ts, sum);
    SpanOfAdd(ts, sum, q, conv(n));
  }

  /** The grace period a server derives from a request is the client's timeout, or
      1 ns less, exactly for timeouts under 2^32 s; longer ones lose whole wraps of
      the seconds field. */
  lemma TimeoutArrives(d: int, conv: FloatConversion)
    requires RoundsNanos(conv) && 0 <= d < TWO63
    ensures d < TWO32 * NANOS <==> d - 1 <= Duration(RequestTimeout(d, conv)) <= d
    ensures var lost := d / NANOS / TWO32 * TWO32 * NANOS;
            d - lost - 1 <= Duration(RequestTimeout(d, conv)) <= d - lost
  {
    NanosWithinOne(conv, d % NANOS);
  }
}
