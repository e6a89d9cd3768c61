/** Time intervals in ticks of 100 ns (src/os/inc/osapi-clock.h). */
module Clock {
  import opened Common

  const TICKS_PER_SECOND: int := 10_000_000
  const TICKS_PER_MSEC: int := 10_000
  const TICKS_PER_USEC: int := 10
  const RESOLUTION_NS: int := 100

  const TWO_63: int := 0x8000_0000_0000_0000
  const TWO_64: int := 0x1_0000_0000_0000_0000
  const TIME_MAX: int := TWO_63 - 1

  type Ticks = t: int | -TWO_63 <= t < TWO_63

  // Division and remainder of C, which truncate toward zero.
  function CDiv(a: int, b: int): int
    requires b > 0
  {
    if a >= 0 then a / b else -((-a) / b)
  }

  function CRem(a: int, b: int): int
    requires b > 0
  {
    a - CDiv(a, b) * b
  }

  // int64 arithmetic that wraps around.
  function Wrap64(v: int): Ticks {
    (v + TWO_63) % TWO_64 - TWO_63
  }

  function TotalSeconds(t: Ticks): int {
    CDiv(t, TICKS_PER_SECOND)
  }

  function FractionalPart(t: Ticks): int {
    CRem(t, TICKS_PER_SECOND)
  }

  // Parts and fractions are 32-bit integers; the parts are taken of the fraction cast to uint32.
  type Uint32 = n: nat | n < TWO_32

  function Cast32(v: int): Uint32 {
    v % TWO_32
  }

  function MillisecondsPart(t: Ticks): Uint32 {
    Cast32(FractionalPart(t)) / TICKS_PER_MSEC
  }

  function MicrosecondsPart(t: Ticks): Uint32 {
    Cast32(FractionalPart(t)) / TICKS_PER_USEC
  }

  function NanosecondsPart(t: Ticks): Uint32 {
    Cast32(Cast32(FractionalPart(t)) * RESOLUTION_NS)
  }

  // Units of 2^-32 seconds, rounded up.  The shift is defined for intervals that are not negative.
  function SubsecondsPart(t: Ticks): int
    requires t >= 0
  {
    (FractionalPart(t) * 0x4000_0000 + TICKS_PER_SECOND / 4 - 1) / (TICKS_PER_SECOND / 4)
  }

  // The products with 32-bit factors are 32-bit integers, too.
  function FromNanoseconds(seconds: int, nanoseconds: Uint32): int {
    seconds * TICKS_PER_SECOND + nanoseconds / RESOLUTION_NS
  }

  function FromMicroseconds(seconds: int, microseconds: Uint32): int {
    seconds * TICKS_PER_SECOND + Cast32(microseconds * TICKS_PER_USEC)
  }

  function FromMilliseconds(seconds: int, milliseconds: Uint32): int {
    seconds * TICKS_PER_SECOND + Cast32(milliseconds * TICKS_PER_MSEC)
  }

  function FromSubseconds(seconds: int, subseconds: Uint32): int {
    seconds * TICKS_PER_SECOND + subseconds * (TICKS_PER_SECOND / 4) / 0x4000_0000
  }

  function Sign(t: Ticks): int {
    (if t > 0 then 1 else 0) - (if t < 0 then 1 else 0)
  }

  function Subtract(a: Ticks, b: Ticks): Ticks {
    Wrap64(a - b)
  }

  function Add(a: Ticks, b: Ticks): Ticks {
    Wrap64(a + b)
  }

  function Compare(a: Ticks, b: Ticks): int {
    Sign(Subtract(a, b))
  }

  // Whole seconds and fraction make up the interval, for negative intervals too.
  lemma SplitExact(t: Ticks)
    ensures TotalSeconds(t) * TICKS_PER_SECOND + FractionalPart(t) == t
    ensures -TICKS_PER_SECOND < FractionalPart(t) < TICKS_PER_SECOND
    ensures t >= 0 ==> FractionalPart(t) >= 0 && TotalSeconds(t) >= 0
    ensures t <= 0 ==> FractionalPart(t) <= 0 && TotalSeconds(t) <= 0
  {
  }

  /** The two subsecond conversions are adjoint: rounding up to subseconds is the best approximation from
      above of what rounding down to ticks allows. */
  lemma SubsecondsAdjoint(f: Ticks, s: Uint32)
    requires 0 <= f < TICKS_PER_SECOND
    ensures SubsecondsPart(f) <= s <==> f <= FromSubseconds(0, s)
  {
    SplitExact(f);
    assert FractionalPart(f) == f;
    assert SubsecondsPart(f) <= s <==> f * 0x4000_0000 <= s * 2_500_000;
    assert f <= FromSubseconds(0, s) <==> f * 0x4000_0000 <= s * 2_500_000;
  }

  /** Hence the 32-bit subseconds determine the interval exactly. */
  lemma SubsecondsRoundTrip(t: Ticks)
    requires t >= 0
    ensures 0 <= SubsecondsPart(t) < TWO_32
    ensures FromSubseconds(TotalSeconds(t), SubsecondsPart(t)) == t
  {
    SplitExact(t);
    var f := FractionalPart(t);
    var s := SubsecondsPart(t);
    assert f * 0x4000_0000 <= s * 2_500_000 < (f + 1) * 0x4000_0000;
  }

  lemma SubsecondsIncrease(f: Ticks, g: Ticks)
    requires 0 <= f < g < TICKS_PER_SECOND
    ensures SubsecondsPart(f) < SubsecondsPart(g)
  {
    SplitExact(f);
    SubsecondsRoundTrip(f);
    SubsecondsAdjoint(g, SubsecondsPart(f));
    hide SubsecondsPart, FromSubseconds;
  }

  // A subsecond is the 2^32nd part of a second: the conversion to ticks of 10^-7 seconds rounds down.
  lemma SubsecondsAre(seconds: int, subseconds: Uint32)
    ensures var t := FromSubseconds(seconds, subseconds) - seconds * 10_000_000;
            t * 0x1_0000_0000 <= subseconds * 10_000_000 < (t + 1) * 0x1_0000_0000
  {
  }

  /** The assembly from nanoseconds rounds down to ticks of 100 ns, whatever the nanoseconds. */
  lemma NanosecondsRoundDown(seconds: int, nanoseconds: Uint32)
    ensures var t := FromNanoseconds(seconds, nanoseconds) - seconds * 10_000_000;
            t * 100 <= nanoseconds < (t + 1) * 100
  {
  }

  /** The assembly from microseconds and milliseconds is exact if and only if the product fits 32 bits. */
  lemma AssembleExactly(seconds: int, n: Uint32)
    ensures FromMicroseconds(seconds, n) == seconds * 10_000_000 + n * 10 <==> n < 429_496_730
    ensures FromMilliseconds(seconds, n) == seconds * 10_000_000 + n * 10_000 <==> n < 429_497
  {
  }

  lemma SplitUnique(t: Ticks, seconds: nat, fraction: nat)
    requires fraction < TICKS_PER_SECOND && t == seconds * TICKS_PER_SECOND + fraction
    ensures TotalSeconds(t) == seconds && FractionalPart(t) == fraction
  {
  }

  /** Taking apart what was assembled gives back the seconds and the nanoseconds, the latter rounded down to
      the resolution of 100 ns; nanoseconds of a second or more are carried. */
  lemma NanosecondsGivenBack(seconds: nat, nanoseconds: Uint32)
    requires seconds * TICKS_PER_SECOND + nanoseconds / 100 < TWO_63
    ensures var t := FromNanoseconds(seconds, nanoseconds);
            && TotalSeconds(t) == seconds + nanoseconds / 1_000_000_000
            && NanosecondsPart(t) == nanoseconds % 1_000_000_000 - nanoseconds % 100
  {
    var t, carry := FromNanoseconds(seconds, nanoseconds), nanoseconds / 1_000_000_000;
    var rest := nanoseconds - carry * 1_000_000_000;
    assert nanoseconds / 100 == carry * 10_000_000 + rest / 100;
    SplitUnique(t, seconds + carry, rest / 100);
    assert rest % 100 == nanoseconds % 100;
  }

  // The same for microseconds and milliseconds, which are multiples of the resolution.
  lemma FractionsGivenBack(seconds: nat, n: Uint32)
    requires seconds * TICKS_PER_SECOND + TICKS_PER_SECOND <= TWO_63
    ensures n < 1_000_000 ==>
              var t := FromMicroseconds(seconds, n); TotalSeconds(t) == seconds && MicrosecondsPart(t) == n
    ensures n < 1_000 ==>
              var t := FromMilliseconds(seconds, n); TotalSeconds(t) == seconds && MillisecondsPart(t) == n
  {
    if n < 1_000_000 {
      SplitUnique(FromMicroseconds(seconds, n), seconds, n * 10);
    }
    if n < 1_000 {
      SplitUnique(FromMilliseconds(seconds, n), seconds, n * 10_000);
    }
  }

  predicate PartsFit(t: Ticks) {
    t >= 0 || FractionalPart(t) == 0
  }

  /** Seconds and parts make up the interval again - exactly for nanoseconds, otherwise short by less than one
      unit - if and only if it is not negative or a whole number of seconds.  A negative fraction is cast to a
      large unsigned number. */
  lemma PartsRoundTrip(t: Ticks)
    ensures FromNanoseconds(TotalSeconds(t), NanosecondsPart(t)) == t <==> PartsFit(t)
    ensures t - 10 < FromMicroseconds(TotalSeconds(t), MicrosecondsPart(t)) <= t <==> PartsFit(t)
    ensures t - 10_000 < FromMilliseconds(TotalSeconds(t), MillisecondsPart(t)) <= t <==> PartsFit(t)
    ensures PartsFit(t) ==> MicrosecondsPart(t) < 1_000_000 && MillisecondsPart(t) < 1_000
    ensures PartsFit(t) ==> NanosecondsPart(t) < 1_000_000_000
  {
    SplitExact(t);
    var f := FractionalPart(t);
    hide FractionalPart, TotalSeconds;
    PartsOf(f);
  }

  // What the casts make of a fraction.
  lemma PartsOf(f: int)
    requires -TICKS_PER_SECOND < f < TICKS_PER_SECOND
    ensures f >= 0 ==> Cast32(f) == f && Cast32(f * RESOLUTION_NS) == f * RESOLUTION_NS
    ensures f < 0 ==> Cast32(f) == f + TWO_32 && Cast32((f + TWO_32) * RESOLUTION_NS) == f * RESOLUTION_NS + TWO_32
  {
  }

  lemma SubtractUndoesAdd(a: Ticks, b: Ticks)
    ensures Subtract(Add(a, b), b) == a
  {
  }

  /** The comparison goes by the sign of the difference, so it is right exactly when the difference does
      not overflow. */
  lemma CompareExactly(a: Ticks, b: Ticks)
    ensures Compare(a, b) == (if a < b then -1 else if a == b then 0 else 1) <==> -TWO_63 <= a - b < TWO_63
  {
  }

  // The latest representable time compares as earlier than a time just before the epoch.
  lemma CompareOverflows()
    ensures Compare(TIME_MAX, -1) == -1
  {
  }
}
