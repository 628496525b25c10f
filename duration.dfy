/**
 * The `Duration` extensions of `src/extensions/duration.rs`: splitting a
 * duration into hours, minutes and seconds, the absolute difference of two
 * durations, nearness within a tolerance, building a duration from hours,
 * minutes, seconds and milliseconds, and the `minutes:SS.mmm` display.
 *
 * `std::time::Duration` is a pair of a `u64` count of whole seconds and a
 * `u32` count of nanoseconds below one second; its constructor, ordering and
 * subtraction are modelled here as the standard library defines them.
 */
module Durations {

  const NanosPerSec: nat := 1_000_000_000
  const NanosPerMilli: nat := 1_000_000
  const U32: nat := 0x1_0000_0000
  const U64: nat := 0x1_0000_0000_0000_0000

  datatype Duration = Duration(secs: nat, nanos: nat)

  /** The range of the standard library's representation. */
  predicate Valid(d: Duration) {
    d.secs < U64 && d.nanos < NanosPerSec
  }

  /** The length of the duration in nanoseconds. */
  function Total(d: Duration): nat {
    d.secs * NanosPerSec + d.nanos
  }

  /** On valid durations the nanosecond total determines the duration. */
  lemma TotalInjective(a: Duration, b: Duration)
    requires Valid(a) && Valid(b) && Total(a) == Total(b)
    ensures a == b
  {
    LessIffShorter(a, b);
    LessIffShorter(b, a);
  }

  /** `Duration::new`: nanoseconds beyond one second carry into the seconds. */
  function New(secs: nat, nanos: nat): (r: Duration)
    requires secs + nanos / NanosPerSec < U64
    ensures Valid(r)
    ensures Total(r) == secs * NanosPerSec + nanos
  {
    Duration(secs + nanos / NanosPerSec, nanos % NanosPerSec)
  }

  /** The derived ordering of `Duration`: by seconds, then by nanoseconds. */
  predicate Less(a: Duration, b: Duration) {
    a.secs < b.secs || (a.secs == b.secs && a.nanos < b.nanos)
  }

  /** The ordering agrees with the length in nanoseconds. */
  lemma LessIffShorter(a: Duration, b: Duration)
    requires Valid(a) && Valid(b)
    ensures Less(a, b) <==> Total(a) < Total(b)
  {
    if a.secs < b.secs {
      assert Total(a) < (a.secs + 1) * NanosPerSec <= Total(b);
    } else if b.secs < a.secs {
      assert Total(b) < (b.secs + 1) * NanosPerSec <= Total(a);
    }
  }

  /** `Duration - Duration`, which panics on underflow: borrows a second when the nanoseconds would go negative. */
  function Sub(a: Duration, b: Duration): (r: Duration)
    requires Valid(a) && Valid(b) && !Less(a, b)
    ensures Valid(r)
    ensures Total(r) == Total(a) - Total(b)
  {
    if a.nanos >= b.nanos then Duration(a.secs - b.secs, a.nanos - b.nanos)
    else Duration(a.secs - b.secs - 1, a.nanos + NanosPerSec - b.nanos)
  }

  /** `hours`: the whole hours. */
  function Hours(d: Duration): (r: nat)
    ensures r * 3600 <= d.secs < (r + 1) * 3600
  {
    d.secs / 3600
  }

  /** `minutes`: the minutes within the hour. */
  function Minutes(d: Duration): (r: nat)
    ensures r < 60
  {
    (d.secs / 60) % 60
  }

  /** `seconds`: the seconds within the minute. */
  function Seconds(d: Duration): (r: nat)
    ensures r < 60
  {
    d.secs % 60
  }

  /** `Duration::subsec_millis`: the whole milliseconds within the second. */
  function SubsecMillis(d: Duration): (r: nat)
    requires Valid(d)
    ensures r < 1000
    ensures r * NanosPerMilli <= d.nanos < (r + 1) * NanosPerMilli
  {
    d.nanos / NanosPerMilli
  }

  /** Hours, minutes and seconds recombine to the whole seconds. */
  lemma HoursMinutesSeconds(d: Duration)
    ensures Hours(d) * 3600 + Minutes(d) * 60 + Seconds(d) == d.secs
  {
    var m := d.secs / 60;
    assert d.secs == m * 60 + d.secs % 60;
    assert m == (m / 60) * 60 + m % 60;
    assert d.secs / 3600 == m / 60;
  }

  /** A split with minutes and seconds below 60 is the one `hours`, `minutes` and `seconds` give. */
  lemma HoursMinutesSecondsUnique(d: Duration, h: nat, m: nat, s: nat)
    requires m < 60 && s < 60
    requires h * 3600 + m * 60 + s == d.secs
    ensures Hours(d) == h && Minutes(d) == m && Seconds(d) == s
  {
    assert d.secs == (h * 60 + m) * 60 + s;
    assert d.secs / 60 == h * 60 + m;
    assert d.secs % 60 == s;
    assert (h * 60 + m) / 60 == h;
    assert (h * 60 + m) % 60 == m;
    HoursMinutesSeconds(d);
  }

  /** `abs_diff`: the later duration minus the earlier one. */
  function AbsDiff(a: Duration, b: Duration): (r: Duration)
    requires Valid(a) && Valid(b)
    ensures Valid(r)
    ensures Total(r) == if Total(a) < Total(b) then Total(b) - Total(a) else Total(a) - Total(b)
  {
    LessIffShorter(a, b);
    if Less(a, b) then Sub(b, a) else Sub(a, b)
  }

  /** The absolute difference does not depend on the order of the arguments. */
  lemma AbsDiffSymmetric(a: Duration, b: Duration)
    requires Valid(a) && Valid(b)
    ensures AbsDiff(a, b) == AbsDiff(b, a)
  {
    TotalInjective(AbsDiff(a, b), AbsDiff(b, a));
  }

  /** A duration is at distance zero from itself, and only from itself. */
  lemma AbsDiffZero(a: Duration, b: Duration)
    requires Valid(a) && Valid(b)
    ensures AbsDiff(a, b) == Duration(0, 0) <==> a == b
  {
    if a != b {
      if Total(a) == Total(b) {
        TotalInjective(a, b);
      }
    }
  }

  /**
   * `is_near_to`: the distance is strictly below `delta`. The trait's doc
   * comment (src/extensions/duration.rs:19) reads "no less then delta", which
   * taken literally is the opposite test; the comparison in the code is the
   * strict `<`, and that is what is modelled.
   */
  predicate IsNearTo(a: Duration, b: Duration, delta: Duration): (r: bool)
    requires Valid(a) && Valid(b)
    ensures Valid(delta) ==> (r <==> Total(AbsDiff(a, b)) < Total(delta))
  {
    if Valid(delta) then
      LessIffShorter(AbsDiff(a, b), delta);
      Less(AbsDiff(a, b), delta)
    else Less(AbsDiff(a, b), delta)
  }

  /** Nearness is a strict bound on the distance in nanoseconds, whichever comes first. */
  lemma IsNearToDistance(a: Duration, b: Duration, delta: Duration)
    requires Valid(a) && Valid(b) && Valid(delta)
    ensures IsNearTo(a, b, delta) <==> Total(a) - Total(b) < Total(delta) && Total(b) - Total(a) < Total(delta)
    ensures IsNearTo(a, b, delta) == IsNearTo(b, a, delta)
  {
    AbsDiffSymmetric(a, b);
  }

  /** The bound is strict: nothing is near anything, not even itself, with a zero tolerance. */
  lemma NotNearWithinZero(a: Duration, b: Duration)
    requires Valid(a) && Valid(b)
    ensures !IsNearTo(a, b, Duration(0, 0))
  {}

  /**
   * `duration_from_h_m_s_m`. The requires exclude the overflows that panic: the
   * `u64` seconds sum, the `u32` product `millis * 1_000_000` and the carry
   * of `Duration::new`.
   */
  function FromHoursMinutesSecondsMillis(hours: nat, minutes: nat, seconds: nat, millis: nat): (r: Duration)
    requires hours * 3600 + minutes * 60 + seconds < U64
    requires millis * NanosPerMilli < U32
    requires hours * 3600 + minutes * 60 + seconds + millis * NanosPerMilli / NanosPerSec < U64
    ensures Valid(r)
    ensures Total(r) == (hours * 3600 + minutes * 60 + seconds) * NanosPerSec + millis * NanosPerMilli
  {
    New(hours * 3600 + minutes * 60 + seconds, millis * NanosPerMilli)
  }

  /** Components in their usual ranges come back out of the built duration. */
  lemma FromHoursMinutesSecondsMillisRoundTrip(hours: nat, minutes: nat, seconds: nat, millis: nat)
    requires minutes < 60 && seconds < 60 && millis < 1000
    requires hours * 3600 + minutes * 60 + seconds < U64
    ensures var d := FromHoursMinutesSecondsMillis(hours, minutes, seconds, millis);
      Hours(d) == hours && Minutes(d) == minutes && Seconds(d) == seconds && SubsecMillis(d) == millis
  {
    var d := FromHoursMinutesSecondsMillis(hours, minutes, seconds, millis);
    assert d == Duration(hours * 3600 + minutes * 60 + seconds, millis * NanosPerMilli);
    HoursMinutesSecondsUnique(d, hours, minutes, seconds);
  }

  // Decimal rendering, as `{}` and `{:0>N}` format an unsigned integer.

  predicate IsDigit(c: char) {
    '0' <= c <= '9'
  }

  predicate AllDigits(s: string) {
    forall i :: 0 <= i < |s| ==> IsDigit(s[i])
  }

  function Digit(d: nat): (c: char)
    requires d < 10
    ensures IsDigit(c)
  {
    ('0' as int + d) as char
  }

  /** The value of a string of decimal digits. */
  function ValueOf(s: string): nat
    requires AllDigits(s)
  {
    if s == [] then 0
    else ValueOf(s[..|s| - 1]) * 10 + (s[|s| - 1] as int - '0' as int)
  }

  /** `{}` of an unsigned integer: its decimal digits without leading zeros. */
  function Decimal(n: nat): (r: string)
    ensures |r| >= 1 && AllDigits(r)
  {
    if n < 10 then [Digit(n)] else Decimal(n / 10) + [Digit(n % 10)]
  }

  function Pow10(w: nat): (r: nat)
    ensures r >= 1
  {
    if w == 0 then 1 else 10 * Pow10(w - 1)
  }

  /** Reading the digits back gives the number. */
  lemma {:induction false} ValueOfDecimal(n: nat)
    ensures ValueOf(Decimal(n)) == n
  {
    if n >= 10 {
      var r := Decimal(n);
      assert r[..|r| - 1] == Decimal(n / 10);
      ValueOfDecimal(n / 10);
    }
  }

  /** A number below `10^w` takes at most `w` digits. */
  lemma {:induction false} DecimalLength(n: nat, w: nat)
    requires w >= 1 && n < Pow10(w)
    ensures |Decimal(n)| <= w
  {
    if n >= 10 {
      assert w >= 2;
      DecimalLength(n / 10, w - 1);
    }
  }

  function Zeros(k: nat): (r: string)
    ensures |r| == k && AllDigits(r)
  {
    if k == 0 then [] else Zeros(k - 1) + ['0']
  }

  /** `{:0>w}`: left-padded with zeros to at least `w` characters. */
  function PadZeros(s: string, w: nat): (r: string)
    requires AllDigits(s)
    ensures AllDigits(r)
    ensures |r| == if |s| < w then w else |s|
    ensures r[|r| - |s|..] == s
  {
    if |s| < w then Zeros(w - |s|) + s else s
  }

  /** A string of zeros is worth nothing. */
  lemma {:induction false} ValueOfZeros(k: nat)
    ensures ValueOf(Zeros(k)) == 0
  {
    if k > 0 {
      assert Zeros(k)[..k - 1] == Zeros(k - 1);
      ValueOfZeros(k - 1);
    }
  }

  /** Leading zeros do not change the value. */
  lemma {:induction false} ValueOfZerosPrefix(k: nat, s: string)
    requires AllDigits(s)
    ensures ValueOf(Zeros(k) + s) == ValueOf(s)
    decreases |s|
  {
    var t := Zeros(k) + s;
    if s == [] {
      assert t == Zeros(k);
      ValueOfZeros(k);
    } else {
      assert t[..|t| - 1] == Zeros(k) + s[..|s| - 1];
      assert t[|t| - 1] == s[|s| - 1];
      ValueOfZerosPrefix(k, s[..|s| - 1]);
    }
  }

  /** Padding keeps the value. */
  lemma {:induction false} PadZerosValue(s: string, w: nat)
    requires AllDigits(s)
    ensures ValueOf(PadZeros(s, w)) == ValueOf(s)
  {
    if |s| < w {
      assert PadZeros(s, w) == Zeros(w - |s|) + s;
      ValueOfZerosPrefix(w - |s|, s);
    } else {
      assert PadZeros(s, w) == s;
    }
  }

  /** `DurationDisplay::fmt`: `minutes:SS.mmm`; hours are not shown. */
  function Display(d: Duration): (r: string)
    requires Valid(d)
    ensures |r| == |Decimal(Minutes(d))| + 7
    ensures r[|r| - 7] == ':' && r[|r| - 4] == '.'
    ensures r[..|r| - 7] == Decimal(Minutes(d))
  {
    DecimalLength(Seconds(d), 2);
    DecimalLength(SubsecMillis(d), 3);
    Decimal(Minutes(d)) + ":" + PadZeros(Decimal(Seconds(d)), 2) + "." + PadZeros(Decimal(SubsecMillis(d)), 3)
  }

  /** The display is the minutes, a colon, exactly two digits of seconds, a dot and exactly three digits of milliseconds. */
  lemma DisplayFields(d: Duration)
    requires Valid(d)
    ensures var s := Display(d); var k := |Decimal(Minutes(d))|;
      |s| == k + 7 && s[k] == ':' && s[k + 3] == '.'
      && AllDigits(s[..k]) && AllDigits(s[k + 1..k + 3]) && AllDigits(s[k + 4..])
      && ValueOf(s[..k]) == Minutes(d)
      && ValueOf(s[k + 1..k + 3]) == Seconds(d)
      && ValueOf(s[k + 4..]) == SubsecMillis(d)
  {
    var m, sec, ms := Decimal(Minutes(d)), Decimal(Seconds(d)), Decimal(SubsecMillis(d));
    DecimalLength(Seconds(d), 2);
    DecimalLength(SubsecMillis(d), 3);
    var s2, s3 := PadZeros(sec, 2), PadZeros(ms, 3);
    var s := Display(d);
    assert s == m + ":" + s2 + "." + s3;
    var k := |m|;
    assert s[..k] == m;
    assert s[k + 1..k + 3] == s2;
    assert s[k + 4..] == s3;
    ValueOfDecimal(Minutes(d));
    ValueOfDecimal(Seconds(d));
    ValueOfDecimal(SubsecMillis(d));
    PadZerosValue(sec, 2);
    PadZerosValue(ms, 3);
  }

  /** Whole hours make no difference to the display. */
  lemma DisplayDropsHours(d: Duration)
    requires Valid(d)
    ensures Display(d) == Display(Duration(d.secs % 3600, d.nanos))
  {
    var e := Duration(d.secs % 3600, d.nanos);
    HoursMinutesSeconds(d);
    HoursMinutesSecondsUnique(e, 0, Minutes(d), Seconds(d));
  }

  /** One hour, two minutes, five seconds and 45 ms display as `2:05.045`. */
  lemma DisplayExample()
    ensures Display(FromHoursMinutesSecondsMillis(1, 2, 5, 45)) == "2:05.045"
  {
    var d := FromHoursMinutesSecondsMillis(1, 2, 5, 45);
    FromHoursMinutesSecondsMillisRoundTrip(1, 2, 5, 45);
    assert Decimal(2) == "2";
    assert Decimal(5) == "5";
    assert Zeros(1) == "0";
    assert Decimal(45) == "45";
    assert PadZeros("45", 3) == "045";
  }
}
