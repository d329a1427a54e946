/** The `formatDuration` helper of the TimeList component, for a completed
    entry: the wall-clock span from start to end rendered as `<h>h <m>m`.
    The duration in seconds is computed as an exact real, and the
    component's `Math.floor` and `%` are written out on reals. */
module TimeList {
  import opened Types
  import opened JsText

  /** `(end.getTime() - start.getTime()) / 1000`. */
  function DurationSeconds(start: int, end: int): (d: real)
    ensures d * 1000.0 == (end - start) as real
    ensures d >= 0.0 <==> start <= end
  {
    (end - start) as real / 1000.0
  }

  /** Truncation toward zero. */
  function Trunc(x: real): (t: int)
    ensures x >= 0.0 ==> t as real <= x < t as real + 1.0
    ensures x < 0.0 ==> t as real - 1.0 < x <= t as real
  {
    if x >= 0.0 then x.Floor else -((-x).Floor)
  }

  /** JavaScript's `%` on numbers: what is left of `x` after taking away
      as many whole `y` as `x / y` holds, truncated toward zero. */
  function RealRemainder(x: real, y: real): (r: real)
    requires y > 0.0
    ensures x >= 0.0 ==> 0.0 <= r < y
    ensures x < 0.0 ==> -y < r <= 0.0
  {
    var t := Trunc(x / y);
    RemainderBounds(x, y, t);
    x - y * (t as real)
  }

  /** Taking away the truncated quotient's multiples of `y` leaves less
      than one `y`, with the sign of `x`. */
  lemma RemainderBounds(x: real, y: real, t: int)
    requires y > 0.0
    requires x / y >= 0.0 ==> t as real <= x / y < t as real + 1.0
    requires x / y < 0.0 ==> t as real - 1.0 < x / y <= t as real
    ensures x >= 0.0 ==> 0.0 <= x - y * (t as real) < y
    ensures x < 0.0 ==> -y < x - y * (t as real) <= 0.0
  {
    var q := x / y;
    assert x == y * q;
    assert x >= 0.0 <==> q >= 0.0;
    Distributes(y, q, t as real);
    ScaledFractionBounds(y, q - (t as real), x - y * (t as real));
  }

  lemma Distributes(y: real, q: real, t: real)
    ensures y * (q - t) == y * q - y * t
  {
  }

  /** `r` is the fraction `f` of one `y`. */
  lemma ScaledFractionBounds(y: real, f: real, r: real)
    requires y > 0.0 && r == y * f
    ensures 0.0 <= f < 1.0 ==> 0.0 <= r < y
    ensures -1.0 < f <= 0.0 ==> -y < r <= 0.0
  {
    if 0.0 <= f < 1.0 {
      PositiveFraction(y, f, r);
    }
    if -1.0 < f <= 0.0 {
      NegativeFraction(y, f, r);
    }
  }

  lemma PositiveFraction(y: real, f: real, r: real)
    requires y > 0.0 && r == y * f && 0.0 <= f < 1.0
    ensures 0.0 <= r < y
  {
    assert 0.0 < y * (1.0 - f);
    assert y * (1.0 - f) == y - y * f;
  }

  lemma NegativeFraction(y: real, f: real, r: real)
    requires y > 0.0 && r == y * f && -1.0 < f <= 0.0
    ensures -y < r <= 0.0
  {
    assert 0.0 < y * (f + 1.0);
    assert y * (f + 1.0) == y * f + y;
  }

  /** `Math.floor(duration / 3600)`. */
  function Hours(duration: real): (h: int)
    ensures h as real * 3600.0 <= duration < (h + 1) as real * 3600.0
  {
    (duration / 3600.0).Floor
  }

  /** `Math.floor((duration % 3600) / 60)`. */
  function Minutes(duration: real): (m: int)
    ensures duration >= 0.0 ==> 0 <= m <= 59
    ensures duration < 0.0 ==> -60 <= m <= 0
  {
    (RealRemainder(duration, 3600.0) / 60.0).Floor
  }

  function FormatDuration(start: int, end: int): string {
    var duration := DurationSeconds(start, end);
    IntToString(Hours(duration)) + "h " + IntToString(Minutes(duration)) + "m"
  }

  /** Flooring an exact quotient of integers is integer division. */
  lemma FloorOfQuotient(a: int, b: int)
    requires a >= 0 && b > 0
    ensures (a as real / b as real).Floor == a / b
  {
    var q, r := a / b, a % b;
    assert a == b * q + r;
    assert a as real == b as real * q as real + r as real;
    assert a as real / b as real == q as real + r as real / b as real;
  }

  /** For a non-negative span of `ms` milliseconds: the hours are
      `ms div 3600000`, the minutes `(ms mod 3600000) div 60000`, at most
      59, and the sub-minute remainder is dropped, so the displayed time
      is below the duration by less than a minute. */
  lemma DurationParts(start: int, end: int)
    requires start <= end
    ensures var ms, d := end - start, DurationSeconds(start, end);
      && Hours(d) == ms / 3600000
      && Minutes(d) == (ms % 3600000) / 60000
      && 0 <= Minutes(d) <= 59
      && (Hours(d) * 3600 + Minutes(d) * 60) as real <= d
      && d < (Hours(d) * 3600 + Minutes(d) * 60 + 60) as real
  {
    var ms, d := end - start, DurationSeconds(start, end);
    var q, r := ms / 3600000, ms % 3600000;
    assert d / 3600.0 == ms as real / 3600000 as real;
    FloorOfQuotient(ms, 3600000);
    assert Trunc(d / 3600.0) == q;
    assert ms as real == 3600000.0 * q as real + r as real;
    assert RealRemainder(d, 3600.0) == r as real / 1000.0;
    assert RealRemainder(d, 3600.0) / 60.0 == r as real / 60000 as real;
    FloorOfQuotient(r, 60000);
    var m := r / 60000;
    assert r == 60000 * m + r % 60000;
    assert (q * 3600 + m * 60) as real * 1000.0 == (ms - r % 60000) as real;
  }

  /** Reads `<h>h <m>m` back into its two numbers. */
  function ParseDuration(s: string): Option<(int, int)> {
    var p := Split(s, ' ');
    if |p| == 2 && |p[0]| >= 1 && |p[1]| >= 1 &&
       p[0][|p[0]| - 1] == 'h' && p[1][|p[1]| - 1] == 'm' &&
       AllDigits(p[0][..|p[0]| - 1]) && AllDigits(p[1][..|p[1]| - 1])
    then Some((ParseDigits(p[0][..|p[0]| - 1]), ParseDigits(p[1][..|p[1]| - 1])))
    else None
  }

  /** The text is the two numbers without zero padding, each followed by
      its unit, and reading it back gives hours and minutes. */
  lemma FormatDurationText(start: int, end: int)
    requires start <= end
    ensures var ms := end - start;
      FormatDuration(start, end) == NatToString(ms / 3600000) + "h " + NatToString((ms % 3600000) / 60000) + "m"
    ensures var ms := end - start;
      ParseDuration(FormatDuration(start, end)) == Some((ms / 3600000, (ms % 3600000) / 60000))
  {
    var ms := end - start;
    DurationParts(start, end);
    var h, m := NatToString(ms / 3600000), NatToString((ms % 3600000) / 60000);
    assert FormatDuration(start, end) == (h + "h") + [' '] + (m + "m");
    DigitsHaveNoSeparator(h, ' ');
    DigitsHaveNoSeparator(m, ' ');
    SplitAfterField(h + "h", ' ', m + "m");
    assert Split(m + "m", ' ') == [m + "m"];
    assert (h + "h")[..|h + "h"| - 1] == h;
    assert (m + "m")[..|m + "m"| - 1] == m;
    ParseNatToString(ms / 3600000);
    ParseNatToString((ms % 3600000) / 60000);
  }
}
