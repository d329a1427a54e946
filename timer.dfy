/** The `formatTime` helper of the Timer component: whole seconds of
    elapsed time rendered as `HH:MM:SS`. Elapsed time is always integral
    in the tracker, so the model works on `int`. */
module Timer {
  import opened Types
  import opened JsText

  /** `Math.floor(time / 3600)`; Dafny's `/` by a positive divisor is
      already the floor. */
  function Hours(time: int): (h: int)
    ensures h * 3600 <= time < (h + 1) * 3600
    ensures time >= 0 ==> h >= 0
  {
    time / 3600
  }

  /** `Math.floor((time % 3600) / 60)`, with JavaScript's `%`. */
  function Minutes(time: int): (m: int)
    ensures time >= 0 ==> 0 <= m <= 59
  {
    JsRemainder(time, 3600) / 60
  }

  /** `time % 60`, with JavaScript's `%`. */
  function Seconds(time: int): (s: int)
    ensures time >= 0 ==> 0 <= s <= 59
    ensures time < 0 ==> -59 <= s <= 0
  {
    JsRemainder(time, 60)
  }

  /** `n.toString().padStart(2, '0')`. */
  function TwoDigits(n: int): string {
    PadStart(IntToString(n), 2, '0')
  }

  function FormatTime(time: int): string {
    TwoDigits(Hours(time)) + ":" + TwoDigits(Minutes(time)) + ":" + TwoDigits(Seconds(time))
  }

  /** The three fields recombine to the elapsed time. */
  lemma Decomposition(time: int)
    requires time >= 0
    ensures Hours(time) * 3600 + Minutes(time) * 60 + Seconds(time) == time
  {
    var h, r := time / 3600, time % 3600;
    var m, sec := r / 60, r % 60;
    assert time == h * 3600 + r;
    assert r == m * 60 + sec;
    assert Minutes(time) == m;
    assert time == (h * 60 + m) * 60 + sec;
    assert Seconds(time) == sec;
  }

  /** Reads `HH:MM:SS` back: three digit fields separated by ':'. */
  function ParseClock(s: string): Option<int> {
    var p := Split(s, ':');
    if |p| == 3 && AllDigits(p[0]) && AllDigits(p[1]) && AllDigits(p[2])
    then Some(ParseDigits(p[0]) * 3600 + ParseDigits(p[1]) * 60 + ParseDigits(p[2]))
    else None
  }

  /** A non-negative field is printed as its digits, padded to two. */
  lemma TwoDigitsOf(n: int)
    requires n >= 0
    ensures TwoDigits(n) == PadStart(NatToString(n), 2, '0')
    ensures AllDigits(TwoDigits(n)) && ParseDigits(TwoDigits(n)) == n
    ensures |TwoDigits(n)| >= 2 && (n < 100 ==> |TwoDigits(n)| == 2)
  {
    ParseZeroPadded(NatToString(n), 2);
    ParseNatToString(n);
    if n < 100 {
      assert |NatToString(n)| <= 2 by {
        if n >= 10 { assert NatToString(n) == NatToString(n / 10) + [DigitChar(n % 10)]; }
      }
    }
  }

  /** A text that splits into the three padded fields of `time`. */
  predicate ShowsFields(text: string, time: int) {
    Split(text, ':') == [TwoDigits(Hours(time)), TwoDigits(Minutes(time)), TwoDigits(Seconds(time))]
  }

  /** Three digit fields joined by ':' split back into those fields. */
  lemma SplitClockText(h: string, m: string, s: string)
    requires AllDigits(h) && AllDigits(m) && AllDigits(s)
    ensures Split(h + ":" + m + ":" + s, ':') == [h, m, s]
  {
    DigitsHaveNoSeparator(h, ':');
    DigitsHaveNoSeparator(m, ':');
    DigitsHaveNoSeparator(s, ':');
    assert h + ":" + m + ":" + s == h + [':'] + m + [':'] + s;
    SplitThree(h, m, s, ':');
  }

  /** The display is the three padded fields joined by ':'. */
  lemma FormatTimeSplit(time: int)
    requires time >= 0
    ensures ShowsFields(FormatTime(time), time)
  {
    TwoDigitsOf(Hours(time));
    TwoDigitsOf(Minutes(time));
    TwoDigitsOf(Seconds(time));
    SplitClockText(TwoDigits(Hours(time)), TwoDigits(Minutes(time)), TwoDigits(Seconds(time)));
  }

  /** The displayed text has three ':'-separated fields: hours padded to at
      least two digits and not capped, minutes and seconds exactly two
      digits and below 60; read back, they give the fields' values. */
  lemma FormatTimeFields(time: int)
    requires time >= 0
    ensures var p := Split(FormatTime(time), ':');
      && |p| == 3
      && p[0] == PadStart(NatToString(Hours(time)), 2, '0')
      && |p[1]| == 2 && |p[2]| == 2
      && AllDigits(p[0]) && AllDigits(p[1]) && AllDigits(p[2])
      && ParseDigits(p[0]) == Hours(time)
      && ParseDigits(p[1]) == Minutes(time) < 60
      && ParseDigits(p[2]) == Seconds(time) < 60
  {
    FormatTimeSplit(time);
    FieldsOfText(FormatTime(time), time);
  }

  lemma FieldsOfText(text: string, time: int)
    requires time >= 0 && ShowsFields(text, time)
    ensures var p := Split(text, ':');
      && |p| == 3
      && p[0] == PadStart(NatToString(Hours(time)), 2, '0')
      && |p[1]| == 2 && |p[2]| == 2
      && AllDigits(p[0]) && AllDigits(p[1]) && AllDigits(p[2])
      && ParseDigits(p[0]) == Hours(time)
      && ParseDigits(p[1]) == Minutes(time) < 60
      && ParseDigits(p[2]) == Seconds(time) < 60
  {
    TwoDigitsOf(Hours(time));
    TwoDigitsOf(Minutes(time));
    TwoDigitsOf(Seconds(time));
  }

  /** Round trip: reading the display back gives the elapsed time. */
  lemma FormatTimeRoundTrip(time: int)
    requires time >= 0
    ensures ParseClock(FormatTime(time)) == Some(time)
  {
    FormatTimeSplit(time);
    ParseFieldsOfText(FormatTime(time), time);
  }

  lemma ParseFieldsOfText(text: string, time: int)
    requires time >= 0 && ShowsFields(text, time)
    ensures ParseClock(text) == Some(time)
  {
    FieldsOfText(text, time);
    Decomposition(time);
  }

  /** Hours are not capped: from 100 hours on the first field has three
      digits or more. */
  lemma HoursNotCapped(time: int)
    requires time >= 360000
    ensures |Split(FormatTime(time), ':')[0]| >= 3
  {
    FormatTimeFields(time);
    var h := Hours(time);
    assert h >= 100;
    NatToStringLength(h);
  }

  lemma {:induction false} NatToStringLength(n: nat)
    requires n >= 100
    ensures |NatToString(n)| >= 3
  {
    if n >= 1000 {
      NatToStringLength(n / 10);
    } else {
      assert NatToString(n / 10) == NatToString(n / 100) + [DigitChar((n / 10) % 10)];
    }
  }

  /** The display after a start or a stop, both of which reset the
      elapsed time to 0. */
  lemma FormatTimeZero()
    ensures FormatTime(0) == "00:00:00"
  {
    assert TwoDigits(0) == "00" by {
      assert NatToString(0) == "0";
      assert Repeat('0', 1) == "0";
    }
    assert Minutes(0) == 0 && Seconds(0) == 0 && Hours(0) == 0;
  }
}
