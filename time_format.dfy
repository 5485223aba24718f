/** `format_time`: the remaining-time label of the progress display, on a
    whole number of seconds. */
module TimeFormat {
  import opened Text

  const Seconds := "秒"
  const Minutes := "分"
  const Hours := "小时"

  /** `format_time(seconds)`: seconds below a minute, minutes and seconds
      below an hour, hours and minutes from an hour on. */
  function FormatTime(seconds: int): (r: string)
    ensures seconds < 60 ==> r == IntToDecimal(seconds) + Seconds
    ensures 60 <= seconds < 3600 ==>
      exists m: nat, s: nat :: 1 <= m < 60 && s < 60 && m * 60 + s == seconds
                               && r == NatToDecimal(m) + Minutes + NatToDecimal(s) + Seconds
    ensures 3600 <= seconds ==>
      exists h: nat, m: nat :: 1 <= h && m < 60 && h * 3600 + m * 60 <= seconds < h * 3600 + m * 60 + 60
                               && r == NatToDecimal(h) + Hours + NatToDecimal(m) + Minutes
  {
    if seconds < 60 then
      IntToDecimal(seconds) + Seconds
    else if seconds < 3600 then
      var m, s := seconds / 60, seconds % 60;
      NatToDecimal(m) + Minutes + NatToDecimal(s) + Seconds
    else
      var h, m := seconds / 3600, (seconds % 3600) / 60;
      assert h * 3600 + m * 60 <= seconds < h * 3600 + m * 60 + 60 by {
        assert h * 3600 + seconds % 3600 == seconds;
        assert m * 60 + (seconds % 3600) % 60 == seconds % 3600;
      }
      NatToDecimal(h) + Hours + NatToDecimal(m) + Minutes
  }

  /** A numeral followed by a non-digit is recovered from the front of the
      text: two such prefixes of the same text are the same numeral. */
  lemma NumeralPrefix(a: string, b: string, x: char, y: char, s: string, t: string)
    requires AllDigits(a) && AllDigits(b) && !IsDigit(x) && !IsDigit(y)
    requires a + [x] + s == b + [y] + t
    ensures a == b && x == y && s == t
  {
    FirstNonDigit(a, x, s);
    FirstNonDigit(b, y, t);
    var u := a + [x] + s;
    assert !IsDigit(u[|a|]) && !IsDigit(u[|b|]);
    assert |a| == |b|;
    assert a == u[..|a|] == b;
    assert x == u[|a|] == y;
    assert s == u[|a| + 1..] == t;
  }

  /** In a numeral followed by a non-digit, the first non-digit is right after
      the numeral. */
  lemma FirstNonDigit(a: string, x: char, s: string)
    requires AllDigits(a) && !IsDigit(x)
    ensures forall k :: 0 <= k <= |a| ==> (IsDigit((a + [x] + s)[k]) <==> k < |a|)
  {
  }

  /** Below an hour no two durations share a label. */
  lemma FormatTimeInjectiveBelowHour(u: nat, v: nat)
    requires u < 3600 && v < 3600 && FormatTime(u) == FormatTime(v)
    ensures u == v
  {
    if u < 60 && v < 60 {
      NumeralPrefix(NatToDecimal(u), NatToDecimal(v), Seconds[0], Seconds[0], [], []);
      DecimalRoundTrip(u);
      DecimalRoundTrip(v);
    } else if 60 <= u && 60 <= v {
      var mu, su, mv, sv := u / 60, u % 60, v / 60, v % 60;
      var w := NatToDecimal(su) + Seconds;
      var z := NatToDecimal(sv) + Seconds;
      assert FormatTime(u) == NatToDecimal(mu) + [Minutes[0]] + w;
      assert FormatTime(v) == NatToDecimal(mv) + [Minutes[0]] + z;
      NumeralPrefix(NatToDecimal(mu), NatToDecimal(mv), Minutes[0], Minutes[0], w, z);
      NumeralPrefix(NatToDecimal(su), NatToDecimal(sv), Seconds[0], Seconds[0], [], []);
      DecimalRoundTrip(mu);
      DecimalRoundTrip(mv);
      DecimalRoundTrip(su);
      DecimalRoundTrip(sv);
    } else if u < 60 {
      FormatTimeHasMinutes(v);
      NumeralPrefix(NatToDecimal(u), NatToDecimal(v / 60), Seconds[0], Minutes[0], [],
                    NatToDecimal(v % 60) + Seconds);
    } else {
      FormatTimeHasMinutes(u);
      NumeralPrefix(NatToDecimal(v), NatToDecimal(u / 60), Seconds[0], Minutes[0], [],
                    NatToDecimal(u % 60) + Seconds);
    }
  }

  lemma FormatTimeHasMinutes(v: nat)
    requires 60 <= v < 3600
    ensures FormatTime(v) == NatToDecimal(v / 60) + [Minutes[0]] + (NatToDecimal(v % 60) + Seconds)
  {
  }

  /** From an hour on the seconds are dropped: an hour and an hour plus 59
      seconds share the label "1小时0分". */
  lemma SecondsDroppedFromAnHour()
    ensures FormatTime(3600) == FormatTime(3659) == "1小时0分"
  {
  }
}
