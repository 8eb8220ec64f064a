/** The time normaliser applied to the four time columns: every recognised
    representation of a time becomes elapsed seconds. */
module Times {
  import opened Cells
  import opened Decimal

  const SecondsPerDay: real := 86400.0

  function ClockSeconds(hours: nat, minutes: nat, seconds: real): real
  {
    (hours * 3600 + minutes * 60) as real + seconds
  }

  /** The duration parser for strings that contain a colon, restricted to the
      clock form `H:M:S[.fraction]`: hours and minutes are digit strings, the
      seconds a digit string with an optional fractional part. */
  function ParseDuration(s: string): Option<real>
  {
    var i := IndexOf(s, ':');
    var rest := if i < |s| then s[i + 1..] else [];
    var j := IndexOf(rest, ':');
    if i == |s| || j == |rest| then
      None
    else
      var hours, minutes, seconds := s[..i], rest[..j], rest[j + 1..];
      if |hours| > 0 && AllDigits(hours) && |minutes| > 0 && AllDigits(minutes) then
        match ParseMantissa(seconds)
        case Some(sec) => Some(ClockSeconds(DigitsValue(hours), DigitsValue(minutes), sec))
        case None => None
      else
        None
  }

  /** The seconds since midnight of a time-of-day value. */
  function TimeOfDaySeconds(hour: nat, minute: nat, second: nat, microsecond: nat): real
  {
    ClockSeconds(hour, minute, second as real + microsecond as real / 1000000.0)
  }

  /** convert_time: the first matching case decides, in this order: a string
      containing ':' is a duration; a time-of-day is seconds since midnight; a
      number is a fraction of a day; anything else is left as it is. */
  function ConvertTime(c: Cell): (r: Result<Cell>)
    ensures c.Str? && ':' in c.s ==>
      r == if ParseDuration(c.s).Some? then Ok(Num(ParseDuration(c.s).value)) else Err(ValueError)
    ensures c.TimeOfDay? ==> r == Ok(Num(TimeOfDaySeconds(c.hour, c.minute, c.second, c.microsecond)))
    ensures c.Num? ==> r == Ok(Num(c.x * SecondsPerDay))
    ensures (c.Str? && ':' !in c.s) || c.Missing? || c.Other? ==> r == Ok(c)
  {
    match c
    case Str(s) =>
      if ':' in s then
        match ParseDuration(s)
        case Some(seconds) => Ok(Num(seconds))
        case None => Err(ValueError)
      else
        Ok(c)
    case TimeOfDay(h, m, sec, us) => Ok(Num(TimeOfDaySeconds(h, m, sec, us)))
    case Num(x) => Ok(Num(x * SecondsPerDay))
    case Missing => Ok(Missing)   // NaN is a number, and NaN times 86400 is NaN
    case Other => Ok(c)
  }

  // ---------------------------------------------------------------------
  // Clock strings

  /** `H:MM:SS`, followed by `.` and `k` fractional digits when k > 0. */
  function RenderClock(h: nat, m: nat, s: nat, frac: nat, k: nat): string
  {
    NatToDigits(h) + ":" + PaddedDigits(m, 2) + ":" + PaddedDigits(s, 2)
      + (if k == 0 then "" else "." + PaddedDigits(frac, k))
  }

  lemma {:induction false} SecondsFieldValue(s: nat, frac: nat, k: nat)
    requires s < 60 && frac < Pow10(k)
    ensures var field := PaddedDigits(s, 2) + (if k == 0 then "" else "." + PaddedDigits(frac, k));
      ParseMantissa(field) == Some(FixedValue(s, frac, k))
  {
    assert Pow10(2) == 100;
    PaddedDigitsValue(s, 2);
    var a := PaddedDigits(s, 2);
    if k == 0 {
      assert a + "" == a;
      IndexOfAbsent(a, '.');
      ParseMantissaWhole(a);
      FixedWhole(s);
    } else {
      PaddedDigitsValue(frac, k);
      assert a + ("." + PaddedDigits(frac, k)) == a + "." + PaddedDigits(frac, k);
      ParseMantissaFixed(a, PaddedDigits(frac, k));
    }
  }

  lemma {:induction false} SplitClock(hours: string, minutes: string, seconds: string)
    requires ':' !in hours && ':' !in minutes
    ensures var s := hours + ":" + minutes + ":" + seconds;
      var i := IndexOf(s, ':');
      i == |hours| && s[..i] == hours && s[i + 1..] == minutes + ":" + seconds
      && IndexOf(minutes + ":" + seconds, ':') == |minutes|
      && (minutes + ":" + seconds)[..|minutes|] == minutes
      && (minutes + ":" + seconds)[|minutes| + 1..] == seconds
  {
    var s := hours + ":" + minutes + ":" + seconds;
    assert s == hours + [':'] + (minutes + ":" + seconds);
    IndexOfFirst(hours, ':', minutes + ":" + seconds);
    IndexOfFirst(minutes, ':', seconds);
    assert minutes + ":" + seconds == minutes + [':'] + seconds;
  }

  /** Digit-string hours and minutes and a seconds mantissa, joined by colons,
      parse to the clock value of the three fields. */
  lemma {:induction false} ParseClockFields(hours: string, minutes: string, seconds: string, sec: real)
    requires |hours| > 0 && AllDigits(hours) && |minutes| > 0 && AllDigits(minutes)
    requires ParseMantissa(seconds) == Some(sec)
    ensures ParseDuration(hours + ":" + minutes + ":" + seconds)
         == Some(ClockSeconds(DigitsValue(hours), DigitsValue(minutes), sec))
  {
    assert ':' !in hours && ':' !in minutes by {
      assert forall i :: 0 <= i < |hours| ==> IsDigit(hours[i]);
      assert forall i :: 0 <= i < |minutes| ==> IsDigit(minutes[i]);
    }
    SplitClock(hours, minutes, seconds);
  }

  /** A clock string parses to hours * 3600 + minutes * 60 + seconds. */
  lemma {:induction false} ParseRenderClock(h: nat, m: nat, s: nat, frac: nat, k: nat)
    requires m < 60 && s < 60 && frac < Pow10(k)
    ensures ParseDuration(RenderClock(h, m, s, frac, k)) == Some(ClockSeconds(h, m, FixedValue(s, frac, k)))
  {
    assert Pow10(2) == 100;
    NatToDigitsValue(h);
    PaddedDigitsValue(m, 2);
    var hours, minutes := NatToDigits(h), PaddedDigits(m, 2);
    var seconds := PaddedDigits(s, 2) + (if k == 0 then "" else "." + PaddedDigits(frac, k));
    assert RenderClock(h, m, s, frac, k) == hours + ":" + minutes + ":" + seconds;
    SecondsFieldValue(s, frac, k);
    ParseClockFields(hours, minutes, seconds, FixedValue(s, frac, k));
  }

  /** ... so convert_time turns it into those seconds. */
  lemma {:induction false} ConvertClockString(h: nat, m: nat, s: nat, frac: nat, k: nat)
    requires m < 60 && s < 60 && frac < Pow10(k)
    ensures ConvertTime(Str(RenderClock(h, m, s, frac, k))) == Ok(Num(ClockSeconds(h, m, FixedValue(s, frac, k))))
  {
    var str := RenderClock(h, m, s, frac, k);
    NatToDigitsValue(h);
    assert str[|NatToDigits(h)|] == ':';
    ParseRenderClock(h, m, s, frac, k);
  }

  /** A string `H:MM:SS` and the time of day H:MM:SS give the same seconds. */
  lemma {:induction false} ClockStringAgreesWithTimeOfDay(h: nat, m: nat, s: nat)
    requires m < 60 && s < 60
    ensures ConvertTime(Str(RenderClock(h, m, s, 0, 0))) == ConvertTime(TimeOfDay(h, m, s, 0))
  {
    ConvertClockString(h, m, s, 0, 0);
    FixedWhole(s);
  }

  /** A valid time of day lies within one day. */
  lemma {:induction false} TimeOfDayWithinDay(hour: nat, minute: nat, second: nat, microsecond: nat)
    requires hour < 24 && minute < 60 && second < 60 && microsecond < 1000000
    ensures 0.0 <= TimeOfDaySeconds(hour, minute, second, microsecond) < SecondsPerDay
  {
    assert microsecond as real / 1000000.0 < 1.0;
    assert hour * 3600 + minute * 60 + second <= 86399;
  }

  /** A time of day and its fraction of a day convert to the same seconds. */
  lemma {:induction false} FractionOfDayAgrees(hour: nat, minute: nat, second: nat, microsecond: nat)
    ensures var seconds := TimeOfDaySeconds(hour, minute, second, microsecond);
      ConvertTime(Num(seconds / SecondsPerDay)) == ConvertTime(TimeOfDay(hour, minute, second, microsecond))
  {
  }
}
