/**
 * The milestone display of the tracker screen: a time interval in seconds is
 * truncated to a whole number, clamped at zero, split into days, hours,
 * minutes and seconds, and printed as
 * "<d> days <h> hours <m> minutes <s> seconds".
 * A reader of that text (`ParseDisplay`) shows that the printed text keeps
 * all four components, in that order.
 */
module TimeFormat {
  import opened Options
  import opened Decimal

  const SecondsPerMinute: nat := 60
  const SecondsPerHour: nat := 3600
  const SecondsPerDay: nat := 24 * 3600

  /** The four components shown on screen. */
  datatype Duration = Duration(days: nat, hours: nat, minutes: nat, seconds: nat)

  /** Components within their clock ranges; days are unbounded. */
  predicate WellFormed(d: Duration) {
    d.hours < 24 && d.minutes < 60 && d.seconds < 60
  }

  /** The number of seconds a duration stands for. */
  function TotalSeconds(d: Duration): nat {
    d.days * SecondsPerDay + d.hours * SecondsPerHour + d.minutes * SecondsPerMinute + d.seconds
  }

  /** Swift's `Int(x)` on a time interval: truncation toward zero. */
  function Truncate(x: real): (r: int)
    ensures 0.0 <= x ==> 0 <= r && r as real <= x < r as real + 1.0
    ensures x < 0.0 ==> r <= 0 && r as real - 1.0 < x <= r as real
  {
    if x >= 0.0 then x.Floor else -((-x).Floor)
  }

  /** `Int(x)` never decreases as `x` grows. */
  lemma TruncateMonotone(x: real, y: real)
    requires x <= y
    ensures Truncate(x) <= Truncate(y)
  {
  }

  /** `max(0, Int(timeRemaining))`: the whole seconds shown, never negative. */
  function Remaining(t: real): (r: nat)
    ensures r == 0 <==> t < 1.0
    ensures 0.0 <= t ==> r as real <= t < r as real + 1.0
  {
    var n := Truncate(t);
    if n < 0 then 0 else n
  }

  /** Splits whole seconds into days, hours, minutes and seconds with `/` and `%`. */
  function Decompose(remaining: nat): (d: Duration)
    ensures WellFormed(d)
    ensures TotalSeconds(d) == remaining
  {
    var days := remaining / SecondsPerDay;
    var hours := (remaining % SecondsPerDay) / SecondsPerHour;
    var minutes := (remaining % SecondsPerHour) / SecondsPerMinute;
    var seconds := remaining % SecondsPerMinute;
    var d := Duration(days, hours, minutes, seconds);
    DecomposeArithmetic(remaining);
    d
  }

  lemma DecomposeArithmetic(n: nat)
    ensures (n % SecondsPerDay) / SecondsPerHour < 24
    ensures (n % SecondsPerHour) / SecondsPerMinute < 60
    ensures n == (n / SecondsPerDay) * SecondsPerDay
               + ((n % SecondsPerDay) / SecondsPerHour) * SecondsPerHour
               + ((n % SecondsPerHour) / SecondsPerMinute) * SecondsPerMinute
               + n % SecondsPerMinute
  {
    // An hour divides a day, so taking the remainder by a day first does not change the hours' remainder.
    assert (n % SecondsPerDay) % SecondsPerHour == n % SecondsPerHour;
  }

  /** The on-screen text for a duration. */
  function Render(d: Duration): string {
    NatToString(d.days) + " days " + NatToString(d.hours) + " hours "
    + NatToString(d.minutes) + " minutes " + NatToString(d.seconds) + " seconds"
  }

  /** `formattedTime()` for a stored interval of `t` seconds. */
  function FormatInterval(t: real): string {
    Render(Decompose(Remaining(t)))
  }

  const ZeroText: string := "0 days 0 hours 0 minutes 0 seconds"

  /** Reads a numeral followed by the literal `unit`. */
  function ParseField(s: string, unit: string): Option<(nat, string)> {
    match ParseNumeral(s)
    case None => None
    case Some((n, rest)) =>
      if unit <= rest then Some((n, rest[|unit|..])) else None
  }

  /** Reads the on-screen text back into its four components. */
  function ParseDisplay(s: string): Option<Duration> {
    match ParseField(s, " days ")
    case None => None
    case Some((days, s1)) =>
      match ParseField(s1, " hours ")
      case None => None
      case Some((hours, s2)) =>
        match ParseField(s2, " minutes ")
        case None => None
        case Some((minutes, s3)) =>
          match ParseField(s3, " seconds")
          case None => None
          case Some((seconds, s4)) =>
            if s4 == [] then Some(Duration(days, hours, minutes, seconds)) else None
  }

  lemma ParseFieldOfNatToString(n: nat, unit: string, rest: string)
    requires |unit| > 0 && !IsDigit(unit[0])
    ensures ParseField(NatToString(n) + unit + rest, unit) == Some((n, rest))
  {
    assert NatToString(n) + unit + rest == NatToString(n) + (unit + rest);
    ParseNumeralOfNatToString(n, unit + rest);
    assert (unit + rest)[|unit|..] == rest;
  }

  /** The text shows all four components, in the order days, hours, minutes, seconds. */
  lemma RenderReadsBack(d: Duration)
    ensures ParseDisplay(Render(d)) == Some(d)
  {
    var r4 := NatToString(d.seconds) + " seconds";
    var r3 := NatToString(d.minutes) + " minutes " + r4;
    var r2 := NatToString(d.hours) + " hours " + r3;
    assert Render(d) == NatToString(d.days) + " days " + r2;
    ParseFieldOfNatToString(d.days, " days ", r2);
    ParseFieldOfNatToString(d.hours, " hours ", r3);
    ParseFieldOfNatToString(d.minutes, " minutes ", r4);
    ParseFieldOfNatToString(d.seconds, " seconds", []);
    assert r4 == NatToString(d.seconds) + " seconds" + [];
  }

  /** Decomposing is the inverse of counting seconds on well-formed durations. */
  lemma DecomposeOfTotal(d: Duration)
    requires WellFormed(d)
    ensures Decompose(TotalSeconds(d)) == d
  {
    // What lies below whole days is less than a day, so the day count is the quotient.
    assert d.hours * SecondsPerHour + d.minutes * SecondsPerMinute + d.seconds < SecondsPerDay;
  }

  /** The displayed text reads back as a well-formed duration worth exactly the clamped, truncated interval. */
  lemma FormatIntervalReadsBack(t: real)
    ensures var r := ParseDisplay(FormatInterval(t));
            r.Some? && WellFormed(r.value) && TotalSeconds(r.value) == Remaining(t)
  {
    RenderReadsBack(Decompose(Remaining(t)));
  }

  /** Two intervals display the same text exactly when they have the same whole seconds shown. */
  lemma FormatIntervalSameIff(t1: real, t2: real)
    ensures FormatInterval(t1) == FormatInterval(t2) <==> Remaining(t1) == Remaining(t2)
  {
    FormatIntervalReadsBack(t1);
    FormatIntervalReadsBack(t2);
  }

  /** Any interval under one second, in particular zero and every negative one, shows all zeros. */
  lemma UnderOneSecondShowsZero(t: real)
    requires t < 1.0
    ensures FormatInterval(t) == ZeroText
  {
    assert Remaining(t) == 0;
    DecomposeOfTotal(Duration(0, 0, 0, 0));
    ZeroRendersAsZeroText();
  }

  lemma ZeroRendersAsZeroText()
    ensures Render(Duration(0, 0, 0, 0)) == "0 days 0 hours 0 minutes 0 seconds"
  {
    ZeroRendersPiecewise();
  }

  lemma ZeroRendersPiecewise()
    ensures Render(Duration(0, 0, 0, 0))
         == "0" + " days " + "0" + " hours " + "0" + " minutes " + "0" + " seconds"
  {
    assert NatToString(0) == "0";
  }

  /** 90061 seconds is one day, one hour, one minute and one second. */
  lemma OneOfEachExample()
    ensures FormatInterval(90061.0) == "1 days 1 hours 1 minutes 1 seconds"
  {
    assert Remaining(90061.0) == 90061;
    assert Decompose(90061) == Duration(1, 1, 1, 1);
  }
}
