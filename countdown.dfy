/**
 * The event countdown of NUV_Yuva.js: each tick splits the milliseconds left
 * until the event into days, hours, minutes and seconds, each shown through
 * `pad` (at least two decimal digits, zero-filled).
 */
module Countdown {
  import opened Arith

  /** What a tick leaves on the page. */
  datatype Display =
    | Started
    | Remaining(days: nat, hours: nat, minutes: nat, seconds: nat)

  const SecondsPerDay: nat := 3600 * 24

  /**
   * One `tick` at time `now` (milliseconds since the epoch) for an event at
   * `eventTs`: once no time is left the countdown is replaced by the
   * "started" banner; otherwise the whole seconds left are split into fields.
   */
  function Tick(eventTs: int, now: int): (d: Display)
    ensures d.Started? <==> eventTs <= now
    ensures d.Remaining? ==>
              && d.hours < 24 && d.minutes < 60 && d.seconds < 60
              && d.days * 86400 + d.hours * 3600 + d.minutes * 60 + d.seconds == (eventTs - now) / 1000
  {
    var diff := if eventTs - now > 0 then eventTs - now else 0;
    if diff <= 0 then Started
    else
      var sec := diff / 1000;
      SplitSeconds(sec);
      Remaining(sec / SecondsPerDay, (sec % SecondsPerDay) / 3600, (sec % 3600) / 60, sec % 60)
  }

  /** The four fields re-assemble the seconds they were taken from. */
  lemma SplitSeconds(sec: nat)
    ensures (sec % SecondsPerDay) / 3600 < 24 && (sec % 3600) / 60 < 60 && sec % 60 < 60
    ensures (sec / SecondsPerDay) * 86400 + ((sec % SecondsPerDay) / 3600) * 3600
            + ((sec % 3600) / 60) * 60 + sec % 60 == sec
  {
    var days, inDay := sec / SecondsPerDay, sec % SecondsPerDay;
    var hours, inHour := inDay / 3600, inDay % 3600;
    assert sec == days * 86400 + inDay;
    assert inDay == hours * 3600 + inHour;
    DivModUnique(inDay, hours, inHour, 3600);
    assert sec == (days * 24 + hours) * 3600 + inHour;
    DivModUnique(sec, days * 24 + hours, inHour, 3600);
    var minutes, seconds := inHour / 60, inHour % 60;
    assert inHour == minutes * 60 + seconds;
    DivModUnique(inHour, minutes, seconds, 60);
    assert sec == ((days * 24 + hours) * 60 + minutes) * 60 + seconds;
    DivModUnique(sec, (days * 24 + hours) * 60 + minutes, seconds, 60);
  }

  /** The seconds a display stands for. */
  function TotalSeconds(d: Display): nat
  {
    match d
    case Started => 0
    case Remaining(days, hours, minutes, seconds) => days * 86400 + hours * 3600 + minutes * 60 + seconds
  }

  /** As time passes the countdown never goes up, and it stays started once started. */
  lemma TickMonotone(eventTs: int, now1: int, now2: int)
    requires now1 <= now2
    ensures TotalSeconds(Tick(eventTs, now2)) <= TotalSeconds(Tick(eventTs, now1))
    ensures Tick(eventTs, now1).Started? ==> Tick(eventTs, now2).Started?
  {
    var d1, d2 := Tick(eventTs, now1), Tick(eventTs, now2);
    if d2.Remaining? {
      DivMonotone(eventTs - now2, eventTs - now1, 1000);
    }
  }

  lemma DivMonotone(a: int, b: int, k: int)
    requires 0 <= a <= b && k > 0
    ensures a / k <= b / k
  {
    var qa, qb := a / k, b / k;
    assert a == qa * k + a % k && b == qb * k + b % k;
    assert b - a == (qb - qa) * k + (b % k - a % k);
    NotBelowMinusOne(qb - qa, k);
  }

  lemma NotBelowMinusOne(d: int, k: int)
    requires k > 0 && d * k > -k
    ensures d >= 0
  {
  }

  /** Every character is a decimal digit. */
  predicate IsDecimal(s: string)
  {
    forall k :: 0 <= k < |s| ==> '0' <= s[k] <= '9'
  }

  /** Decimal digits of n, most significant first, as `String(n)` writes a non-negative integer. */
  function Digits(n: nat): (s: string)
    ensures |s| >= 1
    ensures n < 100 ==> |s| <= 2
    ensures IsDecimal(s)
    decreases n
  {
    if n < 10 then [DigitChar(n)] else Digits(n / 10) + [DigitChar(n % 10)]
  }

  function DigitChar(d: nat): (c: char)
    requires d < 10
    ensures '0' <= c <= '9' && c as int - '0' as int == d
  {
    ('0' as int + d) as char
  }

  /** `pad(n)`: `String(n).padStart(2, '0')`. */
  function Pad(n: nat): (s: string)
    ensures |s| >= 2
    ensures n < 100 ==> |s| == 2
    ensures IsDecimal(s)
  {
    var d := Digits(n);
    if |d| < 2 then "0" + d else d
  }

  /** The value of a string of decimal digits, leading zeros allowed. */
  function Value(s: string): nat
    requires IsDecimal(s)
  {
    if s == [] then 0 else Value(s[..|s| - 1]) * 10 + (s[|s| - 1] as int - '0' as int)
  }

  /** Reading the digits back gives the number. */
  lemma {:induction false} DigitsRoundTrip(n: nat)
    ensures Value(Digits(n)) == n
    decreases n
  {
    if n >= 10 {
      DigitsRoundTrip(n / 10);
      var s := Digits(n);
      assert s[..|s| - 1] == Digits(n / 10);
    }
  }

  /** Leading zeros do not change the value. */
  lemma {:induction false} LeadingZero(s: string)
    requires IsDecimal(s)
    ensures Value("0" + s) == Value(s)
    decreases |s|
  {
    if s != [] {
      LeadingZero(s[..|s| - 1]);
      assert ("0" + s)[..|s|] == "0" + s[..|s| - 1];
    }
  }

  /** Round trip of `pad`: the padded field reads back as the number shown. */
  lemma PadRoundTrip(n: nat)
    ensures Value(Pad(n)) == n
  {
    DigitsRoundTrip(n);
    LeadingZero(Digits(n));
  }

  /** Only numbers below 10 get a padding zero. */
  lemma PadZeroFilled(n: nat)
    ensures Pad(n)[0] == '0' <==> n < 10
  {
    if n >= 10 {
      DigitsLeading(n);
    }
  }

  /** The first digit of a number of two or more digits is not zero. */
  lemma {:induction false} DigitsLeading(n: nat)
    requires n >= 10
    ensures |Digits(n)| >= 2 && Digits(n)[0] != '0'
    decreases n
  {
    if n / 10 >= 10 {
      DigitsLeading(n / 10);
    }
  }

  /** What the four countdown fields read, or nothing once the event started. */
  function Fields(d: Display): (f: seq<string>)
    ensures d.Started? <==> f == []
    ensures d.Remaining? ==> |f| == 4 && (forall j :: 0 <= j < 4 ==> IsDecimal(f[j])) && Value(f[0]) == d.days && Value(f[1]) == d.hours
                             && Value(f[2]) == d.minutes && Value(f[3]) == d.seconds
    ensures d.Remaining? && d.hours < 24 && d.minutes < 60 && d.seconds < 60 ==>
              |f[1]| == 2 && |f[2]| == 2 && |f[3]| == 2
  {
    match d
    case Started => []
    case Remaining(days, hours, minutes, seconds) =>
      PadRoundTrip(days);
      PadRoundTrip(hours);
      PadRoundTrip(minutes);
      PadRoundTrip(seconds);
      [Pad(days), Pad(hours), Pad(minutes), Pad(seconds)]
  }
}
