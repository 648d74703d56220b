/** FloatingTimerService: the floating window shows how long ago the timer
    started, as seconds for the first minute, then as minutes, then as hours
    and minutes, and the update runnable reposts itself after 10 s or 60 s.
    The clock is a parameter: `now` is what System.currentTimeMillis()
    returns. */
module FloatingTimer {
  import opened JavaInt
  import opened Wrappers

  const MILLIS_PER_SECOND: int := 1000
  const MILLIS_PER_MINUTE: int := 1000 * 60
  const MINUTES_PER_HOUR: int := 60

  /** The two repost delays, in milliseconds. */
  const SHORT_DELAY: int := 10000
  const LONG_DELAY: int := 60000

  const SECONDS_UNIT: string := "秒"
  const MINUTES_UNIT: string := "分钟"
  const HOURS_UNIT: string := "小时"

  /** What the text view shows, before it is turned into text. */
  datatype Reading =
    | Seconds(seconds: int)
    | Minutes(minutes: int)
    | HoursMinutes(hours: int, minutes: int)

  /** One run of the update runnable: what it shows and when it runs again. */
  datatype TimerUpdate = TimerUpdate(reading: Reading, delayMs: int)

  // ---------------------------------------------------------------------------
  // The update runnable
  // ---------------------------------------------------------------------------

  /** The repost rule, applied to `minutes` as it stands after the hours
      branch has replaced it by its remainder modulo 60. */
  function RepostDelay(minutes: int): int {
    if minutes < 1 then SHORT_DELAY else LONG_DELAY
  }

  /** updateTimerRunnable.run on an elapsed time in milliseconds. The minute
      count is a `long` quotient narrowed to `int`. */
  function UpdateTimer(elapsedTime: int64): (u: TimerUpdate)
    // Whatever the elapsed time, a displayed minute component is in 0..59
    // (1..59 without hours), and hours are at least 1.
    ensures u.reading.HoursMinutes? ==> 0 <= u.reading.minutes < 60 && u.reading.hours >= 1
    ensures u.reading.Minutes? ==> 1 <= u.reading.minutes < 60
    // The delay is 10 s exactly when the minute component that was shown is
    // below 1: during the first minute, while the time is negative, and in
    // the first minute of every whole hour; otherwise it is 60 s.
    ensures u.delayMs == SHORT_DELAY <==> u.reading.Seconds? || (u.reading.HoursMinutes? && u.reading.minutes == 0)
    ensures u.delayMs == SHORT_DELAY || u.delayMs == LONG_DELAY
  {
    var minutes := ToInt32(Div(elapsedTime, MILLIS_PER_MINUTE));
    if minutes >= MINUTES_PER_HOUR then
      var hours := Div(minutes, MINUTES_PER_HOUR);
      var minutes' := Rem(minutes, MINUTES_PER_HOUR);
      TimerUpdate(HoursMinutes(hours, minutes'), RepostDelay(minutes'))
    else if minutes < 1 then
      TimerUpdate(Seconds(Div(elapsedTime, MILLIS_PER_SECOND)), RepostDelay(minutes))
    else
      TimerUpdate(Minutes(minutes), RepostDelay(minutes))
  }

  // ---------------------------------------------------------------------------
  // Text
  // ---------------------------------------------------------------------------

  predicate IsDigit(c: char) { '0' <= c <= '9' }

  predicate AllDigits(s: string) { forall i | 0 <= i < |s| :: IsDigit(s[i]) }

  function DigitChar(d: nat): (c: char)
    requires d < 10
    ensures IsDigit(c) && c as int - '0' as int == d
  {
    (d + '0' as int) as char
  }

  /** The decimal digits of n, most significant first, without leading zeros. */
  function NatString(n: nat): (s: string)
    ensures |s| >= 1 && AllDigits(s)
    decreases n
  {
    if n < 10 then [DigitChar(n)] else NatString(n / 10) + [DigitChar(n % 10)]
  }

  /** Java's decimal rendering of an int or a long in string concatenation. */
  function DecimalString(n: int): string {
    if n < 0 then "-" + NatString(-n) else NatString(n)
  }

  /** The text setText receives. */
  function Render(r: Reading): (t: string)
    ensures |t| >= 2
    ensures r.Seconds? <==> t[|t| - 1..] == SECONDS_UNIT
    ensures !r.Seconds? <==> t[|t| - 2..] == MINUTES_UNIT
    ensures r.HoursMinutes? <==> HOURS_UNIT[0] in t
  {
    match r
    case Seconds(s) =>
      DecimalHasNoUnit(s, HOURS_UNIT[0]);
      var t := DecimalString(s) + SECONDS_UNIT;
      assert |t| >= 2 && t[|t| - 2..][1] == SECONDS_UNIT[0];
      t
    case Minutes(m) =>
      DecimalHasNoUnit(m, HOURS_UNIT[0]);
      var t := DecimalString(m) + MINUTES_UNIT;
      assert t[|t| - 1..][0] == MINUTES_UNIT[1];
      t
    case HoursMinutes(h, m) =>
      DecimalString(h) + HOURS_UNIT + DecimalString(m) + MINUTES_UNIT
  }

  /** The text the floating window shows `elapsedTime` ms after the start. */
  function TimerText(elapsedTime: int64): string {
    Render(UpdateTimer(elapsedTime).reading)
  }

  // ---------------------------------------------------------------------------
  // Reading the text back
  // ---------------------------------------------------------------------------

  function ParseNat(s: string): nat
    requires AllDigits(s)
    decreases |s|
  {
    if s == [] then 0
    else
      assert IsDigit(s[|s| - 1]) && AllDigits(s[..|s| - 1]);
      ParseNat(s[..|s| - 1]) * 10 + (s[|s| - 1] as int - '0' as int)
  }

  /** An optional minus sign followed by at least one digit. */
  predicate IsDecimal(s: string) {
    if |s| > 0 && s[0] == '-' then |s| > 1 && AllDigits(s[1..]) else |s| > 0 && AllDigits(s)
  }

  function ParseDecimal(s: string): int
    requires IsDecimal(s)
  {
    if s[0] == '-' then -(ParseNat(s[1..]) as int) else ParseNat(s)
  }

  /** The first position of c in s, or |s| when there is none. */
  function Find(s: string, c: char): (k: nat)
    ensures k <= |s| && (k < |s| ==> s[k] == c) && forall i | 0 <= i < k :: s[i] != c
    decreases |s|
  {
    if s == [] then 0 else if s[0] == c then 0 else 1 + Find(s[1..], c)
  }

  /** The reading a text shows, if it is one the window can show. */
  function Decode(t: string): Option<Reading> {
    var n := |t|;
    if n >= 1 && t[n - 1..] == SECONDS_UNIT && IsDecimal(t[..n - 1]) then
      Some(Seconds(ParseDecimal(t[..n - 1])))
    else if n >= 2 && t[n - 2..] == MINUTES_UNIT then
      DecodeMinuteText(t[..n - 2])
    else
      None
  }

  /** The reading of a text that ends in the minutes unit, from what precedes
      the unit: hours and minutes when it holds the hours unit, else minutes. */
  function DecodeMinuteText(body: string): Option<Reading> {
    var k := Find(body, HOURS_UNIT[0]);
    if k + 2 <= |body| && body[k..k + 2] == HOURS_UNIT && IsDecimal(body[..k]) && IsDecimal(body[k + 2..]) then
      Some(HoursMinutes(ParseDecimal(body[..k]), ParseDecimal(body[k + 2..])))
    else if IsDecimal(body) then
      Some(Minutes(ParseDecimal(body)))
    else
      None
  }

  // ---------------------------------------------------------------------------
  // Lemmas
  // ---------------------------------------------------------------------------

  lemma {:induction false} NatStringRoundTrip(n: nat)
    ensures ParseNat(NatString(n)) == n
    decreases n
  {
    if n >= 10 {
      var s := NatString(n / 10) + [DigitChar(n % 10)];
      assert s[..|s| - 1] == NatString(n / 10);
      NatStringRoundTrip(n / 10);
    }
  }

  /** Decimal text determines the number it renders. */
  lemma DecimalRoundTrip(n: int)
    ensures IsDecimal(DecimalString(n)) && ParseDecimal(DecimalString(n)) == n
  {
    if n < 0 {
      NatStringRoundTrip(-n);
      assert DecimalString(n)[1..] == NatString(-n);
    } else {
      NatStringRoundTrip(n);
    }
  }

  /** Decimal text holds no character of the unit words. */
  lemma DecimalHasNoUnit(n: int, c: char)
    requires !IsDigit(c) && c != '-'
    ensures Find(DecimalString(n), c) == |DecimalString(n)|
  {
    var s := DecimalString(n);
    if Find(s, c) < |s| {
      assert false;
    }
  }

  /** Different readings are shown as different texts: Decode reads every
      displayed text back. */
  lemma DecodeRender(r: Reading)
    ensures Decode(Render(r)) == Some(r)
  {
    match r
    case Seconds(s) => DecodeSeconds(s);
    case Minutes(m) => DecodeMinutes(m);
    case HoursMinutes(h, m) => DecodeHoursMinutes(h, m);
  }

  lemma DecodeSeconds(s: int)
    ensures Decode(Render(Seconds(s))) == Some(Seconds(s))
  {
    var d := DecimalString(s);
    DecimalRoundTrip(s);
    var t := d + SECONDS_UNIT;
    assert t[..|t| - 1] == d && t[|t| - 1..] == SECONDS_UNIT;
  }

  lemma DecodeMinutes(m: int)
    ensures Decode(Render(Minutes(m))) == Some(Minutes(m))
  {
    var d := DecimalString(m);
    DecimalRoundTrip(m);
    MinuteSuffix(d);
    DecimalHasNoUnit(m, HOURS_UNIT[0]);
  }

  lemma DecodeHoursMinutes(h: int, m: int)
    ensures Decode(Render(HoursMinutes(h, m))) == Some(HoursMinutes(h, m))
  {
    var dh, dm := DecimalString(h), DecimalString(m);
    var body := dh + HOURS_UNIT + dm;
    assert Render(HoursMinutes(h, m)) == body + MINUTES_UNIT;
    MinuteSuffix(body);
    DecimalRoundTrip(h);
    DecimalRoundTrip(m);
    DecimalHasNoUnit(h, HOURS_UNIT[0]);
    HoursText(dh, dm);
  }

  /** What precedes the minutes unit splits at the first hours unit. */
  lemma HoursText(dh: string, dm: string)
    requires IsDecimal(dh) && IsDecimal(dm) && Find(dh, HOURS_UNIT[0]) == |dh|
    ensures DecodeMinuteText(dh + HOURS_UNIT + dm) == Some(HoursMinutes(ParseDecimal(dh), ParseDecimal(dm)))
  {
    var body := dh + HOURS_UNIT + dm;
    assert Find(body, HOURS_UNIT[0]) == |dh| by {
      FindAfterPrefix(dh, HOURS_UNIT + dm, HOURS_UNIT[0]);
      assert body == dh + (HOURS_UNIT + dm);
    }
    assert body[..|dh|] == dh && body[|dh|..|dh| + 2] == HOURS_UNIT && body[|dh| + 2..] == dm;
  }

  /** A text ending in the minutes unit is read from what precedes the unit. */
  lemma MinuteSuffix(body: string)
    ensures Decode(body + MINUTES_UNIT) == DecodeMinuteText(body)
  {
    var t := body + MINUTES_UNIT;
    assert t[..|t| - 2] == body && t[|t| - 2..] == MINUTES_UNIT;
    assert t[|t| - 1..] != SECONDS_UNIT by {
      assert t[|t| - 1] == MINUTES_UNIT[1] != SECONDS_UNIT[0];
    }
  }

  /** Find skips a prefix that does not contain the character. */
  lemma {:induction false} FindAfterPrefix(p: string, s: string, c: char)
    requires Find(p, c) == |p| && |s| > 0 && s[0] == c
    ensures Find(p + s, c) == |p|
    decreases |p|
  {
    if p == [] {
      assert p + s == s;
    } else {
      assert (p + s)[1..] == p[1..] + s;
      assert Find(p[1..], c) == |p| - 1;
      FindAfterPrefix(p[1..], s, c);
    }
  }

  /** The branches, for elapsed times whose minute count fits in an `int`
      (about 4000 years either way): under a minute, including negative
      times, the seconds are the quotient by 1000 rounded toward zero, in
      -59..59; from one minute to an hour, the minutes, in 1..59; from an
      hour on, the hours and the remaining minutes, the latter in 0..59. */
  lemma Readings(elapsedTime: int64)
    requires -(INT_MAX + 1) * MILLIS_PER_MINUTE < elapsedTime < (INT_MAX + 1) * MILLIS_PER_MINUTE
    ensures var r := UpdateTimer(elapsedTime).reading;
            var minutes := Div(elapsedTime, MILLIS_PER_MINUTE);
            (elapsedTime < MILLIS_PER_MINUTE ==>
               r == Seconds(Div(elapsedTime, MILLIS_PER_SECOND)) &&
               (elapsedTime >= 0 ==> 0 <= r.seconds < 60) &&
               (elapsedTime > -MILLIS_PER_MINUTE ==> -60 < r.seconds < 60)) &&
            (MILLIS_PER_MINUTE <= elapsedTime < MINUTES_PER_HOUR * MILLIS_PER_MINUTE ==>
               r == Minutes(elapsedTime / MILLIS_PER_MINUTE) && 1 <= r.minutes < 60) &&
            (elapsedTime >= MINUTES_PER_HOUR * MILLIS_PER_MINUTE ==>
               r == HoursMinutes(minutes / MINUTES_PER_HOUR, minutes % MINUTES_PER_HOUR) &&
               r.hours >= 1 && 0 <= r.minutes < 60)
  {
    var minutes := Div(elapsedTime, MILLIS_PER_MINUTE);
    assert -(INT_MAX + 1) <= minutes <= INT_MAX;
    if elapsedTime < MILLIS_PER_MINUTE {
      assert minutes < 1;
    } else if elapsedTime < MINUTES_PER_HOUR * MILLIS_PER_MINUTE {
      assert 1 <= minutes < 60;
    } else {
      assert minutes >= 60;
    }
  }

  /** The text of each branch, as `setText` receives it. */
  lemma TimerTexts(elapsedTime: int64)
    requires -(INT_MAX + 1) * MILLIS_PER_MINUTE < elapsedTime < (INT_MAX + 1) * MILLIS_PER_MINUTE
    ensures var t, minutes := TimerText(elapsedTime), elapsedTime / MILLIS_PER_MINUTE;
            (elapsedTime < MILLIS_PER_MINUTE ==>
               t == DecimalString(Div(elapsedTime, MILLIS_PER_SECOND)) + SECONDS_UNIT) &&
            (MILLIS_PER_MINUTE <= elapsedTime < MINUTES_PER_HOUR * MILLIS_PER_MINUTE ==>
               t == DecimalString(minutes) + MINUTES_UNIT) &&
            (elapsedTime >= MINUTES_PER_HOUR * MILLIS_PER_MINUTE ==>
               t == DecimalString(minutes / MINUTES_PER_HOUR) + HOURS_UNIT +
                    DecimalString(minutes % MINUTES_PER_HOUR) + MINUTES_UNIT)
  {
    Readings(elapsedTime);
    if elapsedTime >= 0 {
      assert Div(elapsedTime, MILLIS_PER_MINUTE) == elapsedTime / MILLIS_PER_MINUTE;
    }
  }

  /** For a non-negative elapsed time in range: the delay is 10 s exactly
      during the first minute and during the first minute of each whole
      hour. */
  lemma WholeHourDelay(elapsedTime: int64)
    requires 0 <= elapsedTime < (INT_MAX + 1) * MILLIS_PER_MINUTE
    ensures var minutes := elapsedTime / MILLIS_PER_MINUTE;
            UpdateTimer(elapsedTime).delayMs == SHORT_DELAY <==>
              minutes == 0 || (minutes >= MINUTES_PER_HOUR && minutes % MINUTES_PER_HOUR == 0)
  {
    Readings(elapsedTime);
  }

  // ---------------------------------------------------------------------------
  // The service
  // ---------------------------------------------------------------------------

  /** The fields of the service that the timer touches: the start time, the
      text of the timer view, and the delay of the one pending repost. */
  class FloatingTimerService {
    var startTime: int64
    var timerText: string
    var pendingDelay: Option<int>

    constructor ()
      ensures startTime == 0 && timerText == "" && pendingDelay == None
    {
      startTime := 0;
      timerText := "";
      pendingDelay := None;
    }

    /** startTimer: the timer counts from `now`; the runnable is posted to run
        at once. */
    method StartTimer(now: int64)
      modifies this
      ensures startTime == now && pendingDelay == Some(0) && timerText == old(timerText)
    {
      startTime := now;
      pendingDelay := Some(0);
    }

    /** One run of updateTimerRunnable at time `now`. */
    method Run(now: int64)
      modifies this
      ensures startTime == old(startTime)
      ensures var u := UpdateTimer(ToInt64(now - old(startTime)));
              timerText == Render(u.reading) && pendingDelay == Some(u.delayMs)
    {
      var elapsedTime := ToInt64(now - startTime);
      var u := UpdateTimer(elapsedTime);
      timerText := Render(u.reading);
      pendingDelay := Some(u.delayMs);
    }
  }
}
