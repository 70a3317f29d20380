/** The progress figures a timer card shows: how much of a countdown has elapsed, and how close an
    alarm is within the next twelve hours. Arithmetic is exact: the browser's floating-point
    division is replaced by division on reals, and the current minute of the day is a parameter. */
module AdaptiveTimer {

  import opened Wrappers
  import opened JsText
  import opened Tasks

  /** A JavaScript number as these helpers can produce it: NaN or an exact real. */
  datatype Percent = NotANumber | Percent(value: real)

  /** `Math.max(0, Math.min(100, x))`. */
  function ClampPercent(x: real): (r: real)
    ensures 0.0 <= r <= 100.0
    ensures 0.0 <= x <= 100.0 ==> r == x
  {
    if x < 0.0 then 0.0 else if x > 100.0 then 100.0 else x
  }

  /** `text.split(":").map(Number)` destructured into `[a, b]` and combined as `a * 60 + b`; a
      missing piece is `undefined`, which makes the total NaN like a piece `Number` cannot read. */
  function TotalOf(text: string): Num {
    var parts := Split(text, ':');
    match (JsNumber(parts[0]), if |parts| > 1 then JsNumber(parts[1]) else NaN)
    case (Int(a), Int(b)) => Int(a * 60 + b)
    case _ => NaN
  }

  /** A clock text's total is its minutes times sixty plus its seconds. */
  lemma TotalOfClockText(m: int, s: int)
    ensures TotalOf(ClockText(m, s)) == Int(m * 60 + s)
  {
    Pad2NoColon(m);
    Pad2NoColon(s);
    assert ClockText(m, s) == Pad2(m) + [':'] + Pad2(s);
    SplitPair(Pad2(m), Pad2(s), ':');
    NumberOfPad2(m);
    NumberOfPad2(s);
  }

  /** The countdown's elapsed share, from the remaining and the configured second counts. */
  function TimerPercent(current: int, original: int): real {
    if original == 0 then 100.0
    else ClampPercent(((original - current) as real / original as real) * 100.0)
  }

  /** `calculateProgress(currentTime, originalTime)`: 100 for a zero configured duration, NaN when
      either text does not read as a total, otherwise the clamped elapsed share. */
  function CalculateProgress(currentTime: string, originalTime: string): (r: Percent)
    ensures r.Percent? ==> 0.0 <= r.value <= 100.0
    ensures TotalOf(originalTime) == Int(0) ==> r == Percent(100.0)
  {
    var c, o := TotalOf(currentTime), TotalOf(originalTime);
    if o == Int(0) then Percent(100.0)
    else if o.NaN? || c.NaN? then NotANumber
    else Percent(TimerPercent(c.value, o.value))
  }

  /** On clock texts the progress is the elapsed share of the configured seconds. */
  lemma ProgressOfClockTexts(m: int, s: int, om: int, os: int)
    ensures CalculateProgress(ClockText(m, s), ClockText(om, os)) == Percent(TimerPercent(m * 60 + s, om * 60 + os))
  {
    TotalOfClockText(m, s);
    TotalOfClockText(om, os);
    ProgressOfTotals(ClockText(m, s), ClockText(om, os), m * 60 + s, om * 60 + os);
  }

  /** Two texts that read as totals give the elapsed share of those totals. */
  lemma ProgressOfTotals(currentTime: string, originalTime: string, c: int, o: int)
    requires TotalOf(currentTime) == Int(c) && TotalOf(originalTime) == Int(o)
    ensures CalculateProgress(currentTime, originalTime) == Percent(TimerPercent(c, o))
  {
  }

  /** Nothing has elapsed at the start, everything at zero. */
  lemma TimerPercentEnds(original: int)
    requires original > 0
    ensures TimerPercent(original, original) == 0.0
    ensures TimerPercent(0, original) == 100.0
  {
    assert (original - 0) as real / original as real == 1.0;
  }

  /** Less time remaining never shows less progress. */
  lemma TimerPercentMonotone(c1: int, c2: int, original: int)
    requires original > 0 && c1 <= c2
    ensures TimerPercent(c1, original) >= TimerPercent(c2, original)
  {
    var x1 := (original - c1) as real / original as real;
    var x2 := (original - c2) as real / original as real;
    DivMonotone((original - c2) as real, (original - c1) as real, original as real);
    assert x1 * 100.0 >= x2 * 100.0;
  }

  lemma DivMonotone(a: real, b: real, d: real)
    requires d > 0.0 && a <= b
    ensures a / d <= b / d
  {
  }

  // ---------------------------------------------------------------- alarms

  /** Minutes in a day and the twelve-hour horizon of the alarm figure. */
  const DayMinutes: int := 24 * 60
  const Horizon: int := 12 * 60

  /** `timeUntilAlarm`: the alarm's minute of the day minus the current one, plus a day once when
      negative. */
  function MinutesUntil(alarm: int, now: int): int {
    var d := alarm - now;
    if d < 0 then d + DayMinutes else d
  }

  /** For an alarm and a current time both inside the day, the wait is less than a day. */
  lemma MinutesUntilInDay(alarm: int, now: int)
    requires 0 <= alarm < DayMinutes && 0 <= now < DayMinutes
    ensures 0 <= MinutesUntil(alarm, now) < DayMinutes
    ensures MinutesUntil(alarm, now) == (alarm - now) % DayMinutes
  {
  }

  /** The figure for a wait of `until` minutes. */
  function AlarmPercent(until: int): real {
    ClampPercent(((Horizon - until) as real / Horizon as real) * 100.0)
  }

  /** `calculateAlarmProgress()` at minute `now` of the local day: 0 without an alarm time, NaN
      when the alarm time does not read as a total, otherwise the clamped closeness. */
  function CalculateAlarmProgress(alarmTime: Option<string>, now: int): (r: Percent)
    ensures r.Percent? ==> 0.0 <= r.value <= 100.0
    ensures alarmTime.None? || alarmTime == Some("") ==> r == Percent(0.0)
  {
    match alarmTime
    case None => Percent(0.0)
    case Some(text) =>
      if text == "" then Percent(0.0)
      else match TotalOf(text)
        case NaN => NotANumber
        case Int(alarm) => Percent(AlarmPercent(MinutesUntil(alarm, now)))
  }

  /** An alarm at the current minute is at 100, one twelve or more hours away is at 0, and the
      figure grows as the alarm gets nearer. */
  lemma AlarmPercentShape(until: int, later: int)
    ensures AlarmPercent(0) == 100.0
    ensures until >= Horizon ==> AlarmPercent(until) == 0.0
    ensures 0 <= until <= later ==> AlarmPercent(until) >= AlarmPercent(later)
  {
    if until >= Horizon {
      DivMonotone((Horizon - until) as real, 0.0, Horizon as real);
    }
    if 0 <= until <= later {
      DivMonotone((Horizon - later) as real, (Horizon - until) as real, Horizon as real);
    }
  }

  /** On an `HH:MM` alarm time the figure depends only on the wait from `now`. */
  lemma AlarmProgressOfClockText(h: int, m: int, now: int)
    ensures CalculateAlarmProgress(Some(ClockText(h, m)), now) == Percent(AlarmPercent(MinutesUntil(h * 60 + m, now)))
  {
    TotalOfClockText(h, m);
    assert |ClockText(h, m)| > 0;
  }
}
