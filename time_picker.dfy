/** The timer-duration picker: the preset durations, the initial contents of the minutes and
    seconds fields taken from the task's current time, and the custom time the submit button
    produces. The result is always a `MM:SS` text the countdown tick reads back exactly. */
module TimePicker {

  import opened Wrappers
  import opened JsText
  import opened Tasks

  datatype Preset = Preset(caption: string, value: string)

  /** The eight quick-select durations, in display order. */
  function Presets(): seq<Preset> {
    [Preset("1 min", "01:00"), Preset("5 min", "05:00"), Preset("10 min", "10:00"),
     Preset("15 min", "15:00"), Preset("25 min", "25:00"), Preset("30 min", "30:00"),
     Preset("45 min", "45:00"), Preset("1 hour", "60:00")]
  }

  /** The minute counts of the presets. */
  function PresetMinutes(): seq<nat> {
    [1, 5, 10, 15, 25, 30, 45, 60]
  }

  /** `handlePresetSelect(time)`: the value is handed on as it is. */
  function SelectPreset(p: Preset): (r: string)
    ensures r == p.value
  {
    p.value
  }

  /** Every preset value is the clock text of its minutes and zero seconds, so the tick counts it
      down from exactly that many minutes. */
  lemma PresetsAreClockTexts(k: nat)
    requires k < |Presets()|
    ensures |Presets()| == |PresetMinutes()| == 8
    ensures SelectPreset(Presets()[k]) == ClockText(PresetMinutes()[k], 0)
    ensures ReadClock(SelectPreset(Presets()[k])) == (Int(PresetMinutes()[k]), Int(0))
  {
    var m := PresetMinutes()[k];
    Pad2TwoDigits(m);
    Pad2TwoDigits(0);
    assert ClockText(m, 0) == [DigitChar(m / 10), DigitChar(m % 10), ':', '0', '0'];
    assert Presets()[k].value == [DigitChar(m / 10), DigitChar(m % 10), ':', '0', '0'];
    ReadClockText(m, 0);
  }

  // ---------------------------------------------------------------- the fields' initial text

  /** `currentTime.split(":").map(Number)[k].toString()`, None when that piece is missing and
      `toString` is called on `undefined`, which throws. */
  function InitialField(currentTime: string, k: nat): Option<string> {
    match SplitField(currentTime, ':', k)
    case Some(piece) => Some(NumToString(JsNumber(piece)))
    case None => None
  }

  /** The minutes field's initial text: the first piece always exists. */
  function InitialMinutes(currentTime: string): (r: string)
    ensures InitialField(currentTime, 0) == Some(r)
  {
    NumToString(JsNumber(Split(currentTime, ':')[0]))
  }

  /** The seconds field's initial text, None when the current time has no colon. */
  function InitialSeconds(currentTime: string): Option<string> {
    InitialField(currentTime, 1)
  }

  /** Without a colon the seconds field cannot be initialised. */
  lemma InitialSecondsWithoutColon(currentTime: string)
    requires ':' !in currentTime
    ensures InitialSeconds(currentTime).None?
  {
    SplitWithout(currentTime, ':');
  }

  // ---------------------------------------------------------------- submitting a custom time

  /** `Math.max(0, Math.min(hi, Number.parseInt(field) || 0))`: NaN and 0 read as 0. */
  function FieldValue(field: string, hi: nat): (r: int)
    ensures 0 <= r <= hi
    ensures ParseIntAuto(field).NaN? ==> r == 0
    ensures ParseIntAuto(field).Int? ==> r == Clamp(ParseIntAuto(field).value, 0, hi)
  {
    Clamp(OrZero(ParseIntAuto(field)), 0, hi)
  }

  /** `handleCustomTime`: the clamped minutes (at most 99) and seconds (at most 59), each printed
      with at least two digits, joined by a colon. */
  function CustomTime(minutes: string, seconds: string): string {
    ClockText(FieldValue(minutes, 99), FieldValue(seconds, 59))
  }

  /** The custom time is always five characters, two digits, a colon and two digits, and the tick
      reads back minutes in 0..99 and seconds in 0..59. */
  lemma CustomTimeFormat(minutes: string, seconds: string)
    ensures var r := CustomTime(minutes, seconds);
            |r| == 5 && r[2] == ':' && AllDigits(r[..2]) && AllDigits(r[3..])
            && DigitsValue(r[..2]) == FieldValue(minutes, 99) && DigitsValue(r[3..]) == FieldValue(seconds, 59)
            && ReadClock(r) == (Int(FieldValue(minutes, 99)), Int(FieldValue(seconds, 59)))
  {
    var m, s := FieldValue(minutes, 99), FieldValue(seconds, 59);
    Pad2Digits(m);
    Pad2Digits(s);
    var r := CustomTime(minutes, seconds);
    assert r == Pad2(m) + ":" + Pad2(s);
    assert r[..2] == Pad2(m) && r[3..] == Pad2(s);
    ReadClockText(m, s);
  }

  /** Opening the picker on a time `MM:SS` with minutes in 0..99 and seconds in 0..59 and submitting
      the fields unchanged gives back the same time. */
  lemma UnchangedSubmitRoundTrip(m: int, s: int)
    requires 0 <= m <= 99 && 0 <= s <= 59
    ensures InitialSeconds(ClockText(m, s)).Some?
    ensures CustomTime(InitialMinutes(ClockText(m, s)), InitialSeconds(ClockText(m, s)).value) == ClockText(m, s)
  {
    var t := ClockText(m, s);
    Pad2NoColon(m);
    Pad2NoColon(s);
    assert t == Pad2(m) + [':'] + Pad2(s);
    SplitPair(Pad2(m), Pad2(s), ':');
    NumberOfPad2(m);
    NumberOfPad2(s);
    ParseIntAutoOfNat(m);
    ParseIntAutoOfNat(s);
  }
}
