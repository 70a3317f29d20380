/** Telegram settings, the messages the provider sends, and the alarm checker's match test. The
    messages are collected rather than sent: whether delivery succeeds never changes the task
    state, since every send is wrapped in a `try` whose failure only shows a toast. */
module Notify {

  import opened Wrappers
  import opened JsText
  import opened Tasks

  datatype TelegramSettings = TelegramSettings(
    enabled: bool,
    chatId: string,
    botToken: string,
    notifyOnComplete: bool,
    notifyOnStart: bool,
    customMessage: string)

  /** The settings a session starts with. */
  function DefaultSettings(): TelegramSettings {
    TelegramSettings(false, "", "", true, false, "Timer completed for: {title}")
  }

  /** One `sendTelegramNotification(chatId, message, botToken)` call. */
  datatype Message = Message(chatId: string, text: string, botToken: string)

  function ModeText(m: Mode): string {
    if m == Alarm then "Alarm" else "Timer"
  }

  /** `customMessage.replace("{title}", title)`. */
  function CompletionText(s: TelegramSettings, t: Task): string {
    ReplaceFirst(s.customMessage, "{title}", t.title)
  }

  /** What completing `t` sends: one message when the task asks for notifications and the
      settings enable them for completions, nothing otherwise. */
  function CompletionMessages(s: TelegramSettings, t: Task): (r: seq<Message>)
    ensures |r| <= 1
    ensures r != [] <==> t.telegramNotifications && s.enabled && s.notifyOnComplete
  {
    if t.telegramNotifications && s.enabled && s.notifyOnComplete
    then [Message(s.chatId, CompletionText(s, t), s.botToken)]
    else []
  }

  /** What `toggleTimer` sends when it sets `isRunning` to `running`: only a start, and only when
      the task and the settings ask for start messages. */
  function StartMessages(s: TelegramSettings, t: Task, running: bool): (r: seq<Message>)
    ensures |r| <= 1
    ensures r != [] <==> running && t.telegramNotifications && s.enabled && s.notifyOnStart
  {
    if running && t.telegramNotifications && s.enabled && s.notifyOnStart
    then [Message(s.chatId, ModeText(t.mode) + " started for: " + t.title, s.botToken)]
    else []
  }

  /** `saveTelegramSettings`'s confirmation: sent when enabled with a non-empty chat id and token. */
  function EnabledMessages(s: TelegramSettings): (r: seq<Message>)
    ensures r != [] <==> s.enabled && s.chatId != "" && s.botToken != ""
  {
    if s.enabled && s.chatId != "" && s.botToken != ""
    then [Message(s.chatId, "Telegram notifications are now enabled!", s.botToken)]
    else []
  }

  /** The default settings send nothing at all. */
  lemma DefaultSettingsSilent(t: Task, running: bool)
    ensures CompletionMessages(DefaultSettings(), t) == [] && StartMessages(DefaultSettings(), t, running) == []
    ensures EnabledMessages(DefaultSettings()) == []
  {
  }

  /** The default template names the task: `Timer completed for: ` followed by the title. */
  lemma DefaultCompletionText(t: Task)
    ensures CompletionText(DefaultSettings(), t) == "Timer completed for: " + t.title
  {
    assert "Timer completed for: {title}" == "Timer completed for: " + "{title}";
    ReplaceAfterPrefix("Timer completed for: ", "{title}", t.title);
  }

  /** A template without `{title}` is sent as it is. */
  lemma TemplateWithoutTitle(s: TelegramSettings, t: Task)
    requires forall i :: 0 <= i <= |s.customMessage| ==> !OccursAt(s.customMessage, "{title}", i)
    ensures CompletionText(s, t) == s.customMessage
  {
    ReplaceFirstAbsent(s.customMessage, "{title}", t.title);
  }

  // ---------------------------------------------------------------- the alarm checker

  /** The local `HH:MM` the checker compares with. */
  function CurrentClock(hours: int, minutes: int): string {
    ClockText(hours, minutes)
  }

  /** `task.alarmDate || currentDate`: an absent or empty date means today. */
  function TargetDate(t: Task, today: string): string {
    match t.alarmDate
    case Some(d) => if d == "" then today else d
    case None => today
  }

  /** The checker's test at local time `hours:minutes` on date `today`. */
  predicate AlarmMatches(t: Task, hours: int, minutes: int, today: string) {
    TargetDate(t, today) == today && t.alarmTime == Some(CurrentClock(hours, minutes))
  }

  /** The match holds exactly when the target date, or today when none is set, is today and the
      alarm time is the current `HH:MM`. */
  lemma AlarmMatchesIff(t: Task, hours: int, minutes: int, today: string)
    ensures AlarmMatches(t, hours, minutes, today) <==>
              (t.alarmDate.None? || t.alarmDate == Some("") || t.alarmDate == Some(today))
              && t.alarmTime.Some? && ReadClock(t.alarmTime.value) == (Int(hours), Int(minutes))
              && t.alarmTime.value == Pad2(hours) + ":" + Pad2(minutes)
  {
    ReadClockText(hours, minutes);
  }

  /** An alarm matches at most one minute of the day: a checker that misses its minute never
      catches up. */
  lemma AlarmMatchesOnce(t: Task, h1: int, m1: int, h2: int, m2: int, today: string)
    requires AlarmMatches(t, h1, m1, today) && AlarmMatches(t, h2, m2, today)
    ensures h1 == h2 && m1 == m2
  {
    ReadClockText(h1, m1);
    ReadClockText(h2, m2);
  }

  /** Inside a day the current time always has five characters, so an alarm time written any
      other way (`7:05`, `07:05:00`) never matches. */
  lemma AlarmNeedsFiveChars(t: Task, hours: int, minutes: int, today: string)
    requires 0 <= hours < 24 && 0 <= minutes < 60
    requires t.alarmTime.Some? && |t.alarmTime.value| != 5
    ensures !AlarmMatches(t, hours, minutes, today)
  {
    Pad2Digits(hours);
    Pad2Digits(minutes);
  }
}
