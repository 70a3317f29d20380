/** The task record of the notes board and the per-task reducers that the provider applies with
    `prev.map(...)`: the one-second countdown tick, reset, custom time, alarm time, mode toggle,
    start/pause, load-time migration, and the registries the timer effect rebuilds from the list. */
module Tasks {

  import opened Wrappers
  import opened JsText

  datatype Mode = Timer | Alarm

  /** A task card, without the fields only the user interface reads (description, position,
      attachments, tags, colour, timestamps). Optional fields of the source are `Option`s. */
  datatype Task = Task(
    id: int,
    title: string,
    time: string,
    originalTime: string,
    isRunning: bool,
    isCompleted: bool,
    telegramNotifications: bool,
    mode: Mode,
    alarmTime: Option<string>,
    alarmDate: Option<string>,
    linkedTo: seq<int>,
    linkedFrom: seq<int>,
    chainPosition: Option<int>,
    isChainActive: Option<bool>,
    completionCount: Option<int>)

  /** `completionCount || 0`. */
  function CompletionsOf(t: Task): int {
    t.completionCount.GetOr(0)
  }

  /** The design's "never both running and completed" rule. */
  predicate Coherent(t: Task) {
    !(t.isRunning && t.isCompleted)
  }

  /** Stopped and not completed. */
  predicate Idle(t: Task) {
    !t.isRunning && !t.isCompleted
  }

  // ---------------------------------------------------------------- clock text

  /** The `MM:SS` text the tick writes: both fields printed with `String(n).padStart(2, "0")`. */
  function ClockText(m: int, s: int): string {
    Pad2(m) + ":" + Pad2(s)
  }

  /** Clock texts with one-digit fields, such as `05:00` and `00:00`. */
  lemma ClockTextOneDigit(m: int, s: int)
    requires 0 <= m < 10 && 0 <= s < 10
    ensures ClockText(m, s) == ['0', DigitChar(m), ':', '0', DigitChar(s)]
    ensures ClockText(0, 0) == "00:00" && ClockText(0, 1) == "00:01" && ClockText(5, 0) == "05:00"
  {
    Pad2OneDigit(m);
    Pad2OneDigit(s);
    Pad2OneDigit(0);
    Pad2OneDigit(1);
    Pad2OneDigit(5);
  }

  /** The clock text of a number of seconds. */
  function ClockOfSeconds(n: nat): string {
    ClockText(n / 60, n % 60)
  }

  /** What the tick reads from a time text: `parseInt(_, 10)` of the first two pieces of `split(":")`. */
  function ReadClock(time: string): (Num, Num) {
    var parts := Split(time, ':');
    (ParseInt10(parts[0]), if |parts| > 1 then ParseInt10(parts[1]) else NaN)
  }

  /** The tick reads back exactly the numbers a clock text was printed from. */
  lemma ReadClockText(m: int, s: int)
    ensures ReadClock(ClockText(m, s)) == (Int(m), Int(s))
  {
    Pad2NoColon(m);
    Pad2NoColon(s);
    assert ClockText(m, s) == Pad2(m) + [':'] + Pad2(s);
    SplitPair(Pad2(m), Pad2(s), ':');
    ParsePad2(m, []);
    ParsePad2(s, []);
    assert Pad2(m) + [] == Pad2(m) && Pad2(s) + [] == Pad2(s);
  }

  // ---------------------------------------------------------------- the tick

  /** One firing of a task's countdown interval on a task it applies to: `00:00` completes;
      any other reading counts down one second, borrowing a minute when the seconds are 0. */
  function TickTask(p: Task): Task {
    var c := ReadClock(p.time);
    TickReading(p, c.0, c.1)
  }

  /** The tick on a task whose time text read as `min` and `sec`. */
  function TickReading(p: Task, min: Num, sec: Num): Task {
    if min == Int(0) && sec == Int(0) then
      p.(isRunning := false, isCompleted := true, completionCount := Some(CompletionsOf(p) + 1))
    else
      var newSec := if sec == Int(0) then Int(59) else Dec(sec);
      var newMin := if sec == Int(0) then Dec(min) else min;
      p.(time := PadStart2(NumToString(newMin)) + ":" + PadStart2(NumToString(newSec)))
  }

  /** Whether the tick applies to task `p` when the interval registered for `id` fires. */
  predicate TickApplies(p: Task, id: int) {
    p.id == id && p.isRunning
  }

  /** Whether that tick completes `p`. */
  predicate TickCompletes(p: Task, id: int) {
    TickApplies(p, id) && ReadClock(p.time) == (Int(0), Int(0))
  }

  /** The list after the interval registered for `id` fires (`prevTasks.map(...)`). */
  function TickList(ts: seq<Task>, id: int): seq<Task> {
    seq(|ts|, i requires 0 <= i < |ts| => if TickApplies(ts[i], id) then TickTask(ts[i]) else ts[i])
  }

  /** The tasks, in list order, for which that tick calls the completion handler. */
  function CompletedByTick(ts: seq<Task>, id: int): (r: seq<Task>)
    ensures forall t :: t in r <==> t in ts && TickCompletes(t, id)
  {
    if ts == [] then []
    else (if TickCompletes(ts[0], id) then [ts[0]] else []) + CompletedByTick(ts[1..], id)
  }

  /** A tick leaves every task it does not apply to (another id, or not running) exactly as it was,
      and keeps the list's length and order of ids. */
  lemma TickListFrame(ts: seq<Task>, id: int)
    ensures |TickList(ts, id)| == |ts|
    ensures forall i :: 0 <= i < |ts| ==> TickList(ts, id)[i].id == ts[i].id
    ensures forall i :: 0 <= i < |ts| && !TickApplies(ts[i], id) ==> TickList(ts, id)[i] == ts[i]
    ensures forall i :: 0 <= i < |ts| && TickApplies(ts[i], id) ==> TickList(ts, id)[i] == TickTask(ts[i])
  {
  }

  /** Borrow: `MM:SS` with SS > 0 becomes `MM:(SS-1)`, and `MM:00` becomes `(MM-1):59`, both
      zero-padded; nothing else about the task changes and it stays running. */
  lemma TickBorrow(p: Task, m: int, s: int)
    requires p.time == ClockText(m, s) && !(m == 0 && s == 0)
    ensures TickTask(p) == p.(time := if s == 0 then ClockText(m - 1, 59) else ClockText(m, s - 1))
  {
    ReadClockText(m, s);
  }

  /** At `00:00` the tick stops the task, marks it completed and counts one more completion
      (a missing count counts as 0); the time stays `00:00`. */
  lemma TickAtZero(p: Task)
    requires p.time == ClockText(0, 0)
    ensures TickTask(p) == p.(isRunning := false, isCompleted := true, completionCount := Some(CompletionsOf(p) + 1))
  {
    ReadClockText(0, 0);
  }

  /** From `00:01` the tick reaches `00:00` and does not complete the task (that takes one more tick). */
  lemma TickFromOneSecond(p: Task)
    requires p.time == "00:01"
    ensures TickTask(p) == p.(time := "00:00")
  {
    ClockTextOneDigit(0, 1);
    ClockTextOneDigit(0, 0);
    TickBorrow(p, 0, 1);
  }

  /** Countdown: on a clock text of `n > 0` seconds with at most 59 in the seconds field, a tick
      leaves exactly `n - 1` seconds. */
  lemma TickCountsDown(p: Task, n: nat)
    requires p.time == ClockOfSeconds(n) && n > 0
    ensures TickTask(p) == p.(time := ClockOfSeconds(n - 1))
  {
    ClockOfPrevious(n);
    TickBorrow(p, n / 60, n % 60);
  }

  /** One second less than `n > 0` is one less in the seconds field, or a minute less and 59. */
  lemma ClockOfPrevious(n: nat)
    requires n > 0
    ensures ClockOfSeconds(n - 1) == if n % 60 == 0 then ClockText(n / 60 - 1, 59) else ClockText(n / 60, n % 60 - 1)
  {
    if n % 60 == 0 {
      DivModOf(n - 1, n / 60 - 1, 59);
    } else {
      DivModOf(n - 1, n / 60, n % 60 - 1);
    }
  }

  /** Minutes and seconds of a number of seconds are unique. */
  lemma DivModOf(n: nat, q: int, r: int)
    requires n == 60 * q + r && 0 <= r < 60
    ensures n / 60 == q && n % 60 == r
  {
  }

  /** `f` applied `k` times to `p`. */
  function Repeat(f: Task -> Task, p: Task, k: nat): Task {
    if k == 0 then p else f(Repeat(f, p, k - 1))
  }

  /** `p` after `k` firings of its countdown interval. */
  function Ticks(p: Task, k: nat): Task {
    Repeat(TickTask, p, k)
  }

  /** A running countdown of `n` seconds reads `00:00` (`ClockText(0, 0)`) after `n` ticks, still
      running and not completed, and the next tick completes it exactly once: a completed task is
      no longer running, so further ticks of its interval do not apply to it. */
  lemma CountdownRunsOut(p: Task, n: nat)
    requires p.time == ClockOfSeconds(n)
    ensures Ticks(p, n) == p.(time := ClockText(0, 0))
    ensures Ticks(p, n + 1) == p.(time := ClockText(0, 0), isRunning := false, isCompleted := true,
                                  completionCount := Some(CompletionsOf(p) + 1))
    ensures !TickApplies(Ticks(p, n + 1), p.id)
  {
    CountdownAfter(p, n, n);
    assert Ticks(p, n + 1) == TickTask(Ticks(p, n));
    CountdownEnd(p, Ticks(p, n), Ticks(p, n + 1));
  }

  /** The last two ticks of `CountdownRunsOut`, with no seconds left. */
  lemma CountdownEnd(p: Task, z: Task, c: Task)
    requires z == p.(time := ClockOfSeconds(0)) && c == TickTask(z)
    ensures z == p.(time := ClockText(0, 0))
    ensures c == p.(time := ClockText(0, 0), isRunning := false, isCompleted := true,
                    completionCount := Some(CompletionsOf(p) + 1))
  {
    assert z.time == ClockText(0, 0) by {
      DivModOf(0, 0, 0);
    }
    TickAtZero(z);
  }

  /** After `k` ticks of a countdown of `n >= k` seconds, `n - k` seconds are left. */
  lemma CountdownAfter(p: Task, n: nat, k: nat)
    requires k <= n && p.time == ClockOfSeconds(n)
    ensures Ticks(p, k) == p.(time := ClockOfSeconds(n - k))
  {
    forall q: Task, b: nat | 0 < b && q.time == ClockOfSeconds(b)
      ensures TickTask(q) == q.(time := ClockOfSeconds(b - 1))
    {
      TickCountsDown(q, b);
    }
    RepeatCountsDown(TickTask, ClockOfSeconds, p, n, k);
  }

  /** Repeating a step that takes a task showing `b > 0` to the same task showing `b - 1`, `k`
      times from `n >= k`, leaves `n - k`. */
  lemma {:induction false} RepeatCountsDown(f: Task -> Task, shown: nat -> string, p: Task, n: nat, k: nat)
    requires k <= n && p.time == shown(n)
    requires forall q: Task, b: nat :: 0 < b && q.time == shown(b) ==> f(q) == q.(time := shown(b - 1))
    ensures Repeat(f, p, k) == p.(time := shown(n - k))
  {
    if k > 0 {
      RepeatCountsDown(f, shown, p, n, k - 1);
      var q := Repeat(f, p, k - 1);
      assert q.time == shown(n - (k - 1));
      assert n - (k - 1) - 1 == n - k;
    }
  }

  /** Every tick keeps the "never both running and completed" rule. */
  lemma TickKeepsCoherent(p: Task)
    requires Coherent(p)
    ensures Coherent(TickTask(p))
    ensures TickTask(p).id == p.id && TickTask(p).linkedTo == p.linkedTo
  {
  }

  // ---------------------------------------------------------------- the user's reducers

  /** Applies `f` to every task with the given id and keeps the others: the `prev.map(task =>
      task.id === id ? ... : task)` shape shared by the reducers. */
  function UpdateWhere(ts: seq<Task>, id: int, f: Task -> Task): (r: seq<Task>)
    ensures |r| == |ts|
    ensures forall i :: 0 <= i < |ts| ==> r[i] == if ts[i].id == id then f(ts[i]) else ts[i]
  {
    seq(|ts|, i requires 0 <= i < |ts| => if ts[i].id == id then f(ts[i]) else ts[i])
  }

  /** `resetTimer`: back to the configured duration, stopped, not completed, out of any chain. */
  function ResetTimerTask(t: Task): Task {
    t.(time := t.originalTime, isRunning := false, isCompleted := false,
       isChainActive := Some(false), chainPosition := None)
  }

  /** `setCustomTime`: the new duration becomes both the remaining and the configured time. */
  function CustomTimeTask(t: Task, time: string): Task {
    t.(time := time, originalTime := time, isRunning := false, isCompleted := false)
  }

  /** `setAlarmTime`: a new target time and date (an absent date stays absent). */
  function AlarmTimeTask(t: Task, time: string, date: Option<string>): Task {
    t.(alarmTime := Some(time), alarmDate := date, isRunning := false, isCompleted := false)
  }

  /** `toggleTaskMode`: the other mode, stopped and not completed. */
  function ToggledModeTask(t: Task): Task {
    t.(mode := if t.mode == Timer then Alarm else Timer, isRunning := false, isCompleted := false)
  }

  /** `toggleTimer`'s update: only `isRunning` is written, and completed tasks are not refused. */
  function RunningTask(t: Task, running: bool): Task {
    t.(isRunning := running)
  }

  /** `resetTimer(id)`'s list update. */
  function ResetTimerList(ts: seq<Task>, id: int): seq<Task> {
    UpdateWhere(ts, id, ResetTimerTask)
  }

  /** `setCustomTime(id, time)`'s list update. */
  function CustomTimeList(ts: seq<Task>, id: int, time: string): seq<Task> {
    UpdateWhere(ts, id, t => CustomTimeTask(t, time))
  }

  /** `setAlarmTime(id, time, date)`'s list update. */
  function AlarmTimeList(ts: seq<Task>, id: int, time: string, date: Option<string>): seq<Task> {
    UpdateWhere(ts, id, t => AlarmTimeTask(t, time, date))
  }

  /** `toggleTaskMode(id)`'s list update. */
  function ToggleModeList(ts: seq<Task>, id: int): seq<Task> {
    UpdateWhere(ts, id, ToggledModeTask)
  }

  /** `toggleTimer(id)`'s list update, with the new running state decided beforehand. */
  function RunningList(ts: seq<Task>, id: int, running: bool): seq<Task> {
    UpdateWhere(ts, id, t => RunningTask(t, running))
  }

  /** Reset, custom time, alarm time and mode toggle always leave the task stopped and not
      completed, and so coherent; each keeps the task's id and its links. */
  lemma EditsLeaveIdle(t: Task, time: string, date: Option<string>)
    ensures Idle(ResetTimerTask(t)) && Idle(CustomTimeTask(t, time))
    ensures Idle(AlarmTimeTask(t, time, date)) && Idle(ToggledModeTask(t))
    ensures ResetTimerTask(t).time == t.originalTime && CustomTimeTask(t, time).originalTime == time
    ensures ToggledModeTask(t).mode != t.mode && ToggledModeTask(ToggledModeTask(t)).mode == t.mode
    ensures ResetTimerTask(t).chainPosition.None? && ResetTimerTask(t).isChainActive == Some(false)
  {
  }

  /** The list edits: every task with the id ends up stopped and not completed (the running
      state is the chosen one for `toggleTimer`), every other task is left as it was. */
  lemma ListEditsSpec(ts: seq<Task>, id: int, time: string, date: Option<string>, running: bool, i: nat)
    requires i < |ts|
    ensures ts[i].id == id ==>
              Idle(ResetTimerList(ts, id)[i]) && Idle(CustomTimeList(ts, id, time)[i])
              && Idle(AlarmTimeList(ts, id, time, date)[i]) && Idle(ToggleModeList(ts, id)[i])
              && RunningList(ts, id, running)[i] == ts[i].(isRunning := running)
    ensures ts[i].id != id ==>
              ResetTimerList(ts, id)[i] == ts[i] && CustomTimeList(ts, id, time)[i] == ts[i]
              && AlarmTimeList(ts, id, time, date)[i] == ts[i] && ToggleModeList(ts, id)[i] == ts[i]
              && RunningList(ts, id, running)[i] == ts[i]
    ensures |ResetTimerList(ts, id)| == |CustomTimeList(ts, id, time)| == |AlarmTimeList(ts, id, time, date)| == |ts|
    ensures |ToggleModeList(ts, id)| == |RunningList(ts, id, running)| == |ts|
  {
    EditsLeaveIdle(ts[i], time, date);
  }

  /** Starting a completed task with `toggleTimer` is not refused: it ends up both running and
      completed, against the "never both" rule. */
  lemma ToggleStartsCompletedTask(t: Task)
    requires t.isCompleted && !t.isRunning
    ensures RunningTask(t, !t.isRunning).isRunning && !Coherent(RunningTask(t, !t.isRunning))
  {
  }

  // ---------------------------------------------------------------- new tasks and migration

  /** `addTask`'s new card: a five-minute timer, stopped, unlinked, never completed. */
  function NewTask(id: int): Task {
    Task(id, "New Task", "05:00", "05:00", false, false, false, Timer, None, None, [], [], None, None, Some(0))
  }

  /** The card a session starts with when neither the server nor local storage has any. */
  function WelcomeTask(id: int): Task {
    NewTask(id).(title := "Welcome to Notes Playground")
  }

  /** A new card is idle, reads as 5 minutes 0 seconds, is a timer, and has no links and no
      completions; the welcome card differs from it only in its title. */
  lemma NewTaskDefaults(id: int)
    ensures Idle(NewTask(id)) && NewTask(id).id == id && NewTask(id).mode == Timer
    ensures ReadClock(NewTask(id).time) == (Int(5), Int(0)) && NewTask(id).time == NewTask(id).originalTime
    ensures NewTask(id).linkedTo == [] && NewTask(id).linkedFrom == [] && CompletionsOf(NewTask(id)) == 0
    ensures WelcomeTask(id) == NewTask(id).(title := WelcomeTask(id).title)
  {
    ClockTextOneDigit(5, 0);
    ReadClockText(5, 0);
  }

  /** A task as read back from local storage or an imported file: the fields older versions did
      not write may be missing (None also stands for JavaScript's other falsy values). */
  datatype RawTask = RawTask(
    id: int,
    title: string,
    time: string,
    originalTime: string,
    isRunning: bool,
    isCompleted: bool,
    telegramNotifications: bool,
    mode: Option<Mode>,
    alarmTime: Option<string>,
    alarmDate: Option<string>,
    linkedTo: Option<seq<int>>,
    linkedFrom: Option<seq<int>>,
    chainPosition: Option<int>,
    isChainActive: Option<bool>,
    completionCount: Option<int>)

  /** The load/import migration: `mode || "timer"`, `linkedTo || []`, `linkedFrom || []`,
      `completionCount || 0`; every other field is copied. */
  function Migrate(r: RawTask): Task {
    Task(r.id, r.title, r.time, r.originalTime, r.isRunning, r.isCompleted, r.telegramNotifications,
         r.mode.GetOr(Timer), r.alarmTime, r.alarmDate, r.linkedTo.GetOr([]), r.linkedFrom.GetOr([]),
         r.chainPosition, r.isChainActive, Some(r.completionCount.GetOr(0)))
  }

  function MigrateAll(rs: seq<RawTask>): (r: seq<Task>)
    ensures |r| == |rs| && forall i :: 0 <= i < |rs| ==> r[i] == Migrate(rs[i])
  {
    seq(|rs|, i requires 0 <= i < |rs| => Migrate(rs[i]))
  }

  /** What `JSON.stringify` keeps of a task: every field, an unset optional one as missing. */
  function Export(t: Task): RawTask {
    RawTask(t.id, t.title, t.time, t.originalTime, t.isRunning, t.isCompleted, t.telegramNotifications,
            Some(t.mode), t.alarmTime, t.alarmDate, Some(t.linkedTo), Some(t.linkedFrom),
            t.chainPosition, t.isChainActive, t.completionCount)
  }

  /** Exporting and re-importing a task gives it back, except that a missing completion count
      becomes 0; chain membership (links) and chain positions are preserved exactly. Migrating
      twice is the same as migrating once. */
  lemma ExportThenMigrate(t: Task, r: RawTask)
    ensures Migrate(Export(t)) == t.(completionCount := Some(CompletionsOf(t)))
    ensures Migrate(Export(Migrate(r))) == Migrate(r)
  {
  }

  /** A migrated record: no missing mode, links or count survive ingestion. */
  lemma MigrateFillsDefaults(r: RawTask)
    ensures r.mode.None? ==> Migrate(r).mode == Timer
    ensures r.linkedTo.None? ==> Migrate(r).linkedTo == []
    ensures r.linkedFrom.None? ==> Migrate(r).linkedFrom == []
    ensures Migrate(r).completionCount.Some? && CompletionsOf(Migrate(r)) == r.completionCount.GetOr(0)
    ensures Migrate(r).id == r.id && Migrate(r).chainPosition == r.chainPosition
  {
  }

  // ---------------------------------------------------------------- lookup

  /** `tasks.findIndex(t => t.id === id)`, None for -1. */
  function FindIndex(ts: seq<Task>, id: int): (r: Option<nat>)
    ensures r.Some? ==> r.value < |ts| && ts[r.value].id == id
    ensures r.Some? ==> forall j :: 0 <= j < r.value ==> ts[j].id != id
    ensures r.None? <==> forall j :: 0 <= j < |ts| ==> ts[j].id != id
  {
    if ts == [] then None
    else if ts[0].id == id then Some(0)
    else match FindIndex(ts[1..], id)
      case None => None
      case Some(k) => Some(k + 1)
  }

  /** `tasks.find(t => t.id === id)`: the first task with that id. */
  function Find(ts: seq<Task>, id: int): (r: Option<Task>)
    ensures r.Some? <==> FindIndex(ts, id).Some?
    ensures r.Some? ==> r == Some(ts[FindIndex(ts, id).value]) && r.value in ts && r.value.id == id
  {
    match FindIndex(ts, id)
    case None => None
    case Some(k) => Some(ts[k])
  }

  /** Whether some task has the id. */
  predicate HasTask(ts: seq<Task>, id: int) {
    exists i :: 0 <= i < |ts| && ts[i].id == id
  }

  /** `find` succeeds exactly when a task with the id exists. */
  lemma FindHasTask(ts: seq<Task>, id: int)
    ensures Find(ts, id).Some? <==> HasTask(ts, id)
  {
    if HasTask(ts, id) {
      var i :| 0 <= i < |ts| && ts[i].id == id;
    }
  }

  // ---------------------------------------------------------------- registries

  /** A task the effect gives a countdown interval (timer mode, running, not completed). */
  predicate Ticking(t: Task) {
    t.mode == Timer && t.isRunning && !t.isCompleted
  }

  /** A task the effect gives an alarm checker: alarm mode, a non-empty alarm time and not
      completed; whether it is running is not consulted. */
  predicate Armed(t: Task) {
    t.mode == Alarm && t.alarmTime.Some? && t.alarmTime.value != "" && !t.isCompleted
  }

  /** The registry the effect builds by visiting the list in order and calling `set(task.id, ...)`
      for each task satisfying `p`: a later task with the same id overwrites an earlier one. The
      value is the task the registered callback closed over. */
  function Registry(ts: seq<Task>, p: Task -> bool): map<int, Task> {
    if ts == [] then map[]
    else
      var m := Registry(ts[..|ts| - 1], p);
      var t := ts[|ts| - 1];
      if p(t) then m[t.id := t] else m
  }

  function TimerRegistry(ts: seq<Task>): map<int, Task> {
    Registry(ts, Ticking)
  }

  function AlarmRegistry(ts: seq<Task>): map<int, Task> {
    Registry(ts, Armed)
  }

  /** A registry holds exactly the ids of the tasks satisfying its predicate, and the entry for an
      id is the last such task with that id. */
  lemma RegistryContents(ts: seq<Task>, p: Task -> bool, k: int)
    ensures k in Registry(ts, p) <==> exists i :: 0 <= i < |ts| && ts[i].id == k && p(ts[i])
    ensures k in Registry(ts, p) ==> exists j :: 0 <= j < |ts| && Registry(ts, p)[k] == ts[j] && ts[j].id == k && p(ts[j])
                                               && forall i :: j < i < |ts| && ts[i].id == k ==> !p(ts[i])
  {
    RegistryKeys(ts, p, k);
    if k in Registry(ts, p) {
      RegistryEntry(ts, p, k);
    }
  }

  lemma {:induction false} RegistryKeys(ts: seq<Task>, p: Task -> bool, k: int)
    ensures k in Registry(ts, p) <==> exists i :: 0 <= i < |ts| && ts[i].id == k && p(ts[i])
  {
    if ts != [] {
      var front, t := ts[..|ts| - 1], ts[|ts| - 1];
      RegistryKeys(front, p, k);
      if p(t) && t.id == k {
        assert ts[|ts| - 1] == t;
      } else {
        if exists i :: 0 <= i < |ts| && ts[i].id == k && p(ts[i]) {
          var i :| 0 <= i < |ts| && ts[i].id == k && p(ts[i]);
          assert i < |ts| - 1 && front[i] == ts[i];
        }
        if exists i :: 0 <= i < |front| && front[i].id == k && p(front[i]) {
          var i :| 0 <= i < |front| && front[i].id == k && p(front[i]);
          assert ts[i] == front[i];
        }
      }
    }
  }

  lemma {:induction false} RegistryEntry(ts: seq<Task>, p: Task -> bool, k: int)
    requires k in Registry(ts, p)
    ensures exists j :: 0 <= j < |ts| && Registry(ts, p)[k] == ts[j] && ts[j].id == k && p(ts[j])
                        && forall i :: j < i < |ts| && ts[i].id == k ==> !p(ts[i])
  {
    var front, t := ts[..|ts| - 1], ts[|ts| - 1];
    if p(t) && t.id == k {
      assert Registry(ts, p)[k] == ts[|ts| - 1];
    } else {
      RegistryEntry(front, p, k);
      var j :| 0 <= j < |front| && Registry(front, p)[k] == front[j] && front[j].id == k && p(front[j])
               && forall i :: j < i < |front| && front[i].id == k ==> !p(front[i]);
      assert ts[j] == front[j];
      assert forall i :: j < i < |ts| - 1 ==> ts[i] == front[i];
    }
  }

  /** No task that was just reset, re-timed, given an alarm or switched mode keeps a countdown
      interval; an alarm-mode task with a non-empty alarm time gets its checker back. */
  lemma EditedTaskRegistries(ts: seq<Task>, id: int, f: Task -> Task)
    requires forall t :: Idle(f(t)) && f(t).id == t.id
    ensures id !in TimerRegistry(UpdateWhere(ts, id, f))
    ensures forall i :: 0 <= i < |ts| && ts[i].id == id && Armed(f(ts[i])) ==> id in AlarmRegistry(UpdateWhere(ts, id, f))
  {
    var r := UpdateWhere(ts, id, f);
    RegistryContents(r, Ticking, id);
    RegistryContents(r, Armed, id);
    forall i | 0 <= i < |ts| && ts[i].id == id && Armed(f(ts[i]))
      ensures id in AlarmRegistry(r)
    {
      assert Armed(r[i]);
    }
  }
}
