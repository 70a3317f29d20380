/** The task provider of the notes board: the task list, the derived link records, the two
    registries the effect rebuilds after every change of the list (`timerIntervals`,
    `alarmCheckers`), the chain registry `chainTimeouts`, and everything the browser would hold
    on the provider's behalf, made explicit: the pending one-shot timeouts, a logical clock in
    milliseconds and the Telegram messages sent so far. Timers are driven by discrete events: an
    interval tick, an alarm check at a given local time, the earliest timeout falling due, or time
    passing with nothing due. */
module Engine {

  import opened Wrappers
  import opened Tasks
  import opened LinkGraph
  import opened Chain
  import opened Timeouts
  import opened Notify

  /** Every entry of `a` is in `b` with the same value. */
  ghost predicate Submap<V>(a: map<int, V>, b: map<int, V>) {
    forall k :: k in a ==> k in b && a[k] == b[k]
  }

  /** The part of the state a completion changes besides the registries. */
  datatype Side = Side(outbox: seq<Message>, pending: seq<Timeout>, chainTimeouts: map<int, nat>, nextHandle: nat)

  /** What `handleTaskComplete(p)` leaves behind, run with the task list `ts` and the settings `s`
      its closure holds, at time `now`: the completion message, if any, and one activation per
      downstream task, the `k`-th due `k` seconds from now and recorded under its id. */
  function CompleteSide(sd: Side, ts: seq<Task>, s: TelegramSettings, now: int, p: Task): Side {
    var ds := Downstream(ts, p.linkedTo);
    Side(sd.outbox + CompletionMessages(s, p),
         sd.pending + Scheduled(ds, now, sd.nextHandle),
         Register(sd.chainTimeouts, ds, sd.nextHandle),
         sd.nextHandle + |ds|)
  }

  /** The completions of `ps`, one after the other. */
  function CompleteEach(sd: Side, ts: seq<Task>, s: TelegramSettings, now: int, ps: seq<Task>): Side {
    if ps == [] then sd
    else CompleteSide(CompleteEach(sd, ts, s, now, ps[..|ps| - 1]), ts, s, now, ps[|ps| - 1])
  }

  /** A completion keeps every earlier message and timeout, adds at most one message, and
      schedules the `k`-th downstream task of `p` as index `k`, `k` seconds from now, under a
      handle that was never used before. */
  lemma CompleteSideSpec(sd: Side, ts: seq<Task>, s: TelegramSettings, now: int, p: Task, k: nat)
    requires k < |Downstream(ts, p.linkedTo)|
    ensures var r := CompleteSide(sd, ts, s, now, p);
            var d := Downstream(ts, p.linkedTo)[k];
            |r.outbox| <= |sd.outbox| + 1 && r.outbox[..|sd.outbox|] == sd.outbox
            && |r.pending| == |sd.pending| + |Downstream(ts, p.linkedTo)| && r.pending[..|sd.pending|] == sd.pending
            && r.pending[|sd.pending| + k] == Timeout(sd.nextHandle + k, now + k * 1000, Activate(d.id, k))
            && r.nextHandle > sd.nextHandle + k
  {
    var ds := Downstream(ts, p.linkedTo);
    var r := CompleteSide(sd, ts, s, now, p);
    ScheduledSpec(ds, now, sd.nextHandle, k);
    assert r.pending[|sd.pending| + k] == Scheduled(ds, now, sd.nextHandle)[k];
  }

  /** A task whose links name no existing task schedules nothing. */
  lemma CompleteWithoutDownstream(sd: Side, ts: seq<Task>, s: TelegramSettings, now: int, p: Task)
    requires forall j :: 0 <= j < |p.linkedTo| ==> Find(ts, p.linkedTo[j]).None?
    ensures CompleteSide(sd, ts, s, now, p).pending == sd.pending
    ensures CompleteSide(sd, ts, s, now, p).chainTimeouts == sd.chainTimeouts
  {
    DownstreamNoneFound(ts, p.linkedTo);
  }

  /** What a fired timeout does to the list. */
  function Perform(ts: seq<Task>, a: Action): seq<Task> {
    match a
    case Activate(id, index) => ActivateList(ts, id, index)
    case StartTask(id) => StartTaskList(ts, id)
  }

  /** Timeouts that outlive `clearAllTasks` find an empty list and change nothing. */
  lemma PerformOnEmpty(a: Action)
    ensures Perform([], a) == []
  {
  }

  /** A chain timeout that fires never takes an alarm checker away: activation leaves the mode,
      the alarm time and `isCompleted` alone, so an alarm that rang without completing its task
      is registered again on the next change of the list. */
  lemma ActivationKeepsAlarms(ts: seq<Task>, id: int, index: nat, k: int)
    ensures k in AlarmRegistry(ActivateList(ts, id, index)) <==> k in AlarmRegistry(ts)
  {
    var r := ActivateList(ts, id, index);
    RegistryContents(ts, Armed, k);
    RegistryContents(r, Armed, k);
    assert forall i :: 0 <= i < |ts| ==> (Armed(r[i]) <==> Armed(ts[i])) && r[i].id == ts[i].id;
  }

  /** `loadTasks`' choice of list: the API's when it has any, else the migrated stored list, else
      a single welcome task created at `now`. */
  function LoadedTasks(api: seq<Task>, stored: seq<RawTask>, now: int): seq<Task> {
    if |api| > 0 then api
    else if |stored| == 0 then [WelcomeTask(now)]
    else MigrateAll(stored)
  }

  /** A successful load never leaves the board empty, and keeps the number of stored tasks. */
  lemma LoadedNeverEmpty(api: seq<Task>, stored: seq<RawTask>, now: int)
    ensures |LoadedTasks(api, stored, now)| >= 1
    ensures api == [] && stored != [] ==> |LoadedTasks(api, stored, now)| == |stored|
  {
  }

  /** The entries of `m` whose id is not listed. */
  function Without(m: map<int, nat>, ids: seq<int>): map<int, nat> {
    map id | id in m && id !in ids :: m[id]
  }

  /** One step of `resetChain`'s cancelling loop: cancelling the handle recorded for the next id,
      when there is one, extends the cancelled set and the removed ids by that id. */
  lemma CancelStep(ps: seq<Timeout>, m: map<int, nat>, ids: seq<int>, k: nat)
    requires k < |ids|
    ensures var cur := Without(m, ids[..k]);
            var id := ids[k];
            (id in cur ==> KeepPending(KeepPending(ps, HandlesOf(m, ids[..k])), {cur[id]}) == KeepPending(ps, HandlesOf(m, ids[..k + 1]))
                           && cur - {id} == Without(m, ids[..k + 1]))
            && (id !in cur ==> HandlesOf(m, ids[..k]) == HandlesOf(m, ids[..k + 1]) && cur == Without(m, ids[..k + 1]))
  {
    var pre, post := ids[..k], ids[..k + 1];
    assert post == pre + [ids[k]];
    var id := ids[k];
    var cur := Without(m, pre);
    if id in cur {
      KeepPendingTwice(ps, HandlesOf(m, pre), {cur[id]});
      assert HandlesOf(m, pre) + {cur[id]} == HandlesOf(m, post);
    } else {
      assert id in m ==> id in pre;
      assert HandlesOf(m, pre) == HandlesOf(m, post);
    }
  }

  /** Pending timeouts `ps` are due no earlier than `now`, and every handle, pending or recorded
      in `m`, is below the next free one. */
  ghost predicate TimeoutsOk(ps: seq<Timeout>, m: map<int, nat>, now: int, next: nat) {
    (forall t :: t in ps ==> now <= t.due && t.handle < next)
    && (forall id :: id in m ==> m[id] < next)
  }

  /** Scheduling downstream activations from the next free handle keeps the timeouts sound. */
  lemma ScheduleKeepsOk(ps: seq<Timeout>, m: map<int, nat>, now: int, next: nat, ds: seq<Task>)
    requires TimeoutsOk(ps, m, now, next)
    ensures TimeoutsOk(ps + Scheduled(ds, now, next), Register(m, ds, next), now, next + |ds|)
  {
    forall t | t in ps + Scheduled(ds, now, next) ensures now <= t.due && t.handle < next + |ds| {
      if t !in ps {
        ScheduledBounds(ds, now, next, t);
      }
    }
    RegisterBounds(m, ds, next);
  }

  /** Cancelling the timeout recorded for `id` and forgetting the id keeps the timeouts sound. */
  lemma CancelKeepsOk(ps: seq<Timeout>, m: map<int, nat>, now: int, next: nat, id: int)
    requires TimeoutsOk(ps, m, now, next) && id in m
    ensures TimeoutsOk(KeepPending(ps, {m[id]}), m - {id}, now, next)
  {
    KeepPendingMembers(ps, {m[id]});
  }

  /** Pruning a deleted id from the link lists changes neither registry's ids: the effect that
      follows registers again every interval and checker it had. */
  lemma PruneKeepsRegistries(ts: seq<Task>, x: int, k: int)
    ensures k in TimerRegistry(PruneList(ts, x)) <==> k in TimerRegistry(ts)
    ensures k in AlarmRegistry(PruneList(ts, x)) <==> k in AlarmRegistry(ts)
  {
    var r := PruneList(ts, x);
    RegistryContents(ts, Ticking, k);
    RegistryContents(r, Ticking, k);
    RegistryContents(ts, Armed, k);
    RegistryContents(r, Armed, k);
    assert forall i :: 0 <= i < |ts| ==> (Ticking(r[i]) <==> Ticking(ts[i])) && (Armed(r[i]) <==> Armed(ts[i])) && r[i].id == ts[i].id;
  }

  /** An id no task has is in neither registry. */
  /** Clearing one more completed task's id from a registry is clearing the ids of one more
      element of the list. */
  lemma ClearedStep<A, B>(m: map<int, A>, n: map<int, B>, done: seq<Task>, k: int)
    requires 0 <= k < |done|
    ensures (m - Ids(done[..k])) - {done[k].id} == m - Ids(done[..k + 1])
    ensures (n - Ids(done[..k])) - {done[k].id} == n - Ids(done[..k + 1])
  {
    assert done[..k + 1] == done[..k] + [done[k]];
    IdsPush(done[..k], done[k]);
  }

  lemma NoTaskNoEntry(ts: seq<Task>, id: int)
    requires !HasTask(ts, id)
    ensures id !in TimerRegistry(ts) && id !in AlarmRegistry(ts)
  {
    RegistryContents(ts, Ticking, id);
    RegistryContents(ts, Armed, id);
  }

  /** The inner `task.linkedTo.forEach` of `updateLinksFromTasks`: push one record per link. */
  method PushLinks(acc: seq<TaskLink>, task: Task) returns (r: seq<TaskLink>)
    ensures r == acc + LinksOf(task)
  {
    var links := LinksOf(task);
    r := acc;
    var j := 0;
    while j < |task.linkedTo|
      invariant 0 <= j <= |links|
      invariant r == acc + links[..j]
    {
      assert links[..j + 1] == links[..j] + [links[j]];
      r := r + [links[j]];
      j := j + 1;
    }
    assert links[..j] == links;
  }

  /** `linkedTasks.forEach((linkedTask, index) => ...)` of `handleTaskComplete`: one timeout per
      downstream task, the `k`-th under handle `first + k`, due `k` seconds after `now`, and its
      handle recorded under the task's id. */
  method ScheduleDownstream(ds: seq<Task>, now: int, first: nat, ps: seq<Timeout>, registry: map<int, nat>)
    returns (ps': seq<Timeout>, registry': map<int, nat>)
    ensures ps' == ps + Scheduled(ds, now, first) && registry' == Register(registry, ds, first)
  {
    ps', registry' := ps, registry;
    var k := 0;
    while k < |ds|
      invariant 0 <= k <= |ds|
      invariant ps' == ps + Scheduled(ds[..k], now, first)
      invariant registry' == Register(registry, ds[..k], first)
    {
      ps' := ps' + [Timeout(first + k, now + ActivationDelay(k), Activate(ds[k].id, k))];
      registry' := registry'[ds[k].id := first + k];
      assert ds[..k + 1][..k] == ds[..k];
      k := k + 1;
    }
    assert ds[..k] == ds;
  }

  /** The provider's state. */
  class NotesEngine {
    var tasks: seq<Task>
    var links: seq<TaskLink>
    /** Task id to the task its countdown interval closed over. */
    var timerIntervals: map<int, Task>
    /** Task id to the task its alarm checker closed over. */
    var alarmCheckers: map<int, Task>
    /** Task id to the handle of the last activation timeout scheduled for it. */
    var chainTimeouts: map<int, nat>
    /** The one-shot timeouts not yet fired or cancelled, in the order they were scheduled. */
    var pending: seq<Timeout>
    /** Logical time in milliseconds. */
    var clock: int
    var nextHandle: nat
    var settings: TelegramSettings
    /** The settings the interval callbacks see: those of the render in which the effect last ran,
        that is, at the last change of the task list. */
    var effectSettings: TelegramSettings
    var outbox: seq<Message>

    /** Timeouts are due no earlier than now, and every handle in use was handed out. */
    ghost predicate TimeoutsValid()
      reads this
    {
      TimeoutsOk(pending, chainTimeouts, clock, nextHandle)
    }

    /** The link records are those of the list, and every registered interval or checker is one
        the effect registered for the current list (some may have been cleared since). */
    ghost predicate Valid()
      reads this
    {
      links == DeriveLinks(tasks)
      && Submap(timerIntervals, TimerRegistry(tasks)) && Submap(alarmCheckers, AlarmRegistry(tasks))
      && TimeoutsValid()
    }

    /** The state right after the effect ran for the current list: its callbacks see the
        current settings. */
    ghost predicate Rebuilt()
      reads this
    {
      links == DeriveLinks(tasks)
      && timerIntervals == TimerRegistry(tasks) && alarmCheckers == AlarmRegistry(tasks)
      && effectSettings == settings
    }

    function SideOf(): Side
      reads this
    {
      Side(outbox, pending, chainTimeouts, nextHandle)
    }

    constructor()
      ensures Valid() && Rebuilt() && tasks == [] && pending == [] && chainTimeouts == map[]
      ensures outbox == [] && clock == 0 && settings == DefaultSettings()
    {
      tasks := [];
      links := [];
      timerIntervals := map[];
      alarmCheckers := map[];
      chainTimeouts := map[];
      pending := [];
      clock := 0;
      nextHandle := 1;
      settings := DefaultSettings();
      effectSettings := DefaultSettings();
      outbox := [];
    }

    // ------------------------------------------------------------ replacing the list

    /** `setTasks(ts)` followed by the effects that depend on the list: the registries are
        cleared and rebuilt and the link records derived again. */
    method SetTasks(ts: seq<Task>)
      modifies this`tasks, this`links, this`timerIntervals, this`alarmCheckers, this`effectSettings
      requires TimeoutsValid()
      ensures tasks == ts && Rebuilt() && Valid()
    {
      tasks := ts;
      effectSettings := settings;
      RebuildRegistries();
      UpdateLinksFromTasks();
    }

    /** The effect at every change of the list: visit the tasks in order and register an interval
        for each ticking task and a checker for each armed one. */
    method RebuildRegistries()
      modifies this`timerIntervals, this`alarmCheckers
      ensures timerIntervals == TimerRegistry(tasks) && alarmCheckers == AlarmRegistry(tasks)
    {
      var intervals: map<int, Task> := map[];
      var checkers: map<int, Task> := map[];
      var i := 0;
      while i < |tasks|
        invariant 0 <= i <= |tasks|
        invariant intervals == TimerRegistry(tasks[..i]) && checkers == AlarmRegistry(tasks[..i])
      {
        var task := tasks[i];
        if task.mode == Timer && task.isRunning && !task.isCompleted {
          intervals := intervals[task.id := task];
        }
        if task.mode == Alarm && task.alarmTime.Some? && task.alarmTime.value != "" && !task.isCompleted {
          checkers := checkers[task.id := task];
        }
        assert tasks[..i + 1][..i] == tasks[..i];
        i := i + 1;
      }
      assert tasks[..i] == tasks;
      timerIntervals := intervals;
      alarmCheckers := checkers;
    }

    /** `updateLinksFromTasks`: one record per entry of each task's `linkedTo`, task by task. */
    method UpdateLinksFromTasks()
      modifies this`links
      ensures links == DeriveLinks(tasks)
    {
      var ts := tasks;
      var newLinks: seq<TaskLink> := [];
      var i := 0;
      while i < |ts|
        invariant 0 <= i <= |ts|
        invariant newLinks == DeriveLinks(ts[..i])
      {
        newLinks := PushLinks(newLinks, ts[i]);
        assert ts[..i + 1][..i] == ts[..i];
        i := i + 1;
      }
      assert ts[..i] == ts;
      links := newLinks;
    }

    // ------------------------------------------------------------ completion

    /** `handleTaskComplete(p)`: clear the task's interval and checker, send the completion
        message, and schedule the downstream tasks found in the current list, the `k`-th after
        `k` seconds, recording each handle under the task's id. */
    method Complete(p: Task)
      modifies this`timerIntervals, this`alarmCheckers, this`outbox, this`pending, this`chainTimeouts, this`nextHandle
      requires Valid()
      ensures Valid()
      ensures timerIntervals == old(timerIntervals) - {p.id} && alarmCheckers == old(alarmCheckers) - {p.id}
      ensures SideOf() == CompleteSide(old(SideOf()), tasks, effectSettings, clock, p)
    {
      ClearRegistered(p.id);
      SendAndSchedule(p);
    }

    /** Clear the interval and the checker registered for `id`. */
    method ClearRegistered(id: int)
      modifies this`timerIntervals, this`alarmCheckers
      requires Valid()
      ensures Valid() && timerIntervals == old(timerIntervals) - {id} && alarmCheckers == old(alarmCheckers) - {id}
    {
      timerIntervals, alarmCheckers := timerIntervals - {id}, alarmCheckers - {id};
    }

    /** The rest of `handleTaskComplete(p)`: the message and the downstream activations. */
    method SendAndSchedule(p: Task)
      modifies this`outbox, this`pending, this`chainTimeouts, this`nextHandle
      requires Valid()
      ensures Valid() && SideOf() == CompleteSide(old(SideOf()), tasks, effectSettings, clock, p)
    {
      var ds := Downstream(tasks, p.linkedTo);
      var ps, registry := ScheduleDownstream(ds, clock, nextHandle, pending, chainTimeouts);
      ScheduleKeepsOk(pending, chainTimeouts, clock, nextHandle, ds);
      outbox, pending, chainTimeouts, nextHandle := outbox + CompletionMessages(effectSettings, p), ps, registry, nextHandle + |ds|;
    }

    /** The countdown interval of task `id` fires: the completion handler runs for every task the
        tick completes, in list order and against the list before the tick, then the ticked list
        is set. */
    method TimerFires(id: int)
      modifies this`tasks, this`links, this`timerIntervals, this`alarmCheckers, this`effectSettings
      modifies this`outbox, this`pending, this`chainTimeouts, this`nextHandle
      requires Valid() && id in timerIntervals
      ensures Valid() && Rebuilt()
      ensures tasks == TickList(old(tasks), id)
      ensures SideOf() == CompleteEach(old(SideOf()), old(tasks), old(effectSettings), clock,
                                       CompletedByTick(old(tasks), id))
    {
      CompleteAll(CompletedByTick(tasks, id));
      SetTasks(TickList(tasks, id));
    }

    /** The completion handler for each of `done`, in order. */
    method CompleteAll(done: seq<Task>)
      modifies this`timerIntervals, this`alarmCheckers, this`outbox, this`pending, this`chainTimeouts, this`nextHandle
      requires Valid()
      ensures Valid() && SideOf() == CompleteEach(old(SideOf()), tasks, effectSettings, clock, done)
      ensures timerIntervals == old(timerIntervals) - Ids(done) && alarmCheckers == old(alarmCheckers) - Ids(done)
    {
      var k := 0;
      while k < |done|
        invariant 0 <= k <= |done| && Valid()
        invariant SideOf() == CompleteEach(old(SideOf()), tasks, effectSettings, clock, done[..k])
        invariant timerIntervals == old(timerIntervals) - Ids(done[..k])
        invariant alarmCheckers == old(alarmCheckers) - Ids(done[..k])
      {
        Complete(done[k]);
        assert done[..k + 1][..k] == done[..k];
        ClearedStep(old(timerIntervals), old(alarmCheckers), done, k);
        k := k + 1;
      }
      assert done[..k] == done;
    }

    /** The alarm checker of task `id` runs at local time `hours:minutes` on date `today`: on a
        match the completion handler runs for the task the checker closed over. The list itself is
        not touched, so the task stays unfinished and its checker comes back at the next change of
        the list. */
    method AlarmCheck(id: int, hours: int, minutes: int, today: string)
      modifies this`timerIntervals, this`alarmCheckers, this`outbox, this`pending, this`chainTimeouts, this`nextHandle
      requires Valid() && id in alarmCheckers
      ensures Valid()
      ensures var t := old(alarmCheckers)[id];
              if AlarmMatches(t, hours, minutes, today) then
                SideOf() == CompleteSide(old(SideOf()), tasks, effectSettings, clock, t)
                && alarmCheckers == old(alarmCheckers) - {id} && timerIntervals == old(timerIntervals) - {id}
              else
                SideOf() == old(SideOf()) && alarmCheckers == old(alarmCheckers) && timerIntervals == old(timerIntervals)
    {
      var task := alarmCheckers[id];
      RegistryContents(tasks, Armed, id);
      if AlarmMatches(task, hours, minutes, today) {
        Complete(task);
      }
    }

    /** The earliest pending timeout falls due: the clock moves to its due time, it leaves the
        pending list, and its update is applied to the list. Its entry in `chainTimeouts` stays. */
    method FireTimeout(k: nat)
      modifies this`tasks, this`links, this`timerIntervals, this`alarmCheckers, this`effectSettings
      modifies this`pending, this`clock
      requires Valid() && Earliest(pending, k)
      ensures Valid() && Rebuilt()
      ensures clock == old(pending)[k].due && pending == old(pending)[..k] + old(pending)[k + 1..]
      ensures tasks == Perform(old(tasks), old(pending)[k].action)
    {
      var t := pending[k];
      assert t in pending;
      clock := t.due;
      pending := pending[..k] + pending[k + 1..];
      assert forall x :: x in pending ==> x in old(pending);
      SetTasks(Perform(tasks, t.action));
    }

    /** `ms` milliseconds pass with no timeout falling due. */
    method Wait(ms: nat)
      modifies this`clock
      requires Valid() && forall t :: t in pending ==> clock + ms <= t.due
      ensures Valid() && clock == old(clock) + ms
    {
      clock := clock + ms;
    }

    // ------------------------------------------------------------ loading and adding

    /** `loadTasks` once the API answered with `api`, with `stored` in local storage. */
    method LoadTasks(api: seq<Task>, stored: seq<RawTask>, now: int)
      modifies this`tasks, this`links, this`timerIntervals, this`alarmCheckers, this`effectSettings
      requires Valid()
      ensures Valid() && Rebuilt() && tasks == LoadedTasks(api, stored, now)
    {
      if |api| > 0 {
        SetTasks(api);
      } else if |stored| == 0 {
        SetTasks([WelcomeTask(now)]);
      } else {
        SetTasks(MigrateAll(stored));
      }
    }

    /** `addTask` at time `now`: the new task goes at the end. */
    method AddTask(now: int)
      modifies this`tasks, this`links, this`timerIntervals, this`alarmCheckers, this`effectSettings
      requires Valid()
      ensures Valid() && Rebuilt() && tasks == old(tasks) + [NewTask(now)]
    {
      SetTasks(tasks + [NewTask(now)]);
    }

    /** `importTasks`: `None` when the file does not parse as a task array, or when the migration
        throws on an element such as `null`; either way the `catch` changes nothing. */
    method ImportTasks(input: Option<seq<RawTask>>)
      modifies this`tasks, this`links, this`timerIntervals, this`alarmCheckers, this`effectSettings
      requires Valid()
      ensures Valid()
      ensures input.None? ==> tasks == old(tasks) && links == old(links) && timerIntervals == old(timerIntervals)
                              && alarmCheckers == old(alarmCheckers) && effectSettings == old(effectSettings)
      ensures input.Some? ==> Rebuilt() && tasks == MigrateAll(input.value)
    {
      if input.Some? {
        SetTasks(MigrateAll(input.value));
      }
    }

    // ------------------------------------------------------------ per-task edits

    /** `toggleTimer(id)`: flips the running state of the task `find` returns, sending the start
        message first; a completed task is started like any other. Unknown ids change nothing. */
    method ToggleTimer(id: int)
      modifies this`tasks, this`links, this`timerIntervals, this`alarmCheckers, this`effectSettings, this`outbox
      requires Valid()
      ensures Valid()
      ensures Find(old(tasks), id).None? ==> tasks == old(tasks) && links == old(links) && outbox == old(outbox)
                                             && timerIntervals == old(timerIntervals) && alarmCheckers == old(alarmCheckers)
                                             && effectSettings == old(effectSettings)
      ensures Find(old(tasks), id).Some? ==>
                var t := Find(old(tasks), id).value;
                Rebuilt() && tasks == RunningList(old(tasks), id, !t.isRunning)
                && outbox == old(outbox) + StartMessages(settings, t, !t.isRunning)
    {
      match Find(tasks, id)
      case None =>
      case Some(t) =>
        var running := !t.isRunning;
        outbox := outbox + StartMessages(settings, t, running);
        SetTasks(RunningList(tasks, id, running));
    }

    /** `resetTimer(id)`: clears the task's interval and checker and resets it; a pending chain
        activation for it is left in place. */
    method ResetTimer(id: int)
      modifies this`tasks, this`links, this`timerIntervals, this`alarmCheckers, this`effectSettings
      requires Valid()
      ensures Valid() && Rebuilt() && tasks == ResetTimerList(old(tasks), id)
      ensures pending == old(pending) && chainTimeouts == old(chainTimeouts)
    {
      timerIntervals := timerIntervals - {id};
      alarmCheckers := alarmCheckers - {id};
      SetTasks(ResetTimerList(tasks, id));
    }

    method SetCustomTime(id: int, time: string)
      modifies this`tasks, this`links, this`timerIntervals, this`alarmCheckers, this`effectSettings
      requires Valid()
      ensures Valid() && Rebuilt() && tasks == CustomTimeList(old(tasks), id, time)
    {
      SetTasks(CustomTimeList(tasks, id, time));
    }

    method SetAlarmTime(id: int, time: string, date: Option<string>)
      modifies this`tasks, this`links, this`timerIntervals, this`alarmCheckers, this`effectSettings
      requires Valid()
      ensures Valid() && Rebuilt() && tasks == AlarmTimeList(old(tasks), id, time, date)
    {
      SetTasks(AlarmTimeList(tasks, id, time, date));
    }

    method ToggleTaskMode(id: int)
      modifies this`tasks, this`links, this`timerIntervals, this`alarmCheckers, this`effectSettings
      requires Valid()
      ensures Valid() && Rebuilt() && tasks == ToggleModeList(old(tasks), id)
    {
      SetTasks(ToggleModeList(tasks, id));
    }

    // ------------------------------------------------------------ links

    /** `linkTasks(from, to)`; linking a task to itself is refused before the list is touched. */
    method LinkTasks(from: int, to: int)
      modifies this`tasks, this`links, this`timerIntervals, this`alarmCheckers, this`effectSettings
      requires Valid()
      ensures Valid()
      ensures from == to ==> tasks == old(tasks) && links == old(links)
                             && timerIntervals == old(timerIntervals) && alarmCheckers == old(alarmCheckers)
                             && effectSettings == old(effectSettings)
      ensures from != to ==> Rebuilt() && tasks == LinkList(old(tasks), from, to)
    {
      if from == to {
        return;
      }
      SetTasks(LinkList(tasks, from, to));
    }

    method UnlinkTasks(from: int, to: int)
      modifies this`tasks, this`links, this`timerIntervals, this`alarmCheckers, this`effectSettings
      requires Valid()
      ensures Valid() && Rebuilt() && tasks == UnlinkList(old(tasks), from, to)
    {
      SetTasks(UnlinkList(tasks, from, to));
    }

    // ------------------------------------------------------------ deleting

    /** `deleteTask(id)` up to its `await`: cancel the task's interval, checker and chain
        timeout and prune `id` from every link list. The result says whether the list had the
        task; then the API call is awaited and `FinishDeleteTask(id)` drops it. Until then the
        task is still listed, and since pruning changes the list, the effect registers its
        interval or checker again: a running task goes on ticking and can still complete. */
    method DeleteTask(id: int) returns (removing: bool)
      modifies this`tasks, this`links, this`timerIntervals, this`alarmCheckers, this`effectSettings
      modifies this`pending, this`chainTimeouts
      requires Valid()
      ensures Valid() && Rebuilt() && tasks == PruneList(old(tasks), id)
      ensures removing == HasTask(old(tasks), id)
      ensures id in timerIntervals <==> id in TimerRegistry(old(tasks))
      ensures id in alarmCheckers <==> id in AlarmRegistry(old(tasks))
      ensures !removing ==> id !in timerIntervals && id !in alarmCheckers
      ensures id !in chainTimeouts && chainTimeouts == old(chainTimeouts) - {id}
      ensures pending == if id in old(chainTimeouts) then KeepPending(old(pending), {old(chainTimeouts)[id]}) else old(pending)
    {
      timerIntervals := timerIntervals - {id};
      alarmCheckers := alarmCheckers - {id};
      CancelChainTimeout(id);
      removing := Find(tasks, id).Some?;
      ghost var before := tasks;
      FindHasTask(before, id);
      SetTasks(PruneList(tasks, id));
      PruneKeepsRegistries(before, id, id);
      if !removing {
        NoTaskNoEntry(before, id);
      }
    }

    /** The rest of `deleteTask(id)` once the API call settled, whether it succeeded or failed:
        the task is filtered out of the list as it is by then. */
    method FinishDeleteTask(id: int)
      modifies this`tasks, this`links, this`timerIntervals, this`alarmCheckers, this`effectSettings
      requires Valid()
      ensures Valid() && Rebuilt() && tasks == RemoveTasks(old(tasks), id)
      ensures !HasTask(tasks, id) && id !in timerIntervals && id !in alarmCheckers
    {
      SetTasks(RemoveTasks(tasks, id));
      NoTaskNoEntry(tasks, id);
    }

    /** Clear the chain timeout recorded for `id`, if any, and forget it. */
    method CancelChainTimeout(id: int)
      modifies this`pending, this`chainTimeouts
      requires TimeoutsValid()
      ensures TimeoutsValid() && chainTimeouts == old(chainTimeouts) - {id}
      ensures pending == if id in old(chainTimeouts) then KeepPending(old(pending), {old(chainTimeouts)[id]}) else old(pending)
    {
      if id in chainTimeouts {
        CancelKeepsOk(pending, chainTimeouts, clock, nextHandle, id);
        pending := KeepPending(pending, {chainTimeouts[id]});
        chainTimeouts := chainTimeouts - {id};
      }
    }

    /** `clearAllTasks` up to its `await`: clear every interval, checker and recorded chain
        timeout. The list is emptied by `FinishClearAllTasks` once the API call settled; a change
        of the list in between (a timeout whose handle was not recorded) registers intervals
        and checkers again. */
    method ClearAllTasks()
      modifies this`timerIntervals, this`alarmCheckers, this`pending, this`chainTimeouts
      requires Valid()
      ensures Valid() && tasks == old(tasks)
      ensures timerIntervals == map[] && alarmCheckers == map[] && chainTimeouts == map[]
      ensures pending == KeepPending(old(pending), old(chainTimeouts).Values)
    {
      timerIntervals := map[];
      alarmCheckers := map[];
      KeepPendingMembers(pending, chainTimeouts.Values);
      pending := KeepPending(pending, chainTimeouts.Values);
      chainTimeouts := map[];
    }

    /** The rest of `clearAllTasks`, whether the API call succeeded or failed: `setTasks([])` and
        `setLinks([])`. */
    method FinishClearAllTasks()
      modifies this`tasks, this`links, this`timerIntervals, this`alarmCheckers, this`effectSettings
      requires Valid()
      ensures Valid() && Rebuilt() && tasks == [] && links == []
      ensures timerIntervals == map[] && alarmCheckers == map[]
    {
      SetTasks([]);
      links := [];
    }

    // ------------------------------------------------------------ chains

    /** `getTaskChain(s)`: the tasks reachable from `s` in the order of the depth-first walk
        (`order`), sorted stably by chain position. */
    method GetTaskChain(s: int) returns (r: seq<Task>, ghost order: seq<Task>)
      ensures order == DepthFirst(tasks, s) && ChainSpec(tasks, s, order) && r == SortByPosition(order)
      ensures SortedByKey(r) && multiset(r) == multiset(order)
    {
      var c := CollectChain(tasks, s);
      r := SortByPosition(c);
      order := c;
      SortByPositionSpec(c);
    }

    /** `startChain(s)`: put every task of the chain at its position, stopped and reset, and
        schedule the start of `s` 500 ms later, under a handle no registry records. */
    method StartChain(s: int) returns (ghost order: seq<Task>)
      modifies this`tasks, this`links, this`timerIntervals, this`alarmCheckers, this`effectSettings
      modifies this`pending, this`nextHandle
      requires Valid()
      ensures Valid() && Rebuilt() && order == DepthFirst(old(tasks), s) && ChainSpec(old(tasks), s, order)
      ensures tasks == StartChainList(old(tasks), SortByPosition(order))
      ensures pending == old(pending) + [Timeout(old(nextHandle), clock + 500, StartTask(s))]
      ensures nextHandle == old(nextHandle) + 1
    {
      var chainTasks;
      chainTasks, order := GetTaskChain(s);
      ApplyChainStart(s, chainTasks);
    }

    /** The state changes of `startChain` once the sorted chain is known: the start of `s` is
        scheduled 500 ms later under the next free handle and the chain's tasks are updated. */
    method ApplyChainStart(s: int, chainTasks: seq<Task>)
      modifies this`tasks, this`links, this`timerIntervals, this`alarmCheckers, this`effectSettings
      modifies this`pending, this`nextHandle
      requires Valid()
      ensures Valid() && Rebuilt()
      ensures tasks == StartChainList(old(tasks), chainTasks)
      ensures pending == old(pending) + [Timeout(old(nextHandle), clock + 500, StartTask(s))]
      ensures nextHandle == old(nextHandle) + 1
    {
      pending := pending + [Timeout(nextHandle, clock + 500, StartTask(s))];
      nextHandle := nextHandle + 1;
      assert TimeoutsValid();
      SetTasks(StartChainList(tasks, chainTasks));
    }

    /** `resetChain(ids)`: cancel the recorded chain timeout of each listed id, then reset the
        listed tasks. */
    method ResetChain(ids: seq<int>)
      modifies this`tasks, this`links, this`timerIntervals, this`alarmCheckers, this`effectSettings
      modifies this`pending, this`chainTimeouts
      requires Valid()
      ensures Valid() && Rebuilt() && tasks == ResetChainList(old(tasks), ids)
      ensures pending == KeepPending(old(pending), HandlesOf(old(chainTimeouts), ids))
      ensures chainTimeouts == Without(old(chainTimeouts), ids)
    {
      ghost var before, registered := pending, chainTimeouts;
      assert ids[..0] == [];
      assert HandlesOf(registered, []) == {};
      KeepPendingUnknown(before, {});
      assert chainTimeouts == Without(registered, []);
      var k := 0;
      while k < |ids|
        modifies this`pending, this`chainTimeouts
        invariant 0 <= k <= |ids|
        invariant pending == KeepPending(before, HandlesOf(registered, ids[..k]))
        invariant chainTimeouts == Without(registered, ids[..k])
      {
        var id := ids[k];
        CancelStep(before, registered, ids, k);
        if id in chainTimeouts {
          pending := KeepPending(pending, {chainTimeouts[id]});
          chainTimeouts := chainTimeouts - {id};
        }
        k := k + 1;
      }
      assert ids[..k] == ids;
      KeepPendingMembers(before, HandlesOf(registered, ids));
      SetTasks(ResetChainList(tasks, ids));
    }

    // ------------------------------------------------------------ settings

    /** `saveTelegramSettings(s)`: store the settings and send the confirmation when they are
        usable. The interval callbacks keep the old settings until the list next changes. */
    method SaveTelegramSettings(s: TelegramSettings)
      modifies this`settings, this`outbox
      requires Valid()
      ensures Valid() && settings == s && outbox == old(outbox) + EnabledMessages(s)
    {
      settings := s;
      outbox := outbox + EnabledMessages(s);
    }
  }
}
