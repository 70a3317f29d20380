/** The server's in-memory task storage: one task list per session, the time each session was
    last written, and the upsert, merge-update, delete and clear operations the task routes call.
    `Date.now()` is the `now` parameter of every operation that reads it. */
module SessionStore {

  import opened Wrappers
  import opened Tasks

  // ---------------------------------------------------------------- upsert

  /** The list `addTask` stores: the first task with the new task's id replaced by it, or the new
      task pushed at the end. */
  function Upsert(ts: seq<Task>, t: Task): seq<Task> {
    match FindIndex(ts, t.id)
    case Some(i) => ts[i := t]
    case None => ts + [t]
  }

  /** Upserting replaces the first task with the id in place and keeps every other position, or
      appends when there is none; the count grows by at most one and a lookup of the id finds the
      new task. */
  lemma UpsertSpec(ts: seq<Task>, t: Task)
    ensures |ts| <= |Upsert(ts, t)| <= |ts| + 1
    ensures HasTask(ts, t.id) ==> |Upsert(ts, t)| == |ts|
    ensures FindIndex(ts, t.id).Some? ==>
              Upsert(ts, t)[FindIndex(ts, t.id).value] == t
              && forall j :: 0 <= j < |ts| && j != FindIndex(ts, t.id).value ==> Upsert(ts, t)[j] == ts[j]
    ensures !HasTask(ts, t.id) ==> Upsert(ts, t) == ts + [t]
    ensures Find(Upsert(ts, t), t.id) == Some(t)
  {
    FindHasTask(ts, t.id);
    var r := Upsert(ts, t);
    match FindIndex(ts, t.id)
    case Some(i) =>
      assert forall j :: 0 <= j < i ==> r[j].id != t.id;
      FirstWithId(r, t.id, i);
    case None =>
      assert forall j :: 0 <= j < |ts| ==> r[j].id != t.id;
      FirstWithId(r, t.id, |ts|);
  }

  /** A task at position `i` that no earlier task shares the id with is what `find` returns. */
  lemma FirstWithId(ts: seq<Task>, id: int, i: nat)
    requires i < |ts| && ts[i].id == id
    requires forall j :: 0 <= j < i ==> ts[j].id != id
    ensures FindIndex(ts, id) == Some(i)
    ensures Find(ts, id) == Some(ts[i])
  {
    match FindIndex(ts, id)
    case None =>
    case Some(k) =>
      assert !(k < i) && !(i < k);
  }

  /** Upserting an id never changes what a lookup of another id finds. */
  lemma UpsertKeepsOtherIds(ts: seq<Task>, t: Task, id: int)
    requires id != t.id
    ensures Find(Upsert(ts, t), id) == Find(ts, id)
  {
    var r := Upsert(ts, t);
    assert forall j :: 0 <= j < |ts| ==> (r[j].id == id <==> ts[j].id == id);
    match FindIndex(ts, id)
    case Some(i) =>
      FirstWithId(r, id, i);
    case None =>
      assert forall j :: 0 <= j < |r| ==> r[j].id != id;
  }

  /** Upserting the same task twice stores what upserting once does. */
  lemma UpsertIdempotent(ts: seq<Task>, t: Task)
    ensures Upsert(Upsert(ts, t), t) == Upsert(ts, t)
  {
    UpsertSpec(ts, t);
    var r := Upsert(ts, t);
    FindHasTask(r, t.id);
    assert FindIndex(r, t.id).Some?;
    var i := FindIndex(r, t.id).value;
    assert r[i] == t;
    assert r[i := t] == r;
  }

  // ---------------------------------------------------------------- merge update

  /** `Partial<Task>`: the fields an update carries; a missing field is None. */
  datatype Patch = Patch(
    id: Option<int>,
    title: Option<string>,
    time: Option<string>,
    originalTime: Option<string>,
    isRunning: Option<bool>,
    isCompleted: Option<bool>,
    telegramNotifications: Option<bool>,
    mode: Option<Mode>,
    alarmTime: Option<Option<string>>,
    alarmDate: Option<Option<string>>,
    linkedTo: Option<seq<int>>,
    linkedFrom: Option<seq<int>>,
    chainPosition: Option<Option<int>>,
    isChainActive: Option<Option<bool>>,
    completionCount: Option<Option<int>>)

  /** The update that carries no field. */
  function NoChange(): Patch {
    Patch(None, None, None, None, None, None, None, None, None, None, None, None, None, None, None)
  }

  /** The update that carries every field of `u`. */
  function Whole(u: Task): Patch {
    Patch(Some(u.id), Some(u.title), Some(u.time), Some(u.originalTime), Some(u.isRunning),
          Some(u.isCompleted), Some(u.telegramNotifications), Some(u.mode), Some(u.alarmTime),
          Some(u.alarmDate), Some(u.linkedTo), Some(u.linkedFrom), Some(u.chainPosition),
          Some(u.isChainActive), Some(u.completionCount))
  }

  /** `{ ...t, ...updates, id }`: every field the update carries overrides the task's, and the id
      is put back afterwards. */
  function Merge(t: Task, p: Patch, id: int): Task {
    Task(id,
         p.title.GetOr(t.title), p.time.GetOr(t.time), p.originalTime.GetOr(t.originalTime),
         p.isRunning.GetOr(t.isRunning), p.isCompleted.GetOr(t.isCompleted),
         p.telegramNotifications.GetOr(t.telegramNotifications), p.mode.GetOr(t.mode),
         p.alarmTime.GetOr(t.alarmTime), p.alarmDate.GetOr(t.alarmDate),
         p.linkedTo.GetOr(t.linkedTo), p.linkedFrom.GetOr(t.linkedFrom),
         p.chainPosition.GetOr(t.chainPosition), p.isChainActive.GetOr(t.isChainActive),
         p.completionCount.GetOr(t.completionCount))
  }

  /** The merged task keeps the id it was looked up by whatever id the update carries; an empty
      update changes nothing, a whole task replaces everything but the id, and merging the same
      update twice is merging it once. */
  lemma MergeSpec(t: Task, p: Patch, u: Task)
    ensures Merge(t, p, t.id).id == t.id
    ensures Merge(t, NoChange(), t.id) == t
    ensures Merge(t, Whole(u), t.id) == u.(id := t.id)
    ensures Merge(Merge(t, p, t.id), p, t.id) == Merge(t, p, t.id)
  {
  }

  /** A field the update does not carry keeps the task's value; one it carries takes the update's.
      The id is the one given, whatever the update carries. */
  lemma MergeFields(t: Task, p: Patch, id: int)
    ensures Merge(t, p, id).id == id
    ensures p.title.None? ==> Merge(t, p, id).title == t.title
    ensures p.title.Some? ==> Merge(t, p, id).title == p.title.value
    ensures p.time.None? ==> Merge(t, p, id).time == t.time
    ensures p.time.Some? ==> Merge(t, p, id).time == p.time.value
    ensures p.originalTime.None? ==> Merge(t, p, id).originalTime == t.originalTime
    ensures p.originalTime.Some? ==> Merge(t, p, id).originalTime == p.originalTime.value
    ensures p.isRunning.None? ==> Merge(t, p, id).isRunning == t.isRunning
    ensures p.isRunning.Some? ==> Merge(t, p, id).isRunning == p.isRunning.value
    ensures p.isCompleted.None? ==> Merge(t, p, id).isCompleted == t.isCompleted
    ensures p.isCompleted.Some? ==> Merge(t, p, id).isCompleted == p.isCompleted.value
    ensures p.telegramNotifications.None? ==> Merge(t, p, id).telegramNotifications == t.telegramNotifications
    ensures p.telegramNotifications.Some? ==> Merge(t, p, id).telegramNotifications == p.telegramNotifications.value
    ensures p.mode.None? ==> Merge(t, p, id).mode == t.mode
    ensures p.mode.Some? ==> Merge(t, p, id).mode == p.mode.value
    ensures p.alarmTime.None? ==> Merge(t, p, id).alarmTime == t.alarmTime
    ensures p.alarmTime.Some? ==> Merge(t, p, id).alarmTime == p.alarmTime.value
    ensures p.alarmDate.None? ==> Merge(t, p, id).alarmDate == t.alarmDate
    ensures p.alarmDate.Some? ==> Merge(t, p, id).alarmDate == p.alarmDate.value
    ensures p.linkedTo.None? ==> Merge(t, p, id).linkedTo == t.linkedTo
    ensures p.linkedTo.Some? ==> Merge(t, p, id).linkedTo == p.linkedTo.value
    ensures p.linkedFrom.None? ==> Merge(t, p, id).linkedFrom == t.linkedFrom
    ensures p.linkedFrom.Some? ==> Merge(t, p, id).linkedFrom == p.linkedFrom.value
    ensures p.chainPosition.None? ==> Merge(t, p, id).chainPosition == t.chainPosition
    ensures p.chainPosition.Some? ==> Merge(t, p, id).chainPosition == p.chainPosition.value
    ensures p.isChainActive.None? ==> Merge(t, p, id).isChainActive == t.isChainActive
    ensures p.isChainActive.Some? ==> Merge(t, p, id).isChainActive == p.isChainActive.value
    ensures p.completionCount.None? ==> Merge(t, p, id).completionCount == t.completionCount
    ensures p.completionCount.Some? ==> Merge(t, p, id).completionCount == p.completionCount.value
  {
  }

  // ---------------------------------------------------------------- splice delete

  /** `tasks.splice(i, 1)`: the list without position `i`. */
  function Splice(ts: seq<Task>, i: nat): seq<Task>
    requires i < |ts|
  {
    ts[..i] + ts[i + 1..]
  }

  /** Removing one position keeps the others in order, shortens the list by one and removes
      exactly one copy of the element. */
  lemma SpliceSpec(ts: seq<Task>, i: nat)
    requires i < |ts|
    ensures |Splice(ts, i)| == |ts| - 1
    ensures forall j :: 0 <= j < i ==> Splice(ts, i)[j] == ts[j]
    ensures forall j :: i <= j < |ts| - 1 ==> Splice(ts, i)[j] == ts[j + 1]
    ensures multiset(Splice(ts, i)) + multiset{ts[i]} == multiset(ts)
  {
    assert ts == ts[..i] + [ts[i]] + ts[i + 1..];
  }

  // ---------------------------------------------------------------- statistics

  /** One row of `getSessionStats`. */
  datatype SessionStat = SessionStat(sessionId: string, taskCount: nat, lastSync: int)

  /** `this.sessions.get(s) || []` on the map value. */
  function TasksIn(sessions: map<string, seq<Task>>, s: string): (r: seq<Task>)
    ensures s !in sessions ==> r == []
  {
    if s in sessions then sessions[s] else []
  }

  /** `this.sessionSyncTimes.get(s) || Date.now()`: a missing entry, like a stored 0, is falsy. */
  function SyncTimeIn(times: map<string, int>, s: string, now: int): (r: int)
    ensures s !in times ==> r == now
    ensures r == now || (s in times && r == times[s])
  {
    if s in times && times[s] != 0 then times[s] else now
  }

  /** The statistic rows of the sessions listed in `order`, in that order. */
  function StatsOf(order: seq<string>, sessions: map<string, seq<Task>>, times: map<string, int>, now: int): (r: seq<SessionStat>)
    ensures |r| == |order|
    ensures forall i :: 0 <= i < |order| ==>
              r[i] == SessionStat(order[i], |TasksIn(sessions, order[i])|, SyncTimeIn(times, order[i], now))
  {
    if order == [] then []
    else [SessionStat(order[0], |TasksIn(sessions, order[0])|, SyncTimeIn(times, order[0], now))]
         + StatsOf(order[1..], sessions, times, now)
  }

  /** No session is listed twice. */
  predicate Distinct(order: seq<string>) {
    forall i, j :: 0 <= i < j < |order| ==> order[i] != order[j]
  }

  /** A list without repetitions has as many entries as the set of its entries. */
  lemma {:induction false} DistinctCard(order: seq<string>)
    requires Distinct(order)
    ensures |set s | s in order| == |order|
  {
    if order != [] {
      var rest := order[1..];
      assert Distinct(rest) by {
        forall i, j | 0 <= i < j < |rest|
          ensures rest[i] != rest[j]
        {
          assert rest[i] == order[i + 1] && rest[j] == order[j + 1];
        }
      }
      DistinctCard(rest);
      assert order[0] !in rest by {
        forall j | 0 <= j < |rest|
          ensures rest[j] != order[0]
        {
          assert rest[j] == order[j + 1];
        }
      }
      assert (set s | s in order) == (set s | s in rest) + {order[0]} by {
        assert order == [order[0]] + rest;
      }
    }
  }

  /** The order `Map.set` keeps: a new key goes to the end, an existing one keeps its place. */
  function InsertOrder(order: seq<string>, s: string): (r: seq<string>)
    ensures Distinct(order) ==> Distinct(r)
    ensures forall k :: k in r <==> k in order || k == s
  {
    if s in order then order else order + [s]
  }

  // ---------------------------------------------------------------- the store

  class SessionTasksStore {
    /** The tasks of each session. */
    var sessions: map<string, seq<Task>>
    /** When each session was last written. */
    var sessionSyncTimes: map<string, int>
    /** The sessions in the order the `Map` first saw them, which `keys()` reproduces. */
    var sessionOrder: seq<string>

    /** Both maps are written together, and the order lists every session once. */
    ghost predicate Valid()
      reads this
    {
      sessionSyncTimes.Keys == sessions.Keys
      && Distinct(sessionOrder)
      && forall s :: s in sessionOrder <==> s in sessions
    }

    constructor ()
      ensures Valid()
      ensures sessions == map[] && sessionSyncTimes == map[] && sessionOrder == []
    {
      sessions := map[];
      sessionSyncTimes := map[];
      sessionOrder := [];
    }

    /** `getTasks(sessionId)`: the stored list, or an empty one for a session never written. */
    function GetTasks(sessionId: string): (r: seq<Task>)
      reads this
      ensures sessionId !in sessions ==> r == []
      ensures sessionId in sessions ==> r == sessions[sessionId]
    {
      TasksIn(sessions, sessionId)
    }

    /** `getLastSyncTime(sessionId)`: the last write's time, or `now` for a session never written. */
    function GetLastSyncTime(sessionId: string, now: int): (r: int)
      reads this
      ensures sessionId !in sessionSyncTimes ==> r == now
      ensures sessionId in sessionSyncTimes && sessionSyncTimes[sessionId] != 0 ==> r == sessionSyncTimes[sessionId]
    {
      SyncTimeIn(sessionSyncTimes, sessionId, now)
    }

    /** `getTaskCount(sessionId)`. */
    function GetTaskCount(sessionId: string): (r: nat)
      reads this
      ensures r == |GetTasks(sessionId)|
      ensures sessionId !in sessions ==> r == 0
    {
      |GetTasks(sessionId)|
    }

    /** `findTask(sessionId, id)`: the first stored task with the id. */
    function FindTask(sessionId: string, id: int): (r: Option<Task>)
      reads this
      ensures r.Some? <==> HasTask(GetTasks(sessionId), id)
      ensures r.Some? ==> r.value in GetTasks(sessionId) && r.value.id == id
    {
      FindHasTask(GetTasks(sessionId), id);
      Find(GetTasks(sessionId), id)
    }

    /** `getSessionCount()`: how many sessions were ever written. */
    function GetSessionCount(): (r: nat)
      reads this
      requires Valid()
      ensures r == |sessions| == |sessionOrder|
    {
      DistinctCard(sessionOrder);
      assert (set s | s in sessionOrder) == sessions.Keys;
      |sessions|
    }

    /** `getAllSessions()`: every session written, each once, in first-write order. */
    function GetAllSessions(): (r: seq<string>)
      reads this
      requires Valid()
      ensures Distinct(r)
      ensures forall s :: s in r <==> s in sessions
    {
      sessionOrder
    }

    /** `getSessionStats()`: one row per session, in the order of `getAllSessions`, with its task
        count and last sync time. */
    function GetSessionStats(now: int): (r: seq<SessionStat>)
      reads this
      requires Valid()
      ensures |r| == |GetAllSessions()|
      ensures forall i :: 0 <= i < |r| ==>
                r[i].sessionId == GetAllSessions()[i]
                && r[i].taskCount == GetTaskCount(r[i].sessionId)
                && r[i].lastSync == GetLastSyncTime(r[i].sessionId, now)
    {
      StatsOf(sessionOrder, sessions, sessionSyncTimes, now)
    }

    /** `setTasks(sessionId, tasks)` at time `now`: the session holds the list and was synced now;
        no other session changes. */
    method SetTasks(sessionId: string, tasks: seq<Task>, now: int)
      requires Valid()
      modifies this
      ensures Valid()
      ensures sessions == old(sessions)[sessionId := tasks]
      ensures sessionSyncTimes == old(sessionSyncTimes)[sessionId := now]
      ensures sessionOrder == InsertOrder(old(sessionOrder), sessionId)
      ensures GetTasks(sessionId) == tasks
      ensures now != 0 ==> GetLastSyncTime(sessionId, now) == now
    {
      sessionOrder := InsertOrder(sessionOrder, sessionId);
      sessions := sessions[sessionId := tasks];
      sessionSyncTimes := sessionSyncTimes[sessionId := now];
    }

    /** `addTask(sessionId, task)`: the task is upserted into the session's list, which is then
        written back. */
    method AddTask(sessionId: string, task: Task, now: int)
      requires Valid()
      modifies this
      ensures Valid()
      ensures sessions == old(sessions)[sessionId := Upsert(old(GetTasks(sessionId)), task)]
      ensures sessionSyncTimes == old(sessionSyncTimes)[sessionId := now]
      ensures sessionOrder == InsertOrder(old(sessionOrder), sessionId)
      ensures FindTask(sessionId, task.id) == Some(task)
      ensures old(GetTaskCount(sessionId)) <= GetTaskCount(sessionId) <= old(GetTaskCount(sessionId)) + 1
    {
      var tasks := GetTasks(sessionId);
      UpsertSpec(tasks, task);
      SetTasks(sessionId, Upsert(tasks, task), now);
    }

    /** `updateTask(sessionId, id, updates)`: None and no change when the session has no task with
        the id; otherwise the first such task is merged with the update, keeping its id, the list
        is written back and the merged task returned. */
    method UpdateTask(sessionId: string, id: int, updates: Patch, now: int) returns (r: Option<Task>)
      requires Valid()
      modifies this
      ensures Valid()
      ensures FindIndex(old(GetTasks(sessionId)), id).None? ==>
                r.None? && sessions == old(sessions) && sessionSyncTimes == old(sessionSyncTimes)
                && sessionOrder == old(sessionOrder)
      ensures FindIndex(old(GetTasks(sessionId)), id).Some? ==>
                var i := FindIndex(old(GetTasks(sessionId)), id).value;
                var merged := Merge(old(GetTasks(sessionId))[i], updates, id);
                r == Some(merged) && merged.id == id
                && sessions == old(sessions)[sessionId := old(GetTasks(sessionId))[i := merged]]
                && sessionSyncTimes == old(sessionSyncTimes)[sessionId := now]
                && sessionOrder == InsertOrder(old(sessionOrder), sessionId)
    {
      var tasks := GetTasks(sessionId);
      match FindIndex(tasks, id)
      case None =>
        r := None;
      case Some(i) =>
        var merged := Merge(tasks[i], updates, id);
        SetTasks(sessionId, tasks[i := merged], now);
        r := Some(merged);
    }

    /** `deleteTask(sessionId, id)`: None and no change when the session has no task with the id;
        otherwise the first such task is spliced out, the list written back and the task returned. */
    method DeleteTask(sessionId: string, id: int, now: int) returns (r: Option<Task>)
      requires Valid()
      modifies this
      ensures Valid()
      ensures FindIndex(old(GetTasks(sessionId)), id).None? ==>
                r.None? && sessions == old(sessions) && sessionSyncTimes == old(sessionSyncTimes)
                && sessionOrder == old(sessionOrder)
      ensures FindIndex(old(GetTasks(sessionId)), id).Some? ==>
                var i := FindIndex(old(GetTasks(sessionId)), id).value;
                r == Some(old(GetTasks(sessionId))[i]) && r.value.id == id
                && sessions == old(sessions)[sessionId := Splice(old(GetTasks(sessionId)), i)]
                && sessionSyncTimes == old(sessionSyncTimes)[sessionId := now]
                && sessionOrder == InsertOrder(old(sessionOrder), sessionId)
                && GetTaskCount(sessionId) == old(GetTaskCount(sessionId)) - 1
    {
      var tasks := GetTasks(sessionId);
      match FindIndex(tasks, id)
      case None =>
        r := None;
      case Some(i) =>
        SpliceSpec(tasks, i);
        SetTasks(sessionId, Splice(tasks, i), now);
        r := Some(tasks[i]);
    }

    /** `clearAllTasks(sessionId)`: the session is left empty and synced now. */
    method ClearAllTasks(sessionId: string, now: int)
      requires Valid()
      modifies this
      ensures Valid()
      ensures sessions == old(sessions)[sessionId := []]
      ensures sessionSyncTimes == old(sessionSyncTimes)[sessionId := now]
      ensures sessionOrder == InsertOrder(old(sessionOrder), sessionId)
      ensures GetTaskCount(sessionId) == 0
    {
      sessionOrder := InsertOrder(sessionOrder, sessionId);
      sessions := sessions[sessionId := []];
      sessionSyncTimes := sessionSyncTimes[sessionId := now];
    }
  }

  /** A write to one session leaves every other session's tasks and sync time as they were. */
  lemma WriteIsolated(sessions: map<string, seq<Task>>, times: map<string, int>, s: string, other: string,
                      ts: seq<Task>, now: int, later: int)
    requires other != s
    ensures TasksIn(sessions[s := ts], other) == TasksIn(sessions, other)
    ensures SyncTimeIn(times[s := now], other, later) == SyncTimeIn(times, other, later)
    ensures TasksIn(sessions[s := ts], s) == ts
    ensures now != 0 ==> SyncTimeIn(times[s := now], s, later) == now
  {
  }
}
