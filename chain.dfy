/** Workflow chains over the link graph: the ordering `getTaskChain` applies, the progress figure
    of a chain, the tasks a completion starts, and the list updates the chain timeouts,
    `startChain` and `resetChain` apply. */
module Chain {

  import opened Wrappers
  import opened Tasks
  import opened LinkGraph

  // ---------------------------------------------------------------- ordering by chain position

  /** The sort key of `getTaskChain`: `chainPosition || 0`. */
  function Key(t: Task): int {
    t.chainPosition.GetOr(0)
  }

  predicate SortedByKey(s: seq<Task>) {
    forall i, j :: 0 <= i < j < |s| ==> Key(s[i]) <= Key(s[j])
  }

  /** The entries of `s` whose key is `k`, in order. */
  function WithKey(s: seq<Task>, k: int): seq<Task> {
    if s == [] then []
    else WithKey(s[..|s| - 1], k) + (if Key(s[|s| - 1]) == k then [s[|s| - 1]] else [])
  }

  /** Places `x` after every entry whose key is at most its own. */
  function Insert(s: seq<Task>, x: Task): seq<Task> {
    if s == [] || Key(s[|s| - 1]) <= Key(x) then s + [x]
    else Insert(s[..|s| - 1], x) + [s[|s| - 1]]
  }

  /** `chain.sort((a, b) => (a.chainPosition || 0) - (b.chainPosition || 0))`. The language's sort
      is stable, so this is insertion of each entry after the entries of equal key. */
  function SortByPosition(c: seq<Task>): seq<Task> {
    if c == [] then [] else Insert(SortByPosition(c[..|c| - 1]), c[|c| - 1])
  }

  lemma {:induction false} InsertMultiset(s: seq<Task>, x: Task)
    ensures multiset(Insert(s, x)) == multiset(s) + multiset{x}
  {
    if s != [] && Key(s[|s| - 1]) > Key(x) {
      var front, last := s[..|s| - 1], s[|s| - 1];
      InsertMultiset(front, x);
      assert s == front + [last];
    }
  }

  lemma {:induction false} InsertSorted(s: seq<Task>, x: Task)
    requires SortedByKey(s)
    ensures SortedByKey(Insert(s, x))
  {
    if s != [] && Key(s[|s| - 1]) > Key(x) {
      var front, last := s[..|s| - 1], s[|s| - 1];
      InsertSorted(front, x);
      InsertMultiset(front, x);
      var r := Insert(front, x);
      forall i | 0 <= i < |r| ensures Key(r[i]) <= Key(last) {
        assert r[i] in multiset(r);
        assert r[i] in multiset(front) || r[i] == x;
        if r[i] != x {
          var j :| 0 <= j < |front| && front[j] == r[i];
          assert s[j] == front[j];
        }
      }
    }
  }

  lemma WithKeyPush(s: seq<Task>, y: Task, k: int)
    ensures WithKey(s + [y], k) == WithKey(s, k) + (if Key(y) == k then [y] else [])
  {
    assert (s + [y])[..|s|] == s;
  }

  /** Inserting `x` appends it to the entries of its own key and leaves the other keys alone. */
  lemma {:induction false} InsertWithKey(s: seq<Task>, x: Task, k: int)
    ensures WithKey(Insert(s, x), k) == WithKey(s, k) + (if Key(x) == k then [x] else [])
  {
    if s == [] || Key(s[|s| - 1]) <= Key(x) {
      WithKeyPush(s, x, k);
    } else {
      var front, last := s[..|s| - 1], s[|s| - 1];
      var r := Insert(front, x);
      InsertWithKey(front, x, k);
      WithKeyPush(r, last, k);
      assert Insert(s, x) == r + [last];
      if Key(last) == k {
        assert Key(x) != k;
        assert WithKey(Insert(s, x), k) == WithKey(front, k) + [last];
      } else {
        assert WithKey(s, k) == WithKey(front, k);
      }
    }
  }

  /** The sorted chain is ordered by position and holds the same tasks. */
  lemma SortByPositionSpec(c: seq<Task>)
    ensures SortedByKey(SortByPosition(c))
    ensures multiset(SortByPosition(c)) == multiset(c)
  {
    SortByPositionSorted(c);
    SortByPositionMultiset(c);
  }

  lemma {:induction false} SortByPositionSorted(c: seq<Task>)
    ensures SortedByKey(SortByPosition(c))
  {
    if c != [] {
      SortByPositionSorted(c[..|c| - 1]);
      InsertSorted(SortByPosition(c[..|c| - 1]), c[|c| - 1]);
    }
  }

  lemma {:induction false} SortByPositionMultiset(c: seq<Task>)
    ensures multiset(SortByPosition(c)) == multiset(c)
  {
    if c != [] {
      var front, last := c[..|c| - 1], c[|c| - 1];
      SortByPositionMultiset(front);
      InsertMultiset(SortByPosition(front), last);
      assert c == front + [last];
    }
  }

  /** Stability: the tasks of any one position keep their visiting order. Together with
      `SortByPositionSpec` this determines the result. */
  lemma {:induction false} SortByPositionStable(c: seq<Task>, k: int)
    ensures WithKey(SortByPosition(c), k) == WithKey(c, k)
  {
    if c != [] {
      var front, last := c[..|c| - 1], c[|c| - 1];
      SortByPositionStable(front, k);
      InsertWithKey(SortByPosition(front), last, k);
    }
  }

  /** A chain already in position order is left as it is. */
  lemma {:induction false} SortSortedChain(c: seq<Task>)
    requires SortedByKey(c)
    ensures SortByPosition(c) == c
  {
    if c != [] {
      var front, last := c[..|c| - 1], c[|c| - 1];
      assert SortedByKey(front) by {
        forall i, j | 0 <= i < j < |front| ensures Key(front[i]) <= Key(front[j]) {
          assert front[i] == c[i] && front[j] == c[j];
        }
      }
      SortSortedChain(front);
      if front != [] {
        assert Key(front[|front| - 1]) <= Key(last) by {
          assert front[|front| - 1] == c[|c| - 2];
        }
      }
      assert front + [last] == c;
    }
  }

  // ---------------------------------------------------------------- chain progress

  /** `chainTasks.filter(task => task.isCompleted).length`. */
  function CompletedCount(c: seq<Task>): (r: nat)
    ensures r <= |c|
    ensures r == |c| <==> forall i :: 0 <= i < |c| ==> c[i].isCompleted
    ensures r == 0 <==> forall i :: 0 <= i < |c| ==> !c[i].isCompleted
  {
    if c == [] then 0 else CompletedCount(c[..|c| - 1]) + (if c[|c| - 1].isCompleted then 1 else 0)
  }

  /** `getChainProgress`: `Math.round(completed / length * 100)`, and 0 for an empty chain.
      `Math.round(y)` is `floor(y + 1/2)`, so this is `floor((200 * completed + n) / (2 * n))`. */
  function ChainProgress(c: seq<Task>): int {
    if |c| == 0 then 0 else (200 * CompletedCount(c) + |c|) / (2 * |c|)
  }

  lemma MulLess(x: int, y: int, b: int)
    requires b > 0 && x * b < y * b
    ensures x < y
  {
  }

  /** `a / b == q` from the bounds on `q`. */
  lemma QuotientIs(a: int, b: int, q: int)
    requires b > 0 && q * b <= a < (q + 1) * b
    ensures a / b == q
  {
    var r := a / b;
    assert a == r * b + a % b;
    MulLess(q, r + 1, b);
    MulLess(r, q + 1, b);
  }

  /** The rounded percentage of `done` out of `n`, as integers: within 0..100, 100 exactly when
      at most one in 200 is missing, 100 when nothing is missing and 0 when nothing is done. */
  lemma RoundedPercent(done: int, n: int)
    requires 0 <= done <= n && n > 0
    ensures 0 <= (200 * done + n) / (2 * n) <= 100
    ensures (200 * done + n) / (2 * n) == 100 <==> 200 * (n - done) <= n
    ensures done == n ==> (200 * done + n) / (2 * n) == 100
    ensures done == 0 ==> (200 * done + n) / (2 * n) == 0
  {
    var a, b := 200 * done + n, 2 * n;
    var q := a / b;
    assert a == q * b + a % b;
    MulLess(0, q + 1, b);
    MulLess(q, 101, b);
    if 200 * (n - done) <= n {
      MulLess(100, q + 1, b);
    }
    if q == 100 {
      assert 100 * b <= a;
    }
  }

  /** A chain's progress is a percentage. */
  lemma ProgressRange(c: seq<Task>)
    ensures 0 <= ChainProgress(c) <= 100
  {
    if |c| > 0 {
      RoundedPercent(CompletedCount(c), |c|);
    }
  }

  /** A chain whose tasks are all completed shows 100, one with none completed shows 0. */
  lemma ProgressEnds(c: seq<Task>)
    requires |c| > 0
    ensures CompletedCount(c) == |c| ==> ChainProgress(c) == 100
    ensures CompletedCount(c) == 0 ==> ChainProgress(c) == 0
  {
    RoundedPercent(CompletedCount(c), |c|);
  }

  /** The figure reads 100 exactly when at most one task in 200 is unfinished: rounding reports a
      long chain with one open task as done. */
  lemma ProgressFull(c: seq<Task>)
    requires |c| > 0
    ensures ChainProgress(c) == 100 <==> 200 * (|c| - CompletedCount(c)) <= |c|
  {
    var done, n := CompletedCount(c), |c|;
    RoundedPercent(done, n);
    assert ChainProgress(c) == (200 * done + n) / (2 * n);
  }

  /** Below 200 tasks, 100 means every task is completed. */
  lemma ProgressFullShortChain(c: seq<Task>)
    requires 0 < |c| < 200
    ensures ChainProgress(c) == 100 <==> CompletedCount(c) == |c|
  {
    ProgressFull(c);
  }

  // ---------------------------------------------------------------- what a completion starts

  /** `task.linkedTo.map(id => tasks.find(t => t.id === id)).filter(Boolean)`: the tasks the
      completion of a task with these links schedules, in link order, unknown ids dropped. */
  function Downstream(ts: seq<Task>, ids: seq<int>): (r: seq<Task>)
    ensures |r| <= |ids|
    ensures forall k :: 0 <= k < |r| ==> r[k] in ts && r[k].id in ids
  {
    if ids == [] then []
    else (match Find(ts, ids[0]) case Some(t) => [t] case None => []) + Downstream(ts, ids[1..])
  }

  /** A task is scheduled exactly when it is what `find` returns for one of the links. */
  lemma {:induction false} DownstreamMembers(ts: seq<Task>, ids: seq<int>, t: Task)
    ensures t in Downstream(ts, ids) <==> exists j :: 0 <= j < |ids| && Find(ts, ids[j]) == Some(t)
  {
    if ids != [] {
      DownstreamMembers(ts, ids[1..], t);
      if exists j :: 0 <= j < |ids| && Find(ts, ids[j]) == Some(t) {
        var j :| 0 <= j < |ids| && Find(ts, ids[j]) == Some(t);
        if j > 0 {
          assert ids[1..][j - 1] == ids[j];
        }
      }
      if t in Downstream(ts, ids[1..]) {
        var j :| 0 <= j < |ids[1..]| && Find(ts, ids[1..][j]) == Some(t);
        assert ids[j + 1] == ids[1..][j];
      }
    }
  }

  /** When no link has a task, nothing is scheduled. */
  lemma {:induction false} DownstreamNoneFound(ts: seq<Task>, ids: seq<int>)
    requires forall j :: 0 <= j < |ids| ==> Find(ts, ids[j]).None?
    ensures Downstream(ts, ids) == []
  {
    if ids != [] {
      assert forall j :: 0 <= j < |ids[1..]| ==> ids[1..][j] == ids[j + 1];
      DownstreamNoneFound(ts, ids[1..]);
    }
  }

  /** When every link has a task, the scheduled list is exactly those tasks in link order. */
  lemma {:induction false} DownstreamAllFound(ts: seq<Task>, ids: seq<int>)
    requires forall j :: 0 <= j < |ids| ==> Find(ts, ids[j]).Some?
    ensures |Downstream(ts, ids)| == |ids|
    ensures forall j :: 0 <= j < |ids| ==> Downstream(ts, ids)[j] == Find(ts, ids[j]).value
  {
    if ids != [] {
      assert forall j :: 0 <= j < |ids[1..]| ==> ids[1..][j] == ids[j + 1];
      DownstreamAllFound(ts, ids[1..]);
      assert Downstream(ts, ids) == [Find(ts, ids[0]).value] + Downstream(ts, ids[1..]);
    }
  }

  // ---------------------------------------------------------------- chain list updates

  /** The chain timeout's update on one task: a task with the scheduled id that is neither running
      nor completed starts, as chain position `index + 1`; any other task is left as it is. */
  function ActivateTask(t: Task, id: int, index: nat): Task {
    if t.id == id && !t.isRunning && !t.isCompleted
    then t.(isRunning := true, isChainActive := Some(true), chainPosition := Some(index + 1))
    else t
  }

  function ActivateList(ts: seq<Task>, id: int, index: nat): (r: seq<Task>)
    ensures |r| == |ts|
  {
    seq(|ts|, i requires 0 <= i < |ts| => ActivateTask(ts[i], id, index))
  }

  /** Activation starts exactly the idle tasks with the id, keeps every task coherent, and firing
      the same activation again changes nothing. */
  lemma ActivateSpec(ts: seq<Task>, id: int, index: nat, i: nat)
    requires i < |ts|
    ensures ts[i].id == id && Idle(ts[i]) ==> ActivateList(ts, id, index)[i].isRunning
                                              && ActivateList(ts, id, index)[i].chainPosition == Some(index + 1)
    ensures !(ts[i].id == id && Idle(ts[i])) ==> ActivateList(ts, id, index)[i] == ts[i]
    ensures Coherent(ts[i]) ==> Coherent(ActivateList(ts, id, index)[i])
    ensures ActivateList(ActivateList(ts, id, index), id, index)[i] == ActivateList(ts, id, index)[i]
  {
  }

  /** `startChain`'s first update on one task of the sorted chain `chain`: stopped, not
      completed, back to its configured duration, chain-active, at the position of its id in the
      chain plus one. Tasks outside the chain are left as they are. */
  function StartChainTask(t: Task, chain: seq<Task>): Task {
    match FindIndex(chain, t.id)
    case None => t
    case Some(i) =>
      t.(isRunning := false, isCompleted := false, time := t.originalTime,
         isChainActive := Some(true), chainPosition := Some(i + 1))
  }

  function StartChainList(ts: seq<Task>, chain: seq<Task>): (r: seq<Task>)
    ensures |r| == |ts|
  {
    seq(|ts|, i requires 0 <= i < |ts| => StartChainTask(ts[i], chain))
  }

  /** After `startChain`'s reset every task of the chain is idle and numbered within the chain,
      tasks with different ids get different numbers, and other tasks are untouched. */
  lemma StartChainPositions(ts: seq<Task>, chain: seq<Task>, i: nat, j: nat)
    requires i < |ts| && j < |ts|
    ensures var r := StartChainList(ts, chain);
      (ts[i].id in Ids(chain) ==> Idle(r[i]) && r[i].chainPosition.Some?
                                  && 1 <= r[i].chainPosition.value <= |chain|
                                  && chain[r[i].chainPosition.value - 1].id == ts[i].id)
      && (ts[i].id !in Ids(chain) ==> r[i] == ts[i])
      && (ts[i].id in Ids(chain) && ts[j].id in Ids(chain) && ts[i].id != ts[j].id ==>
            r[i].chainPosition != r[j].chainPosition)
  {
    ChainMember(chain, ts[i].id);
    ChainMember(chain, ts[j].id);
  }

  /** Starting the chain of three new tasks, the first linking to the other two, numbers them
      in walk order: the first task 1, its first link 2 and its second link 3. */
  lemma StartFreshChainNumbering()
    ensures var ts := [NewTask(1).(linkedTo := [2, 3]), NewTask(2), NewTask(3)];
            var r := StartChainList(ts, SortByPosition(DepthFirst(ts, 1)));
            r[0].chainPosition == Some(1) && r[1].chainPosition == Some(2) && r[2].chainPosition == Some(3)
  {
    var ts := [NewTask(1).(linkedTo := [2, 3]), NewTask(2), NewTask(3)];
    DepthFirstFollowsLinks();
    assert SortedByKey(ts);
    SortSortedChain(ts);
    StartChainInOrder(ts);
  }

  /** A chain started in its own order numbers its tasks 1, 2, 3, ... */
  lemma StartChainInOrder(c: seq<Task>)
    requires DistinctIds(c)
    ensures forall k :: 0 <= k < |c| ==> StartChainList(c, c)[k].chainPosition == Some(k + 1)
  {
    forall k | 0 <= k < |c| ensures StartChainList(c, c)[k].chainPosition == Some(k + 1) {
      assert FindIndex(c, c[k].id) == Some(k);
    }
  }

  /** An id occurs in the chain exactly when `findIndex` finds it. */
  lemma ChainMember(chain: seq<Task>, id: int)
    ensures id in Ids(chain) <==> FindIndex(chain, id).Some?
  {
    if id in Ids(chain) {
      var k :| 0 <= k < |chain| && chain[k].id == id;
    }
  }

  /** `startChain`'s delayed update: every task with the start id is set running. */
  function StartTaskList(ts: seq<Task>, id: int): seq<Task> {
    RunningList(ts, id, true)
  }

  /** `resetChain(ids)`'s update: every task whose id is listed gets `resetTimer`'s update. */
  function ResetChainList(ts: seq<Task>, ids: seq<int>): (r: seq<Task>)
    ensures |r| == |ts|
  {
    seq(|ts|, i requires 0 <= i < |ts| => if ts[i].id in ids then ResetTimerTask(ts[i]) else ts[i])
  }

  /** After `resetChain` the listed tasks are idle, out of the chain and at their configured
      duration, the others untouched; resetting twice is resetting once. */
  lemma ResetChainSpec(ts: seq<Task>, ids: seq<int>, i: nat)
    requires i < |ts|
    ensures ts[i].id in ids ==> Idle(ResetChainList(ts, ids)[i])
                                && ResetChainList(ts, ids)[i].chainPosition.None?
                                && ResetChainList(ts, ids)[i].time == ts[i].originalTime
    ensures ts[i].id !in ids ==> ResetChainList(ts, ids)[i] == ts[i]
    ensures ResetChainList(ResetChainList(ts, ids), ids)[i] == ResetChainList(ts, ids)[i]
  {
  }

  /** A chain that was started and then reset leaves every task of the chain out of the chain,
      whatever positions the start gave. */
  lemma StartThenReset(ts: seq<Task>, chain: seq<Task>, ids: seq<int>, i: nat)
    requires i < |ts| && forall c :: c in chain ==> c.id in ids
    ensures ts[i].id in Ids(chain) ==> ResetChainList(StartChainList(ts, chain), ids)[i].chainPosition.None?
  {
    if ts[i].id in Ids(chain) {
      var k :| 0 <= k < |chain| && chain[k].id == ts[i].id;
      assert chain[k] in chain;
    }
  }
}
