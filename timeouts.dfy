/** The pending one-shot timeouts of the provider, made explicit: each has a handle, the logical
    time it falls due and what it does. `handleTaskComplete` schedules one activation per
    downstream task and records its handle in `chainTimeouts` under the task's id;
    `clearTimeout` removes a pending timeout by handle. */
module Timeouts {

  import opened Tasks

  /** What a timeout does when it fires: a chain activation of the task with `taskId` as the
      `index`-th downstream task, or `startChain`'s delayed start of its first task. */
  datatype Action = Activate(taskId: int, index: nat) | StartTask(taskId: int)

  datatype Timeout = Timeout(handle: nat, due: int, action: Action)

  /** The delay of the `index`-th downstream activation: `index * 1000` ms, so the first one
      runs at once. */
  function ActivationDelay(index: nat): nat {
    index * 1000
  }

  /** The timeouts scheduled for the downstream tasks `ds` at time `now`, the `k`-th with handle
      `first + k`. */
  function Scheduled(ds: seq<Task>, now: int, first: nat): (r: seq<Timeout>)
    ensures |r| == |ds|
  {
    if ds == [] then []
    else
      var k := |ds| - 1;
      Scheduled(ds[..k], now, first) + [Timeout(first + k, now + ActivationDelay(k), Activate(ds[k].id, k))]
  }

  /** The `k`-th downstream task is activated as index `k`, `k` seconds after the completion,
      under a handle no earlier timeout has. */
  lemma {:induction false} ScheduledSpec(ds: seq<Task>, now: int, first: nat, k: nat)
    requires k < |ds|
    ensures Scheduled(ds, now, first)[k] == Timeout(first + k, now + k * 1000, Activate(ds[k].id, k))
  {
    var n := |ds| - 1;
    if k < n {
      ScheduledSpec(ds[..n], now, first, k);
    }
  }

  /** Every scheduled timeout falls due no earlier than `now` and has one of the handles
      `first .. first + |ds| - 1`. */
  lemma ScheduledBounds(ds: seq<Task>, now: int, first: nat, t: Timeout)
    requires t in Scheduled(ds, now, first)
    ensures first <= t.handle < first + |ds| && now <= t.due
  {
    var r := Scheduled(ds, now, first);
    var k :| 0 <= k < |r| && r[k] == t;
    ScheduledSpec(ds, now, first, k);
  }

  /** `chainTimeouts.set(linkedTask.id, timeout)` for each downstream task in order: a later task
      with the same id overwrites the handle of an earlier one. */
  function Register(m: map<int, nat>, ds: seq<Task>, first: nat): map<int, nat> {
    if ds == [] then m
    else
      var k := |ds| - 1;
      Register(m, ds[..k], first)[ds[k].id := first + k]
  }

  /** The registry holds a downstream id exactly when it held it before or some downstream task
      has it. */
  lemma {:induction false} RegisterDomain(m: map<int, nat>, ds: seq<Task>, first: nat, id: int)
    ensures id in Register(m, ds, first) <==> id in m || exists k :: 0 <= k < |ds| && ds[k].id == id
  {
    if ds != [] {
      var n := |ds| - 1;
      RegisterDomain(m, ds[..n], first, id);
      if exists k :: 0 <= k < |ds| && ds[k].id == id {
        var k :| 0 <= k < |ds| && ds[k].id == id;
        if k < n {
          assert ds[..n][k] == ds[k];
        }
      }
    }
  }

  /** An id no downstream task has keeps its old handle. */
  lemma {:induction false} RegisterKept(m: map<int, nat>, ds: seq<Task>, first: nat, id: int)
    requires id in m && forall k :: 0 <= k < |ds| ==> ds[k].id != id
    ensures id in Register(m, ds, first) && Register(m, ds, first)[id] == m[id]
  {
    if ds != [] {
      var n := |ds| - 1;
      assert forall k :: 0 <= k < n ==> ds[..n][k] == ds[k];
      RegisterKept(m, ds[..n], first, id);
    }
  }

  /** A downstream id ends up with the handle of the last downstream task that has it. */
  lemma {:induction false} RegisterLast(m: map<int, nat>, ds: seq<Task>, first: nat, k: nat)
    requires k < |ds| && forall j :: k < j < |ds| ==> ds[j].id != ds[k].id
    ensures ds[k].id in Register(m, ds, first) && Register(m, ds, first)[ds[k].id] == first + k
  {
    var n := |ds| - 1;
    if k < n {
      assert forall j :: k < j < n ==> ds[..n][j] == ds[j];
      assert ds[..n][k] == ds[k];
      RegisterLast(m, ds[..n], first, k);
    }
  }

  /** Registering handles from `first` on keeps every recorded handle below `first + |ds|`
      when the old ones were below `first`. */
  lemma {:induction false} RegisterBounds(m: map<int, nat>, ds: seq<Task>, first: nat)
    requires forall id :: id in m ==> m[id] < first
    ensures forall id :: id in Register(m, ds, first) ==> Register(m, ds, first)[id] < first + |ds|
  {
    if ds != [] {
      RegisterBounds(m, ds[..|ds| - 1], first);
    }
  }

  /** Two downstream tasks with the same id: the handle of the earlier one is no longer
      recorded, so nothing can cancel it. */
  lemma RegisterOverwrites(m: map<int, nat>, ds: seq<Task>, first: nat, i: nat, j: nat)
    requires i < j < |ds| && ds[i].id == ds[j].id
    ensures ds[i].id in Register(m, ds, first) && Register(m, ds, first)[ds[i].id] != first + i
  {
    var last := LastWithId(ds, j);
    RegisterLast(m, ds, first, last);
  }

  /** The last index from `j` on whose task has the id of `ds[j]`. */
  lemma {:induction false} LastWithId(ds: seq<Task>, j: nat) returns (last: nat)
    requires j < |ds|
    ensures j <= last < |ds| && ds[last].id == ds[j].id
    ensures forall l :: last < l < |ds| ==> ds[l].id != ds[j].id
    decreases |ds| - j
  {
    var l := j + 1;
    while l < |ds| && ds[l].id != ds[j].id
      invariant j < l <= |ds|
      invariant forall x :: j < x < l ==> ds[x].id != ds[j].id
    {
      l := l + 1;
    }
    if l == |ds| {
      last := j;
    } else {
      last := LastWithId(ds, l);
    }
  }

  /** What `clearTimeout` leaves of the pending timeouts for each handle in `hs`. */
  function KeepPending(ps: seq<Timeout>, hs: set<nat>): (r: seq<Timeout>)
    ensures |r| <= |ps|
  {
    if ps == [] then [] else (if ps[0].handle in hs then [] else [ps[0]]) + KeepPending(ps[1..], hs)
  }

  /** Cancelling keeps exactly the timeouts whose handle is not cancelled. */
  lemma {:induction false} KeepPendingMembers(ps: seq<Timeout>, hs: set<nat>)
    ensures forall t :: t in KeepPending(ps, hs) <==> t in ps && t.handle !in hs
  {
    if ps != [] {
      KeepPendingMembers(ps[1..], hs);
      assert forall t :: t in ps <==> t == ps[0] || t in ps[1..];
    }
  }

  /** Cancelling two groups one after the other is cancelling both at once. */
  lemma {:induction false} KeepPendingTwice(ps: seq<Timeout>, a: set<nat>, b: set<nat>)
    ensures KeepPending(KeepPending(ps, a), b) == KeepPending(ps, a + b)
  {
    if ps != [] {
      var p, rest := ps[0], ps[1..];
      KeepPendingTwice(rest, a, b);
      var x := KeepPending(ps, a);
      if p.handle in a {
        assert x == KeepPending(rest, a);
        assert KeepPending(ps, a + b) == KeepPending(rest, a + b);
      } else {
        assert x == [p] + KeepPending(rest, a);
        assert x[0] == p && x[1..] == KeepPending(rest, a);
        assert KeepPending(x, b) == (if p.handle in b then [] else [p]) + KeepPending(KeepPending(rest, a), b);
        assert KeepPending(ps, a + b) == (if p.handle in b then [] else [p]) + KeepPending(rest, a + b);
      }
    }
  }

  /** Cancelling handles no pending timeout has changes nothing. */
  lemma {:induction false} KeepPendingUnknown(ps: seq<Timeout>, hs: set<nat>)
    requires forall t :: t in ps ==> t.handle !in hs
    ensures KeepPending(ps, hs) == ps
  {
    if ps != [] {
      assert ps[0] in ps;
      assert forall t :: t in ps[1..] ==> t in ps;
      KeepPendingUnknown(ps[1..], hs);
      assert [ps[0]] + ps[1..] == ps;
    }
  }

  /** The handles recorded for the listed ids. */
  function HandlesOf(m: map<int, nat>, ids: seq<int>): set<nat> {
    set id | id in ids && id in m :: m[id]
  }

  /** Timeout `k` is the one the event loop runs next: nothing is due earlier, and among the
      timeouts due at the same time it was scheduled first. */
  predicate Earliest(ps: seq<Timeout>, k: nat) {
    k < |ps| && forall j :: 0 <= j < |ps| ==> ps[k].due <= ps[j].due && (j < k ==> ps[k].due < ps[j].due)
  }
}
