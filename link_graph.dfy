/** The directed link graph between tasks: each task lists the ids it links to (`linkedTo`) and
    the ids linking to it (`linkedFrom`). Linking, unlinking, the pruning done on delete, the
    depth-first walk that collects a chain, and the link records derived from the lists. */
module LinkGraph {

  import opened Wrappers
  import opened JsText
  import opened Tasks

  // ---------------------------------------------------------------- id lists

  predicate NoDup(s: seq<int>) {
    forall i, j :: 0 <= i < j < |s| ==> s[i] != s[j]
  }

  /** `[...new Set(s)]`: the first occurrence of every id, in order. */
  function Dedup(s: seq<int>): (r: seq<int>)
    ensures NoDup(r)
    ensures forall x :: x in r <==> x in s
  {
    if s == [] then []
    else
      var d := Dedup(s[..|s| - 1]);
      var x := s[|s| - 1];
      assert forall y :: y in s <==> y in s[..|s| - 1] || y == x;
      if x in d then d else d + [x]
  }

  /** A list without duplicates is its own deduplication. */
  lemma {:induction false} DedupOfNoDup(s: seq<int>)
    requires NoDup(s)
    ensures Dedup(s) == s
  {
    if s != [] {
      var front := s[..|s| - 1];
      DedupOfNoDup(front);
      assert s[|s| - 1] !in front by {
        forall i | 0 <= i < |front| ensures front[i] != s[|s| - 1] {
          assert front[i] == s[i];
        }
      }
      assert front + [s[|s| - 1]] == s;
    }
  }

  /** `s.filter(y => y !== x)`. */
  function Remove(s: seq<int>, x: int): (r: seq<int>)
    ensures forall y :: y in r <==> y in s && y != x
    ensures |r| <= |s|
  {
    if s == [] then [] else (if s[0] == x then [] else [s[0]]) + Remove(s[1..], x)
  }

  /** Removing an absent id changes nothing. */
  lemma {:induction false} RemoveAbsent(s: seq<int>, x: int)
    requires x !in s
    ensures Remove(s, x) == s
  {
    if s != [] {
      assert x !in s[1..];
      RemoveAbsent(s[1..], x);
      assert [s[0]] + s[1..] == s;
    }
  }

  // ---------------------------------------------------------------- the three list updates

  /** `linkTasks(from, to)` on one task: the source gets `to` appended to `linkedTo` and the target
      gets `from` appended to `linkedFrom`, both through `new Set`, so without duplicates. */
  function LinkTask(t: Task, from: int, to: int): Task {
    if t.id == from then t.(linkedTo := Dedup(t.linkedTo + [to]))
    else if t.id == to then t.(linkedFrom := Dedup(t.linkedFrom + [from]))
    else t
  }

  /** `linkTasks(from, to)`: nothing at all when `from == to`. */
  function LinkList(ts: seq<Task>, from: int, to: int): (r: seq<Task>)
    ensures |r| == |ts|
  {
    if from == to then ts
    else seq(|ts|, i requires 0 <= i < |ts| => LinkTask(ts[i], from, to))
  }

  /** `unlinkTasks(from, to)` on one task. There is no `from == to` guard: a task that is both
      source and target only loses the id from `linkedTo`. */
  function UnlinkTask(t: Task, from: int, to: int): Task {
    if t.id == from then t.(linkedTo := Remove(t.linkedTo, to))
    else if t.id == to then t.(linkedFrom := Remove(t.linkedFrom, from))
    else t
  }

  function UnlinkList(ts: seq<Task>, from: int, to: int): (r: seq<Task>)
    ensures |r| == |ts|
  {
    seq(|ts|, i requires 0 <= i < |ts| => UnlinkTask(ts[i], from, to))
  }

  /** The first step of `deleteTask(x)`: `x` leaves every task's `linkedTo` and `linkedFrom`. */
  function PruneList(ts: seq<Task>, x: int): (r: seq<Task>)
    ensures |r| == |ts|
  {
    seq(|ts|, i requires 0 <= i < |ts| => ts[i].(linkedTo := Remove(ts[i].linkedTo, x), linkedFrom := Remove(ts[i].linkedFrom, x)))
  }

  /** `tasks.filter(t => t.id !== x)`. */
  function RemoveTasks(ts: seq<Task>, x: int): (r: seq<Task>)
    ensures forall t :: t in r <==> t in ts && t.id != x
  {
    if ts == [] then [] else (if ts[0].id == x then [] else [ts[0]]) + RemoveTasks(ts[1..], x)
  }

  /** Everything `deleteTask(x)` does to the list: prune, then drop the task if it existed. */
  function DeleteList(ts: seq<Task>, x: int): seq<Task> {
    var pruned := PruneList(ts, x);
    if Find(ts, x).Some? then RemoveTasks(pruned, x) else pruned
  }

  /** `deleteTask(x)` in its two steps, the prune before the API call and the filter after it,
      with nothing in between: the filter happens exactly when a task with id `x` existed. */
  lemma DeleteInTwoSteps(ts: seq<Task>, x: int)
    ensures DeleteList(ts, x) == if HasTask(ts, x) then RemoveTasks(PruneList(ts, x), x) else PruneList(ts, x)
  {
    FindHasTask(ts, x);
  }

  // ---------------------------------------------------------------- edges

  /** Some task with id `a` lists `b` in `linkedTo`. */
  predicate Edge(ts: seq<Task>, a: int, b: int) {
    exists t :: t in ts && t.id == a && b in t.linkedTo
  }

  /** Some task with id `b` lists `a` in `linkedFrom`. */
  predicate BackEdge(ts: seq<Task>, a: int, b: int) {
    exists t :: t in ts && t.id == b && a in t.linkedFrom
  }

  /** The two halves of every link agree. */
  ghost predicate Symmetric(ts: seq<Task>) {
    forall a, b :: Edge(ts, a, b) <==> BackEdge(ts, a, b)
  }

  /** `linkTasks(a, a)` changes nothing. */
  lemma LinkSelf(ts: seq<Task>, a: int)
    ensures LinkList(ts, a, a) == ts
  {
  }

  /** The forward edges after `linkTasks(a, b)`, `a != b`: the old ones, plus `a -> b` when a task
      with id `a` exists. */
  lemma LinkEdges(ts: seq<Task>, a: int, b: int, c: int, d: int)
    requires a != b
    ensures Edge(LinkList(ts, a, b), c, d) <==> Edge(ts, c, d) || (c == a && d == b && HasTask(ts, a))
  {
    var r := LinkList(ts, a, b);
    if Edge(r, c, d) {
      var t :| t in r && t.id == c && d in t.linkedTo;
      var i :| 0 <= i < |r| && r[i] == t;
      LinkTaskFacts(ts[i], a, b, c, d);
      assert ts[i] in ts;
    }
    if Edge(ts, c, d) {
      var t :| t in ts && t.id == c && d in t.linkedTo;
      var i :| 0 <= i < |ts| && ts[i] == t;
      LinkTaskFacts(ts[i], a, b, c, d);
      assert r[i] in r;
    }
    if c == a && d == b && HasTask(ts, a) {
      var i :| 0 <= i < |ts| && ts[i].id == a;
      LinkTaskFacts(ts[i], a, b, c, d);
      assert r[i] in r;
    }
  }

  /** The back edges after `linkTasks(a, b)`, `a != b`: the old ones, plus `a` in the `linkedFrom`
      of task `b` when a task with id `b` exists. */
  lemma LinkBackEdges(ts: seq<Task>, a: int, b: int, c: int, d: int)
    requires a != b
    ensures BackEdge(LinkList(ts, a, b), c, d) <==> BackEdge(ts, c, d) || (c == a && d == b && HasTask(ts, b))
  {
    var r := LinkList(ts, a, b);
    if BackEdge(r, c, d) {
      var t :| t in r && t.id == d && c in t.linkedFrom;
      var i :| 0 <= i < |r| && r[i] == t;
      LinkTaskFacts(ts[i], a, b, c, d);
      assert ts[i] in ts;
    }
    if BackEdge(ts, c, d) {
      var t :| t in ts && t.id == d && c in t.linkedFrom;
      var i :| 0 <= i < |ts| && ts[i] == t;
      LinkTaskFacts(ts[i], a, b, c, d);
      assert r[i] in r;
    }
    if c == a && d == b && HasTask(ts, b) {
      var i :| 0 <= i < |ts| && ts[i].id == b;
      LinkTaskFacts(ts[i], a, b, c, d);
      assert r[i] in r;
    }
  }

  /** Linking touches only the two link lists: ids and every other field stay. */
  lemma LinkKeepsFields(ts: seq<Task>, a: int, b: int, i: nat)
    requires i < |ts|
    ensures LinkList(ts, a, b)[i] == ts[i].(linkedTo := LinkList(ts, a, b)[i].linkedTo, linkedFrom := LinkList(ts, a, b)[i].linkedFrom)
  {
  }

  /** `linkTasks(a, b)` on one task, `a != b`: its id stays, `b` joins `linkedTo` of task `a` and
      `a` joins `linkedFrom` of task `b`. */
  lemma LinkTaskFacts(t: Task, a: int, b: int, c: int, d: int)
    requires a != b
    ensures LinkTask(t, a, b).id == t.id
    ensures d in LinkTask(t, a, b).linkedTo <==> d in t.linkedTo || (t.id == a && d == b)
    ensures c in LinkTask(t, a, b).linkedFrom <==> c in t.linkedFrom || (t.id == b && c == a)
  {
  }

  /** Linking two existing tasks keeps the halves in agreement. */
  lemma LinkKeepsSymmetric(ts: seq<Task>, a: int, b: int)
    requires Symmetric(ts) && HasTask(ts, a) && HasTask(ts, b)
    ensures Symmetric(LinkList(ts, a, b))
  {
    if a != b {
      forall c, d ensures Edge(LinkList(ts, a, b), c, d) <==> BackEdge(LinkList(ts, a, b), c, d) {
        LinkEdges(ts, a, b, c, d);
        LinkBackEdges(ts, a, b, c, d);
      }
    }
  }

  /** Linking twice is linking once. */
  lemma LinkIdempotent(ts: seq<Task>, a: int, b: int)
    ensures LinkList(LinkList(ts, a, b), a, b) == LinkList(ts, a, b)
  {
    if a != b {
      var r := LinkList(ts, a, b);
      forall i | 0 <= i < |ts| ensures LinkTask(r[i], a, b) == r[i] {
        if ts[i].id == a {
          DedupAgain(ts[i].linkedTo, b);
        } else if ts[i].id == b {
          DedupAgain(ts[i].linkedFrom, a);
        }
      }
    }
  }

  /** Appending an id that is already there and deduplicating again changes nothing. */
  lemma DedupAgain(s: seq<int>, x: int)
    ensures Dedup(Dedup(s + [x]) + [x]) == Dedup(s + [x])
  {
    var d := Dedup(s + [x]);
    assert x in s + [x];
    DedupOfNoDup(d);
    assert (d + [x])[..|d + [x]| - 1] == d;
  }

  /** The forward edges after `unlinkTasks(a, b)`, `a != b`: `a -> b` is gone, every other edge
      is unchanged. */
  lemma UnlinkEdges(ts: seq<Task>, a: int, b: int, c: int, d: int)
    requires a != b
    ensures Edge(UnlinkList(ts, a, b), c, d) <==> Edge(ts, c, d) && !(c == a && d == b)
  {
    var r := UnlinkList(ts, a, b);
    if Edge(r, c, d) {
      var t :| t in r && t.id == c && d in t.linkedTo;
      var i :| 0 <= i < |r| && r[i] == t;
      assert ts[i] in ts;
    }
    if Edge(ts, c, d) && !(c == a && d == b) {
      var t :| t in ts && t.id == c && d in t.linkedTo;
      var i :| 0 <= i < |ts| && ts[i] == t;
      assert r[i] in r;
    }
  }

  /** The back edges after `unlinkTasks(a, b)`, `a != b`: `a` is gone from the `linkedFrom` of
      task `b`, every other back edge is unchanged. */
  lemma UnlinkBackEdges(ts: seq<Task>, a: int, b: int, c: int, d: int)
    requires a != b
    ensures BackEdge(UnlinkList(ts, a, b), c, d) <==> BackEdge(ts, c, d) && !(c == a && d == b)
  {
    var r := UnlinkList(ts, a, b);
    if BackEdge(r, c, d) {
      var t :| t in r && t.id == d && c in t.linkedFrom;
      var i :| 0 <= i < |r| && r[i] == t;
      assert ts[i] in ts;
    }
    if BackEdge(ts, c, d) && !(c == a && d == b) {
      var t :| t in ts && t.id == d && c in t.linkedFrom;
      var i :| 0 <= i < |ts| && ts[i] == t;
      assert r[i] in r;
    }
  }

  /** Unlinking keeps the halves in agreement. */
  lemma UnlinkKeepsSymmetric(ts: seq<Task>, a: int, b: int)
    requires Symmetric(ts) && a != b
    ensures Symmetric(UnlinkList(ts, a, b))
  {
    forall c, d ensures Edge(UnlinkList(ts, a, b), c, d) <==> BackEdge(UnlinkList(ts, a, b), c, d) {
      UnlinkEdges(ts, a, b, c, d);
      UnlinkBackEdges(ts, a, b, c, d);
    }
  }

  /** `unlinkTasks(a, a)` on a task linked to itself drops only the `linkedTo` half, so the
      halves disagree afterwards. */
  lemma UnlinkSelfBreaksSymmetry(t: Task, a: int)
    requires t.id == a && t.linkedTo == [a] && t.linkedFrom == [a]
    ensures Symmetric([t]) && !Symmetric(UnlinkList([t], a, a))
  {
    var ts := [t];
    assert t in ts;
    forall c, d ensures Edge(ts, c, d) <==> BackEdge(ts, c, d) {
      assert Edge(ts, c, d) <==> c == a && d == a;
      assert BackEdge(ts, c, d) <==> c == a && d == a;
    }
    var r := UnlinkList(ts, a, a);
    assert r[0] in r && r[0].linkedTo == [] && r[0].linkedFrom == [a];
    assert BackEdge(r, a, a);
    assert !Edge(r, a, a);
  }

  /** The edges after `deleteTask(x)`: exactly the old edges not touching `x`. */
  lemma DeleteEdges(ts: seq<Task>, x: int, c: int, d: int)
    ensures Edge(DeleteList(ts, x), c, d) <==> Edge(ts, c, d) && c != x && d != x
    ensures BackEdge(DeleteList(ts, x), c, d) <==> BackEdge(ts, c, d) && c != x && d != x
  {
    var p := PruneList(ts, x);
    PruneEdges(ts, x, c, d);
    PruneBackEdges(ts, x, c, d);
    PruneClears(ts, x);
    if Find(ts, x).Some? {
      RemoveTasksEdges(p, x, c, d);
    }
    OwnEdges(p, x, c, d);
  }

  /** A pruned list has no edge into or out of `x` that involves `x` as the far end. */
  lemma OwnEdges(p: seq<Task>, x: int, c: int, d: int)
    requires forall t :: t in p ==> x !in t.linkedTo && x !in t.linkedFrom
    ensures Edge(p, c, d) ==> d != x
    ensures BackEdge(p, c, d) ==> c != x
  {
  }

  lemma PruneEdges(ts: seq<Task>, x: int, c: int, d: int)
    ensures Edge(PruneList(ts, x), c, d) <==> Edge(ts, c, d) && d != x
  {
    var r := PruneList(ts, x);
    if Edge(r, c, d) {
      var t :| t in r && t.id == c && d in t.linkedTo;
      var i :| 0 <= i < |r| && r[i] == t;
      assert ts[i] in ts;
    }
    if Edge(ts, c, d) && d != x {
      var t :| t in ts && t.id == c && d in t.linkedTo;
      var i :| 0 <= i < |ts| && ts[i] == t;
      assert r[i] in r;
    }
  }

  lemma PruneBackEdges(ts: seq<Task>, x: int, c: int, d: int)
    ensures BackEdge(PruneList(ts, x), c, d) <==> BackEdge(ts, c, d) && c != x
  {
    var r := PruneList(ts, x);
    if BackEdge(r, c, d) {
      var t :| t in r && t.id == d && c in t.linkedFrom;
      var i :| 0 <= i < |r| && r[i] == t;
      assert ts[i] in ts;
    }
    if BackEdge(ts, c, d) && c != x {
      var t :| t in ts && t.id == d && c in t.linkedFrom;
      var i :| 0 <= i < |ts| && ts[i] == t;
      assert r[i] in r;
    }
  }

  /** After pruning no task mentions `x`, and the ids are those of before. */
  lemma PruneClears(ts: seq<Task>, x: int)
    ensures forall t :: t in PruneList(ts, x) ==> x !in t.linkedTo && x !in t.linkedFrom
    ensures forall i :: 0 <= i < |ts| ==> PruneList(ts, x)[i].id == ts[i].id
  {
    var r := PruneList(ts, x);
    forall t | t in r ensures x !in t.linkedTo && x !in t.linkedFrom {
      var i :| 0 <= i < |r| && r[i] == t;
    }
  }

  lemma RemoveTasksEdges(ts: seq<Task>, x: int, c: int, d: int)
    ensures Edge(RemoveTasks(ts, x), c, d) <==> Edge(ts, c, d) && c != x
    ensures BackEdge(RemoveTasks(ts, x), c, d) <==> BackEdge(ts, c, d) && d != x
  {
  }

  /** Deleting a task keeps the halves in agreement. */
  lemma DeleteKeepsSymmetric(ts: seq<Task>, x: int)
    requires Symmetric(ts)
    ensures Symmetric(DeleteList(ts, x))
  {
    forall c, d ensures Edge(DeleteList(ts, x), c, d) <==> BackEdge(DeleteList(ts, x), c, d) {
      DeleteEdges(ts, x, c, d);
    }
  }

  /** After `deleteTask(x)` no task mentions `x`; when a task with id `x` existed none is left
      and the list is shorter, otherwise only the pruning happened. */
  lemma DeleteRemoves(ts: seq<Task>, x: int)
    ensures forall t :: t in DeleteList(ts, x) ==> x !in t.linkedTo && x !in t.linkedFrom
    ensures HasTask(ts, x) ==> !HasTask(DeleteList(ts, x), x) && |DeleteList(ts, x)| < |ts|
    ensures !HasTask(ts, x) ==> DeleteList(ts, x) == PruneList(ts, x)
  {
    FindHasTask(ts, x);
    var p := PruneList(ts, x);
    PruneClears(ts, x);
    if HasTask(ts, x) {
      var i :| 0 <= i < |ts| && ts[i].id == x;
      RemoveTasksShorter(p, x, i);
      var q := RemoveTasks(p, x);
      forall j | 0 <= j < |q| ensures q[j].id != x {
        assert q[j] in q;
      }
    }
  }

  /** Dropping the tasks with an id that occurs shortens the list. */
  lemma {:induction false} RemoveTasksShorter(ts: seq<Task>, x: int, i: nat)
    requires i < |ts| && ts[i].id == x
    ensures |RemoveTasks(ts, x)| < |ts|
  {
    if i > 0 {
      RemoveTasksShorter(ts[1..], x, i - 1);
    } else {
      RemoveTasksNoLonger(ts[1..], x);
    }
  }

  lemma {:induction false} RemoveTasksNoLonger(ts: seq<Task>, x: int)
    ensures |RemoveTasks(ts, x)| <= |ts|
  {
    if ts != [] {
      RemoveTasksNoLonger(ts[1..], x);
    }
  }

  // ---------------------------------------------------------------- reachability

  /** The ids a task links to, when a task with that id exists (the first one, as `find` picks). */
  function Succ(ts: seq<Task>, x: int): set<int> {
    match Find(ts, x)
    case None => {}
    case Some(t) => set y | y in t.linkedTo
  }

  /** A walk along links: every id after the first is linked from the one before it. */
  ghost predicate IsPath(ts: seq<Task>, p: seq<int>) {
    |p| >= 1 && forall i {:trigger Succ(ts, p[i])} :: 0 <= i < |p| - 1 ==> p[i + 1] in Succ(ts, p[i])
  }

  ghost predicate Reachable(ts: seq<Task>, s: int, v: int) {
    exists p :: IsPath(ts, p) && p[0] == s && p[|p| - 1] == v
  }

  lemma ReachSelf(ts: seq<Task>, s: int)
    ensures Reachable(ts, s, s)
  {
    assert IsPath(ts, [s]);
  }

  lemma ReachStep(ts: seq<Task>, s: int, a: int, b: int)
    requires Reachable(ts, s, a) && b in Succ(ts, a)
    ensures Reachable(ts, s, b)
  {
    var p :| IsPath(ts, p) && p[0] == s && p[|p| - 1] == a;
    var q := p + [b];
    forall i | 0 <= i < |q| - 1 ensures q[i + 1] in Succ(ts, q[i]) {
      if i < |p| - 1 {
        assert q[i] == p[i] && q[i + 1] == p[i + 1];
      }
    }
    assert IsPath(ts, q);
  }

  /** Every id of the workspace that a search can meet: all task ids and all link targets. */
  function Universe(ts: seq<Task>): set<int> {
    (set i | 0 <= i < |ts| :: ts[i].id) + (set i, y | 0 <= i < |ts| && y in ts[i].linkedTo :: y)
  }

  /** A set closed under links, apart from the ids in `open`. */
  ghost predicate ClosedExcept(ts: seq<Task>, visited: set<int>, open: set<int>) {
    forall v :: v in visited && v !in open ==> Succ(ts, v) <= visited
  }

  /** A closed set holding `s` holds everything reachable from `s`. */
  lemma ClosedHoldsReach(ts: seq<Task>, visited: set<int>, s: int, v: int)
    requires s in visited && ClosedExcept(ts, visited, {}) && Reachable(ts, s, v)
    ensures v in visited
  {
    var p :| IsPath(ts, p) && p[0] == s && p[|p| - 1] == v;
    PathInside(ts, visited, p, |p| - 1);
  }

  lemma {:induction false} PathInside(ts: seq<Task>, visited: set<int>, p: seq<int>, k: nat)
    requires IsPath(ts, p) && p[0] in visited && ClosedExcept(ts, visited, {}) && k < |p|
    ensures p[k] in visited
  {
    if k > 0 {
      PathInside(ts, visited, p, k - 1);
      assert p[k] in Succ(ts, p[k - 1]);
    }
  }

  /** The ids of a list of tasks. */
  function Ids(c: seq<Task>): set<int> {
    set i | 0 <= i < |c| :: c[i].id
  }

  lemma IdsPush(c: seq<Task>, t: Task)
    ensures Ids(c + [t]) == Ids(c) + {t.id}
  {
    var d := c + [t];
    forall v | v in Ids(d) ensures v in Ids(c) + {t.id} {
      var i :| 0 <= i < |d| && d[i].id == v;
      if i < |c| {
        assert d[i] == c[i];
      }
    }
    forall v | v in Ids(c) ensures v in Ids(d) {
      var i :| 0 <= i < |c| && c[i].id == v;
      assert d[i] == c[i];
    }
    assert d[|c|] == t;
  }

  predicate DistinctIds(c: seq<Task>) {
    forall i, j :: 0 <= i < j < |c| ==> c[i].id != c[j].id
  }

  /** A chain collected so far: distinct ids, each the task `find` returns for it, and exactly
      one entry for every visited id that has a task. */
  ghost predicate ChainOf(ts: seq<Task>, visited: set<int>, chain: seq<Task>) {
    DistinctIds(chain)
    && (forall i :: 0 <= i < |chain| ==> Find(ts, chain[i].id) == Some(chain[i]))
    && (forall v :: v in Ids(chain) <==> v in visited && Find(ts, v).Some?)
  }

  /** What `getTaskChain(s)` collects before sorting: every task reachable from `s` through
      links, once, as `find` returns it; the start task first; nothing when `s` has no task. */
  ghost predicate ChainSpec(ts: seq<Task>, s: int, chain: seq<Task>) {
    DistinctIds(chain)
    && (forall i :: 0 <= i < |chain| ==> Find(ts, chain[i].id) == Some(chain[i]))
    && (forall v :: v in Ids(chain) <==> Reachable(ts, s, v) && Find(ts, v).Some?)
    && (Find(ts, s).None? ==> chain == [])
    && (Find(ts, s).Some? ==> |chain| >= 1 && chain[0] == Find(ts, s).value)
  }

  // ---------------------------------------------------------------- the depth-first walk as a function

  /** Every id some task links to is in `u`. */
  predicate LinksWithin(ts: seq<Task>, u: set<int>) {
    forall i, y :: 0 <= i < |ts| && y in ts[i].linkedTo ==> y in u
  }

  /** What a walk has done: the ids marked so far and the tasks it pushed. */
  datatype Walked = Walked(visited: set<int>, chain: seq<Task>)

  /** `buildChain(cur)` with the ids `v` already marked: nothing when `cur` is marked; otherwise
      `cur` is marked, and when `find` returns a task for it, that task comes first, followed by
      the walks from its links in order. `u` bounds the ids the walk can meet. */
  function Visit(ts: seq<Task>, u: set<int>, v: set<int>, cur: int): (r: Walked)
    requires v <= u && cur in u && LinksWithin(ts, u)
    ensures v + {cur} <= r.visited <= u
    decreases |u - v|, 0, 0
  {
    if cur in v then Walked(v, [])
    else
      match Find(ts, cur)
      case None => Walked(v + {cur}, [])
      case Some(t) =>
        FewerLeft(u, v, v + {cur}, cur);
        var w := VisitAll(ts, u, v + {cur}, t.linkedTo);
        Walked(w.visited, [t] + w.chain)
  }

  /** `ids.forEach(buildChain)` with the ids `v` already marked: the walks from `ids` one after
      the other, each starting with the marks the previous ones left. */
  function VisitAll(ts: seq<Task>, u: set<int>, v: set<int>, ids: seq<int>): (r: Walked)
    requires v <= u && (forall y :: y in ids ==> y in u) && LinksWithin(ts, u)
    ensures v <= r.visited <= u
    decreases |u - v|, 1, |ids|
  {
    if ids == [] then Walked(v, [])
    else
      var w := VisitAll(ts, u, v, ids[..|ids| - 1]);
      NoMoreLeft(u, v, w.visited);
      var x := Visit(ts, u, w.visited, ids[|ids| - 1]);
      Walked(x.visited, w.chain + x.chain)
  }

  /** The walks from the first `k + 1` links are those from the first `k`, then the one from
      link `k`. */
  lemma VisitAllStep(ts: seq<Task>, u: set<int>, v: set<int>, ids: seq<int>, k: nat)
    requires v <= u && (forall y :: y in ids ==> y in u) && LinksWithin(ts, u) && k < |ids|
    ensures var w := VisitAll(ts, u, v, ids[..k]);
            var x := Visit(ts, u, w.visited, ids[k]);
            VisitAll(ts, u, v, ids[..k + 1]) == Walked(x.visited, w.chain + x.chain)
  {
    assert ids[..k + 1][..k] == ids[..k];
  }

  /** An unmarked id with a task is walked as that task followed by the walks from its links. */
  lemma VisitFound(ts: seq<Task>, u: set<int>, v: set<int>, cur: int, t: Task)
    requires v <= u && cur in u && LinksWithin(ts, u) && cur !in v && Find(ts, cur) == Some(t)
    ensures forall y :: y in t.linkedTo ==> y in u
    ensures var w := VisitAll(ts, u, v + {cur}, t.linkedTo);
            Visit(ts, u, v, cur) == Walked(w.visited, [t] + w.chain)
  {
  }

  lemma ConcatAssoc<T>(a: seq<T>, b: seq<T>, c: seq<T>)
    ensures a + b + c == a + (b + c)
  {
  }

  lemma NoMoreLeft(u: set<int>, a: set<int>, b: set<int>)
    requires a <= b
    ensures |u - b| <= |u - a|
  {
    var x, y := u - a, u - b;
    assert x == y + (x - y) && y * (x - y) == {};
  }

  lemma UniverseHoldsLinks(ts: seq<Task>, s: int)
    ensures LinksWithin(ts, Universe(ts) + {s})
  {
  }

  /** The tasks `getTaskChain(s)` collects before sorting, in the order `buildChain` pushes
      them: depth-first, each task before the walks from its links, links in list order. */
  function DepthFirst(ts: seq<Task>, s: int): seq<Task> {
    UniverseHoldsLinks(ts, s);
    Visit(ts, Universe(ts) + {s}, {}, s).chain
  }

  /** Links are followed in list order: a task linking to `[2, 3]` gives the chain task 1, 2,
      3, and one linking to `[3, 2]` gives 1, 3, 2. */
  lemma DepthFirstFollowsLinks()
    ensures var t2, t3 := NewTask(2), NewTask(3);
            var a := NewTask(1).(linkedTo := [2, 3]);
            var b := NewTask(1).(linkedTo := [3, 2]);
            DepthFirst([a, t2, t3], 1) == [a, t2, t3] && DepthFirst([b, t2, t3], 1) == [b, t3, t2]
  {
    var t2, t3 := NewTask(2), NewTask(3);
    var a := NewTask(1).(linkedTo := [2, 3]);
    var b := NewTask(1).(linkedTo := [3, 2]);
    WalkOfThree(a, t2, t3, 2, 3);
    WalkOfThree(b, t2, t3, 3, 2);
  }

  /** Task `p` with id 1 links to `x` then `y`, the ids of the two link-free tasks `q` and `r`. */
  lemma WalkOfThree(p: Task, q: Task, r: Task, x: int, y: int)
    requires p.id == 1 && q.id == 2 && r.id == 3 && q.linkedTo == [] && r.linkedTo == []
    requires p.linkedTo == [x, y] && ((x, y) == (2, 3) || (x, y) == (3, 2))
    ensures DepthFirst([p, q, r], 1) == if x == 2 then [p, q, r] else [p, r, q]
  {
    var ts := [p, q, r];
    UniverseHoldsLinks(ts, 1);
    VisitThree(ts, Universe(ts) + {1}, p, q, r, x, y);
  }

  lemma VisitThree(ts: seq<Task>, u: set<int>, p: Task, q: Task, r: Task, x: int, y: int)
    requires ts == [p, q, r] && 1 in u && LinksWithin(ts, u)
    requires p.id == 1 && q.id == 2 && r.id == 3 && q.linkedTo == [] && r.linkedTo == []
    requires p.linkedTo == [x, y] && ((x, y) == (2, 3) || (x, y) == (3, 2))
    ensures Visit(ts, u, {}, 1).chain == if x == 2 then [p, q, r] else [p, r, q]
  {
    assert ts[0] == p && x in p.linkedTo && y in p.linkedTo;
    FindInThree(p, q, r);
    if x == 2 {
      VisitFork(ts, u, p, q, r);
    } else {
      VisitFork(ts, u, p, r, q);
    }
  }

  /** A task linking to two link-free tasks, and nothing marked yet: the walk is the task, then
      its first link's task, then its second's. */
  lemma VisitFork(ts: seq<Task>, u: set<int>, p: Task, a: Task, b: Task)
    requires LinksWithin(ts, u) && p.id in u && p.linkedTo == [a.id, b.id] && a.linkedTo == [] && b.linkedTo == []
    requires p.id != a.id && p.id != b.id && a.id != b.id
    requires Find(ts, p.id) == Some(p) && Find(ts, a.id) == Some(a) && Find(ts, b.id) == Some(b)
    ensures Visit(ts, u, {}, p.id).chain == [p, a, b]
  {
    assert a.id in p.linkedTo && b.id in p.linkedTo;
    var va := VisitLeaf(ts, u, {p.id}, a.id, a);
    VisitAllOne(ts, u, {p.id}, a.id);
    var vb := VisitLeaf(ts, u, {p.id, a.id}, b.id, b);
    VisitAllTwo(ts, u, {p.id}, a.id, b.id);
    assert {} + {p.id} == {p.id};
    VisitFound(ts, u, {}, p.id, p);
  }

  lemma FindInThree(p: Task, q: Task, r: Task)
    requires p.id == 1 && q.id == 2 && r.id == 3
    ensures Find([p, q, r], 1) == Some(p) && Find([p, q, r], 2) == Some(q) && Find([p, q, r], 3) == Some(r)
  {
    var ts := [p, q, r];
    assert ts[1..] == [q, r] && ts[1..][1..] == [r] && [r][1..] == [];
    assert FindIndex([r], 3) == Some(0);
    assert FindIndex([q, r], 2) == Some(0) && FindIndex([q, r], 3) == Some(1);
  }

  /** An unmarked id whose task links nowhere is walked as that task alone. */
  lemma VisitLeaf(ts: seq<Task>, u: set<int>, v: set<int>, x: int, t: Task) returns (w: Walked)
    requires v <= u && x in u && LinksWithin(ts, u) && x !in v && Find(ts, x) == Some(t) && t.linkedTo == []
    ensures w == Visit(ts, u, v, x) && w == Walked(v + {x}, [t])
  {
    w := Visit(ts, u, v, x);
    assert VisitAll(ts, u, v + {x}, []) == Walked(v + {x}, []);
  }

  lemma VisitAllOne(ts: seq<Task>, u: set<int>, v: set<int>, x: int)
    requires v <= u && x in u && LinksWithin(ts, u)
    ensures VisitAll(ts, u, v, [x]) == Visit(ts, u, v, x)
  {
    assert [x][..0] == [];
  }

  lemma VisitAllTwo(ts: seq<Task>, u: set<int>, v: set<int>, x: int, y: int)
    requires v <= u && x in u && y in u && LinksWithin(ts, u)
    ensures var a := VisitAll(ts, u, v, [x]);
            var b := Visit(ts, u, a.visited, y);
            VisitAll(ts, u, v, [x, y]) == Walked(b.visited, a.chain + b.chain)
  {
    assert [x, y][..1] == [x];
  }

  /** The recursive `buildChain(currentId)` of `getTaskChain`: skip a visited id, otherwise mark
      it, and when a task has it push the task and recurse into each id it links to, in order.
      `open` holds the ids whose recursion is still in progress. */
  method BuildChain(ts: seq<Task>, ghost s: int, cur: int, visited: set<int>, chain: seq<Task>, ghost open: set<int>)
    returns (visited': set<int>, chain': seq<Task>)
    requires cur in Universe(ts) + {s} && visited <= Universe(ts) + {s}
    requires Reachable(ts, s, cur) && forall v :: v in visited ==> Reachable(ts, s, v)
    requires ChainOf(ts, visited, chain) && ClosedExcept(ts, visited, open)
    ensures visited <= visited' <= Universe(ts) + {s} && cur in visited'
    ensures forall v :: v in visited' ==> Reachable(ts, s, v)
    ensures ChainOf(ts, visited', chain') && chain <= chain'
    ensures cur !in visited && Find(ts, cur).Some? ==> chain + [Find(ts, cur).value] <= chain'
    ensures ClosedExcept(ts, visited', open)
    ensures var w := Visit(ts, Universe(ts) + {s}, visited, cur);
            visited' == w.visited && chain' == chain + w.chain
    decreases |Universe(ts) + {s} - visited|, 0
  {
    ghost var u := Universe(ts) + {s};
    if cur in visited {
      assert chain + Visit(ts, u, visited, cur).chain == chain + [];
      return visited, chain;
    }
    var found := Find(ts, cur);
    visited' := visited + {cur};
    chain' := if found.Some? then chain + [found.value] else chain;
    Mark(ts, cur, visited, chain, open, chain');
    if found.Some? {
      var task := found.value;
      FewerLeft(u, visited, visited', cur);
      ghost var marked := visited';
      assert chain' == chain + [task];
      visited', chain' := BuildLinks(ts, s, cur, task, visited', chain', open);
      VisitFound(ts, u, visited, cur, task);
      ghost var w := VisitAll(ts, u, marked, task.linkedTo);
      assert chain' == chain + [task] + w.chain;
      ConcatAssoc(chain, [task], w.chain);
    } else {
      assert chain + Visit(ts, u, visited, cur).chain == chain + [];
      Unmark(ts, visited', open, cur);
    }
  }

  /** `task.linkedTo.forEach((linkedId) => buildChain(linkedId))` for the task of `cur`, which
      has just been marked and pushed. */
  method BuildLinks(ts: seq<Task>, ghost s: int, cur: int, task: Task, visited: set<int>, chain: seq<Task>, ghost open: set<int>)
    returns (visited': set<int>, chain': seq<Task>)
    requires Find(ts, cur) == Some(task) && cur in visited && visited <= Universe(ts) + {s}
    requires Reachable(ts, s, cur) && forall v :: v in visited ==> Reachable(ts, s, v)
    requires ChainOf(ts, visited, chain) && ClosedExcept(ts, visited, open + {cur})
    ensures visited <= visited' <= Universe(ts) + {s}
    ensures forall v :: v in visited' ==> Reachable(ts, s, v)
    ensures ChainOf(ts, visited', chain') && chain <= chain'
    ensures ClosedExcept(ts, visited', open)
    ensures forall y :: y in task.linkedTo ==> y in Universe(ts) + {s}
    ensures var w := VisitAll(ts, Universe(ts) + {s}, visited, task.linkedTo);
            visited' == w.visited && chain' == chain + w.chain
    decreases |Universe(ts) + {s} - visited|, 1
  {
    ghost var u := Universe(ts) + {s};
    visited', chain' := visited, chain;
    forall y | y in task.linkedTo ensures y in u {
      LinkInUniverse(ts, cur, y);
    }
    var k := 0;
    while k < |task.linkedTo|
      invariant 0 <= k <= |task.linkedTo|
      invariant visited <= visited' <= u
      invariant forall v :: v in visited' ==> Reachable(ts, s, v)
      invariant ChainOf(ts, visited', chain') && chain <= chain'
      invariant ClosedExcept(ts, visited', open + {cur})
      invariant forall j :: 0 <= j < k ==> task.linkedTo[j] in visited'
      invariant var w := VisitAll(ts, u, visited, task.linkedTo[..k]);
                visited' == w.visited && chain' == chain + w.chain
    {
      var next := task.linkedTo[k];
      ReachStep(ts, s, cur, next);
      NoMoreLeft(u, visited, visited');
      ghost var before, prefix := visited', chain';
      visited', chain' := BuildChain(ts, s, next, visited', chain', open + {cur});
      PrefixTrans(chain, prefix, chain');
      Covered(task.linkedTo, k, before, visited');
      VisitAllStep(ts, u, visited, task.linkedTo, k);
      ConcatAssoc(chain, VisitAll(ts, u, visited, task.linkedTo[..k]).chain, Visit(ts, u, before, next).chain);
      k := k + 1;
    }
    assert task.linkedTo[..k] == task.linkedTo;
    Unmark(ts, visited', open, cur);
  }

  /** Marking `cur` and pushing its task keeps the chain invariant and leaves only `cur` open. */
  lemma Mark(ts: seq<Task>, cur: int, visited: set<int>, chain: seq<Task>, open: set<int>, chain': seq<Task>)
    requires cur !in visited && ChainOf(ts, visited, chain) && ClosedExcept(ts, visited, open)
    requires chain' == if Find(ts, cur).Some? then chain + [Find(ts, cur).value] else chain
    ensures ChainOf(ts, visited + {cur}, chain') && ClosedExcept(ts, visited + {cur}, open + {cur})
  {
    if Find(ts, cur).Some? {
      assert Find(ts, cur).value.id == cur;
      IdsPush(chain, Find(ts, cur).value);
    }
  }

  /** Once everything `cur` links to has been visited, `cur` is no longer open. */
  lemma Unmark(ts: seq<Task>, visited: set<int>, open: set<int>, cur: int)
    requires ClosedExcept(ts, visited, open + {cur}) && Succ(ts, cur) <= visited
    ensures ClosedExcept(ts, visited, open)
  {
  }

  lemma LinkInUniverse(ts: seq<Task>, cur: int, next: int)
    requires next in Succ(ts, cur)
    ensures next in Universe(ts)
  {
    var i := FindIndex(ts, cur).value;
    assert next in ts[i].linkedTo;
  }

  lemma Covered(l: seq<int>, k: nat, before: set<int>, after: set<int>)
    requires k < |l| && before <= after && l[k] in after
    requires forall j :: 0 <= j < k ==> l[j] in before
    ensures forall j :: 0 <= j < k + 1 ==> l[j] in after
  {
  }

  lemma PrefixTrans(a: seq<Task>, b: seq<Task>, c: seq<Task>)
    requires a <= b && b <= c
    ensures a <= c
  {
    assert c[..|a|] == b[..|a|];
  }

  /** Marking `cur` leaves fewer ids to visit. */
  lemma FewerLeft(u: set<int>, a: set<int>, b: set<int>, cur: int)
    requires a + {cur} <= b && cur in u && cur !in a
    ensures |u - b| < |u - a|
  {
    var x, y := u - a, u - b;
    var rest := x - y - {cur};
    assert x == y + rest + {cur};
    assert y * rest == {} && (y + rest) * {cur} == {};
  }

  /** `getTaskChain(s)` before sorting. */
  method CollectChain(ts: seq<Task>, s: int) returns (chain: seq<Task>)
    ensures ChainSpec(ts, s, chain) && chain == DepthFirst(ts, s)
  {
    ReachSelf(ts, s);
    var visited;
    visited, chain := BuildChain(ts, s, s, {}, [], {});
    forall v | Reachable(ts, s, v) ensures v in visited {
      ClosedHoldsReach(ts, visited, s, v);
    }
    if Find(ts, s).None? {
      forall v | Reachable(ts, s, v) ensures v == s {
        StartlessReach(ts, s, v);
      }
      IdsOfNonEmpty(chain);
    }
  }

  /** Without a task for the start id the walk goes nowhere. */
  lemma StartlessReach(ts: seq<Task>, s: int, v: int)
    requires Find(ts, s).None? && Reachable(ts, s, v)
    ensures v == s
  {
    assert ClosedExcept(ts, {s}, {});
    ClosedHoldsReach(ts, {s}, s, v);
  }

  lemma IdsOfNonEmpty(c: seq<Task>)
    ensures c != [] ==> c[0].id in Ids(c)
  {
  }

  // ---------------------------------------------------------------- derived link records

  datatype LinkType = Sequential

  /** A link record as `updateLinksFromTasks` builds it (its creation stamp left out). */
  datatype TaskLink = TaskLink(id: string, fromTaskId: int, toTaskId: int, linkType: LinkType)

  /** The record for the edge `from -> to`: its id is `String(from) + "-" + String(to)`. */
  function LinkRecord(from: int, to: int): TaskLink {
    TaskLink(IntToString(from) + "-" + IntToString(to), from, to, Sequential)
  }

  /** The records of one task's `linkedTo`, in order. */
  function LinksOf(t: Task): (r: seq<TaskLink>)
    ensures |r| == |t.linkedTo| && forall j :: 0 <= j < |r| ==> r[j] == LinkRecord(t.id, t.linkedTo[j])
  {
    seq(|t.linkedTo|, j requires 0 <= j < |t.linkedTo| => LinkRecord(t.id, t.linkedTo[j]))
  }

  /** `updateLinksFromTasks`: the records of every task's links, task by task. */
  function DeriveLinks(ts: seq<Task>): seq<TaskLink> {
    if ts == [] then [] else DeriveLinks(ts[..|ts| - 1]) + LinksOf(ts[|ts| - 1])
  }

  /** The records are exactly those of the tasks' own lists. */
  lemma {:induction false} DeriveLinksMembers(ts: seq<Task>)
    ensures forall l :: l in DeriveLinks(ts) <==> exists t :: t in ts && l in LinksOf(t)
  {
    if ts != [] {
      var front, last := ts[..|ts| - 1], ts[|ts| - 1];
      DeriveLinksMembers(front);
      assert ts == front + [last];
      forall l ensures l in DeriveLinks(ts) <==> exists t :: t in ts && l in LinksOf(t) {
        if l in DeriveLinks(front) {
          var t :| t in front && l in LinksOf(t);
          assert t in ts;
        }
        if l in LinksOf(last) {
          assert last in ts;
        }
      }
    }
  }

  /** A task's records hold the record of `a -> b` exactly when it is task `a` listing `b`. */
  lemma RecordInLinksOf(t: Task, a: int, b: int)
    ensures LinkRecord(a, b) in LinksOf(t) <==> t.id == a && b in t.linkedTo
  {
    var r := LinksOf(t);
    if LinkRecord(a, b) in r {
      var j :| 0 <= j < |r| && r[j] == LinkRecord(a, b);
      assert LinkRecord(a, b).toTaskId == t.linkedTo[j];
    }
    if t.id == a && b in t.linkedTo {
      var j :| 0 <= j < |t.linkedTo| && t.linkedTo[j] == b;
      assert r[j] == LinkRecord(a, b);
    }
  }

  /** A record for `a -> b` is derived exactly when some task `a` lists `b` in `linkedTo`. */
  lemma DeriveLinksEdges(ts: seq<Task>, a: int, b: int)
    ensures Edge(ts, a, b) <==> LinkRecord(a, b) in DeriveLinks(ts)
  {
    DeriveLinksMembers(ts);
    if Edge(ts, a, b) {
      var t :| t in ts && t.id == a && b in t.linkedTo;
      RecordInLinksOf(t, a, b);
    }
    if LinkRecord(a, b) in DeriveLinks(ts) {
      var t :| t in ts && LinkRecord(a, b) in LinksOf(t);
      RecordInLinksOf(t, a, b);
    }
  }
}
