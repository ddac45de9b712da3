/**
 * The updater functions that client/features/tasks/TaskList.tsx passes to
 * SWR's `mutateTasks`, as pure functions over the cached task list, and the
 * reconciliation properties they guarantee.
 *
 * The cache is SWR's `data`: `undefined` until the first fetch completes,
 * then an ordered list of tasks, most recently created first.
 */
module TaskUpdaters {
  import opened Wrappers

  type TaskId = string

  /** The image a task may carry, as the API describes it. */
  datatype TaskImage = TaskImage(url: string, s3Key: string)

  /** A task record as the API returns it. */
  datatype Task = Task(id: TaskId, taskLabel: string, done: bool, image: Option<TaskImage>)

  /** The cached list: `None` is SWR's "not loaded yet", distinct from `Some([])`. */
  type Cache = Option<seq<Task>>

  /** The three push messages the list subscribes to (the closed union of `lastMsg`). */
  datatype TaskEvent =
    | TaskCreated(task: Task)
    | TaskUpdated(task: Task)
    | TaskDeleted(taskId: TaskId)

  // ---------------------------------------------------------------------------
  // Vocabulary for the properties
  // ---------------------------------------------------------------------------

  /** The ids present in a list. */
  function Ids(s: seq<Task>): set<TaskId> {
    set t | t in s :: t.id
  }

  /** No two positions of the list carry the same id. */
  predicate UniqueIds(s: seq<Task>) {
    forall i, j :: 0 <= i < j < |s| ==> s[i].id != s[j].id
  }

  /** A loaded cache has unique ids; "not loaded" trivially does. */
  predicate CacheUnique(c: Cache) {
    match c
    case None => true
    case Some(s) => UniqueIds(s)
  }

  /** How many elements of the list carry `id`. */
  function CountId(s: seq<Task>, id: TaskId): nat {
    if s == [] then 0 else (if s[0].id == id then 1 else 0) + CountId(s[1..], id)
  }

  /** `a` is obtained from `b` by deleting elements, keeping the order of the rest. */
  predicate IsSubsequence(a: seq<Task>, b: seq<Task>)
    decreases |b|
  {
    a == [] || (b != [] && ((a[0] == b[0] && IsSubsequence(a[1..], b[1..])) || IsSubsequence(a, b[1..])))
  }

  // ---------------------------------------------------------------------------
  // List transformations: `filter` and `map` as the lambdas use them
  // ---------------------------------------------------------------------------

  /** `s.filter((t) => t.id !== id)`. */
  function WithoutId(s: seq<Task>, id: TaskId): (r: seq<Task>)
    ensures forall t :: t in r <==> t in s && t.id != id
    ensures |r| <= |s|
  {
    if s == [] then []
    else if s[0].id == id then WithoutId(s[1..], id)
    else [s[0]] + WithoutId(s[1..], id)
  }

  /** `s.map((t) => (t.id === task.id ? task : t))`. */
  function ReplaceId(s: seq<Task>, task: Task): (r: seq<Task>)
    ensures |r| == |s|
  {
    if s == [] then []
    else [if s[0].id == task.id then task else s[0]] + ReplaceId(s[1..], task)
  }

  // ---------------------------------------------------------------------------
  // The updaters handed to mutateTasks
  // ---------------------------------------------------------------------------

  /** Create response (TaskList.tsx line 36): `(tasks) => [task, ...(tasks ?? [])]`. */
  function Prepended(c: Cache, task: Task): (r: Cache)
    ensures r.Some? && |r.value| == |c.GetOr([])| + 1 && r.value[0] == task
  {
    Some([task] + c.GetOr([]))
  }

  /** Toggle response (line 48) and `taskUpdated` (line 71): `tasks?.map(...)`. */
  function Replaced(c: Cache, task: Task): (r: Cache)
    ensures r.None? <==> c.None?
    ensures c.Some? ==> |r.value| == |c.value|
  {
    match c
    case None => None
    case Some(s) => Some(ReplaceId(s, task))
  }

  /** Delete response (line 56) and `taskDeleted` (line 76): `tasks?.filter(...)`. */
  function Removed(c: Cache, id: TaskId): (r: Cache)
    ensures r.None? <==> c.None?
    ensures c.Some? ==> id !in Ids(r.value) && |r.value| <= |c.value|
  {
    match c
    case None => None
    case Some(s) => Some(WithoutId(s, id))
  }

  /** `taskCreated` (line 66): `[task, ...(tasks?.filter((t) => t.id !== task.id) ?? [])]`. */
  function MergedCreated(c: Cache, task: Task): (r: Cache)
    ensures r.Some? && |r.value| > 0 && r.value[0] == task && task.id !in Ids(r.value[1..])
  {
    Some([task] + Removed(c, task.id).GetOr([]))
  }

  /** The event `switch` of the effect (lines 63-83); the union is closed, so the match is exhaustive. */
  function Merged(c: Cache, e: TaskEvent): (r: Cache)
    ensures r.None? <==> c.None? && !e.TaskCreated?
  {
    match e
    case TaskCreated(task) => MergedCreated(c, task)
    case TaskUpdated(task) => Replaced(c, task)
    case TaskDeleted(id) => Removed(c, id)
  }

  /** Events merged one at a time, in delivery order. */
  function MergedAll(c: Cache, es: seq<TaskEvent>): (r: Cache)
    ensures c.Some? ==> r.Some?
    ensures r.None? ==> forall i :: 0 <= i < |es| ==> !es[i].TaskCreated?
    decreases |es|
  {
    if es == [] then c else MergedAll(Merged(c, es[0]), es[1..])
  }

  // ---------------------------------------------------------------------------
  // Facts about the list transformations
  // ---------------------------------------------------------------------------

  /** Prepending keeps ids unique exactly when the new id is not already there. */
  lemma UniqueCons(x: Task, s: seq<Task>)
    ensures UniqueIds([x] + s) <==> x.id !in Ids(s) && UniqueIds(s)
  {
    var xs := [x] + s;
    assert forall k :: 0 <= k < |s| ==> xs[k + 1] == s[k];
    if UniqueIds(xs) {
      forall i, j | 0 <= i < j < |s| ensures s[i].id != s[j].id {
        assert xs[i + 1] == s[i] && xs[j + 1] == s[j];
      }
      forall t | t in s ensures t.id != x.id {
        var k :| 0 <= k < |s| && s[k] == t;
        assert xs[0] == x && xs[k + 1] == t;
      }
    }
    if x.id !in Ids(s) && UniqueIds(s) {
      forall i, j | 0 <= i < j < |xs| ensures xs[i].id != xs[j].id {
        assert xs[j] == s[j - 1];
        if i == 0 {
          assert s[j - 1] in s;
        } else {
          assert xs[i] == s[i - 1];
        }
      }
    }
  }

  /** Filtering keeps the surviving elements in their original relative order. */
  lemma {:induction false} WithoutIdKeepsOrder(s: seq<Task>, id: TaskId)
    ensures IsSubsequence(WithoutId(s, id), s)
    decreases |s|
  {
    if s != [] {
      WithoutIdKeepsOrder(s[1..], id);
      if s[0].id != id {
        var r := WithoutId(s[1..], id);
        assert ([s[0]] + r)[0] == s[0];
        assert ([s[0]] + r)[1..] == r;
      }
    }
  }

  /** Filtering removes every copy of `id` and keeps every copy of every other id. */
  lemma {:induction false} WithoutIdCounts(s: seq<Task>, id: TaskId, k: TaskId)
    ensures CountId(WithoutId(s, id), k) == if k == id then 0 else CountId(s, k)
    decreases |s|
  {
    if s != [] {
      WithoutIdCounts(s[1..], id, k);
      if s[0].id != id {
        var r := WithoutId(s[1..], id);
        assert ([s[0]] + r)[1..] == r;
      }
    }
  }

  /** Filtering out an id that is not there changes nothing. */
  lemma {:induction false} WithoutAbsentId(s: seq<Task>, id: TaskId)
    requires id !in Ids(s)
    ensures WithoutId(s, id) == s
    decreases |s|
  {
    if s != [] {
      assert s[0] in s;
      assert id !in Ids(s[1..]) by {
        forall t | t in s[1..] ensures t.id != id {
          assert t in s;
        }
      }
      WithoutAbsentId(s[1..], id);
      assert s == [s[0]] + s[1..];
    }
  }

  /** Filtering keeps ids unique. */
  lemma {:induction false} WithoutIdKeepsUnique(s: seq<Task>, id: TaskId)
    requires UniqueIds(s)
    ensures UniqueIds(WithoutId(s, id))
    decreases |s|
  {
    if s != [] {
      assert s == [s[0]] + s[1..];
      UniqueCons(s[0], s[1..]);
      WithoutIdKeepsUnique(s[1..], id);
      if s[0].id != id {
        var r := WithoutId(s[1..], id);
        assert s[0].id !in Ids(r) by {
          forall t | t in r ensures t.id != s[0].id {
            assert t in s[1..];
          }
        }
        UniqueCons(s[0], r);
      }
    }
  }

  /** The map replaces exactly the positions whose id matches and keeps every other position. */
  lemma {:induction false} ReplaceIdAt(s: seq<Task>, task: Task, i: nat)
    requires i < |s|
    ensures ReplaceId(s, task)[i] == if s[i].id == task.id then task else s[i]
    decreases |s|
  {
    if i > 0 {
      ReplaceIdAt(s[1..], task, i - 1);
    }
  }

  /** The map never changes the id at any position. */
  lemma ReplaceIdKeepsIds(s: seq<Task>, task: Task)
    ensures forall i :: 0 <= i < |s| ==> ReplaceId(s, task)[i].id == s[i].id
    ensures Ids(ReplaceId(s, task)) == Ids(s)
    ensures UniqueIds(s) ==> UniqueIds(ReplaceId(s, task))
  {
    var r := ReplaceId(s, task);
    forall i | 0 <= i < |s| ensures r[i].id == s[i].id {
      ReplaceIdAt(s, task, i);
    }
    forall k | k in Ids(r) ensures k in Ids(s) {
      var t :| t in r && t.id == k;
      var i :| 0 <= i < |r| && r[i] == t;
      assert s[i] in s;
    }
    forall k | k in Ids(s) ensures k in Ids(r) {
      var t :| t in s && t.id == k;
      var i :| 0 <= i < |s| && s[i] == t;
      assert r[i] in r;
    }
  }

  /** Replacing an id that is not present changes nothing: no resurrection. */
  lemma ReplaceAbsentId(s: seq<Task>, task: Task)
    requires task.id !in Ids(s)
    ensures ReplaceId(s, task) == s
  {
    forall i | 0 <= i < |s| ensures ReplaceId(s, task)[i] == s[i] {
      ReplaceIdAt(s, task, i);
      assert s[i] in s;
    }
  }

  /** Removing after replacing the same id is the same as removing alone. */
  lemma {:induction false} ReplaceThenWithout(s: seq<Task>, task: Task)
    ensures WithoutId(ReplaceId(s, task), task.id) == WithoutId(s, task.id)
    decreases |s|
  {
    if s != [] {
      ReplaceThenWithout(s[1..], task);
      var h := if s[0].id == task.id then task else s[0];
      assert ([h] + ReplaceId(s[1..], task))[0] == h;
      assert ([h] + ReplaceId(s[1..], task))[1..] == ReplaceId(s[1..], task);
    }
  }

  // ---------------------------------------------------------------------------
  // Properties of each updater
  // ---------------------------------------------------------------------------

  /**
   * Create response: the returned task becomes the head and the list grows by one.
   * It does NOT dedupe, so ids stay unique exactly when the id was new.
   */
  lemma PrependedShape(c: Cache, task: Task)
    ensures Prepended(c, task).Some?
    ensures Prepended(c, task).value[0] == task
    ensures Prepended(c, task).value[1..] == c.GetOr([])
    ensures |Prepended(c, task).value| == |c.GetOr([])| + 1
    ensures UniqueIds(Prepended(c, task).value) <==> UniqueIds(c.GetOr([])) && task.id !in Ids(c.GetOr([]))
  {
    UniqueCons(task, c.GetOr([]));
  }

  /**
   * `taskCreated`: the event task is the head, it is the only element with its id,
   * the rest is the old list without that id in its old order, every other id
   * occurs as often as before, and an unloaded cache becomes `[task]`.
   */
  lemma MergedCreatedShape(c: Cache, task: Task)
    ensures MergedCreated(c, task).Some?
    ensures MergedCreated(c, task).value[0] == task
    ensures CountId(MergedCreated(c, task).value, task.id) == 1
    ensures IsSubsequence(MergedCreated(c, task).value[1..], c.GetOr([]))
    ensures forall t :: t in MergedCreated(c, task).value[1..] <==> t in c.GetOr([]) && t.id != task.id
    ensures forall k :: k != task.id ==> CountId(MergedCreated(c, task).value, k) == CountId(c.GetOr([]), k)
    ensures c == None ==> MergedCreated(c, task) == Some([task])
    ensures UniqueIds(c.GetOr([])) ==> UniqueIds(MergedCreated(c, task).value)
  {
    var s := c.GetOr([]);
    var w := WithoutId(s, task.id);
    assert Removed(c, task.id).GetOr([]) == w;
    var r := [task] + w;
    assert r[1..] == w;
    WithoutIdCounts(s, task.id, task.id);
    WithoutIdKeepsOrder(s, task.id);
    forall k | k != task.id ensures CountId(r, k) == CountId(s, k) {
      WithoutIdCounts(s, task.id, k);
    }
    if c == None {
      assert r == [task];
    }
    if UniqueIds(s) {
      WithoutIdKeepsUnique(s, task.id);
      UniqueCons(task, w);
    }
  }

  /**
   * `taskUpdated` and the toggle response: length, positions and ids are kept,
   * only elements with the task's id are replaced, an absent id leaves the list
   * as it was, and an unloaded cache stays unloaded.
   */
  lemma ReplacedShape(c: Cache, task: Task)
    ensures c == None <==> Replaced(c, task) == None
    ensures c.Some? ==> |Replaced(c, task).value| == |c.value|
    ensures c.Some? ==> forall i :: 0 <= i < |c.value| ==>
      Replaced(c, task).value[i] == if c.value[i].id == task.id then task else c.value[i]
    ensures c.Some? ==> Ids(Replaced(c, task).value) == Ids(c.value)
    ensures c.Some? && task.id !in Ids(c.value) ==> Replaced(c, task) == c
    ensures CacheUnique(c) ==> CacheUnique(Replaced(c, task))
  {
    if c.Some? {
      forall i | 0 <= i < |c.value| ensures ReplaceId(c.value, task)[i] == if c.value[i].id == task.id then task else c.value[i] {
        ReplaceIdAt(c.value, task, i);
      }
      ReplaceIdKeepsIds(c.value, task);
      if task.id !in Ids(c.value) {
        ReplaceAbsentId(c.value, task);
      }
    }
  }

  /**
   * `taskDeleted` and the delete response: no element with the id remains, every
   * other element stays in its old order, applying it twice is applying it once,
   * and an unloaded cache stays unloaded.
   */
  lemma RemovedShape(c: Cache, id: TaskId)
    ensures c == None <==> Removed(c, id) == None
    ensures c.Some? ==> id !in Ids(Removed(c, id).value)
    ensures c.Some? ==> forall t :: t in Removed(c, id).value <==> t in c.value && t.id != id
    ensures c.Some? ==> IsSubsequence(Removed(c, id).value, c.value)
    ensures c.Some? ==> forall k :: k != id ==> CountId(Removed(c, id).value, k) == CountId(c.value, k)
    ensures Removed(Removed(c, id), id) == Removed(c, id)
    ensures CacheUnique(c) ==> CacheUnique(Removed(c, id))
  {
    if c.Some? {
      var w := WithoutId(c.value, id);
      WithoutIdKeepsOrder(c.value, id);
      forall k | k != id ensures CountId(w, k) == CountId(c.value, k) {
        WithoutIdCounts(c.value, id, k);
      }
      WithoutAbsentId(w, id);
      if UniqueIds(c.value) {
        WithoutIdKeepsUnique(c.value, id);
      }
    }
  }

  // ---------------------------------------------------------------------------
  // Properties of event sequences
  // ---------------------------------------------------------------------------

  /** Every push merge keeps ids unique. */
  lemma MergedKeepsUnique(c: Cache, e: TaskEvent)
    requires CacheUnique(c)
    ensures CacheUnique(Merged(c, e))
  {
    match e
    case TaskCreated(task) => MergedCreatedShape(c, task);
    case TaskUpdated(task) => ReplacedShape(c, task);
    case TaskDeleted(id) => RemovedShape(c, id);
  }

  /** Any sequence of push events, merged in order, keeps ids unique. */
  lemma {:induction false} MergedAllKeepsUnique(c: Cache, es: seq<TaskEvent>)
    requires CacheUnique(c)
    ensures CacheUnique(MergedAll(c, es))
    decreases |es|
  {
    if es != [] {
      MergedKeepsUnique(c, es[0]);
      MergedAllKeepsUnique(Merged(c, es[0]), es[1..]);
    }
  }

  /** Merging `a + b` is merging `a`, then merging `b` into the result. */
  lemma {:induction false} MergedAllAppend(c: Cache, a: seq<TaskEvent>, b: seq<TaskEvent>)
    ensures MergedAll(c, a + b) == MergedAll(MergedAll(c, a), b)
    decreases |a|
  {
    if a == [] {
      assert a + b == b;
    } else {
      assert (a + b)[0] == a[0];
      assert (a + b)[1..] == a[1..] + b;
      MergedAllAppend(Merged(c, a[0]), a[1..], b);
    }
  }

  /** Merging a two-event sequence is merging the first event, then the second. */
  lemma MergedAllPair(c: Cache, e1: TaskEvent, e2: TaskEvent)
    ensures MergedAll(c, [e1, e2]) == Merged(Merged(c, e1), e2)
  {
    assert [e1, e2][1..] == [e2];
    assert [e2][1..] == [];
    assert MergedAll(Merged(c, e1), [e2]) == MergedAll(Merged(Merged(c, e1), e2), []);
  }

  /** Deleted(x) then Updated(x) leaves x absent: the late update does not resurrect it. */
  lemma DeleteThenUpdate(c: Cache, task: Task)
    ensures MergedAll(c, [TaskDeleted(task.id), TaskUpdated(task)]) == Removed(c, task.id)
    ensures c.Some? ==> task.id !in Ids(MergedAll(c, [TaskDeleted(task.id), TaskUpdated(task)]).value)
  {
    MergedAllPair(c, TaskDeleted(task.id), TaskUpdated(task));
    RemovedShape(c, task.id);
    if c.Some? {
      ReplaceAbsentId(WithoutId(c.value, task.id), task);
    }
  }

  /**
   * Updated(x) then Deleted(x) leaves x absent too; both orders end in the same
   * list, the old one without x.
   */
  lemma UpdateThenDelete(c: Cache, task: Task)
    ensures MergedAll(c, [TaskUpdated(task), TaskDeleted(task.id)]) == Removed(c, task.id)
    ensures c.Some? ==> task.id !in Ids(MergedAll(c, [TaskUpdated(task), TaskDeleted(task.id)]).value)
  {
    MergedAllPair(c, TaskUpdated(task), TaskDeleted(task.id));
    RemovedShape(c, task.id);
    if c.Some? {
      ReplaceThenWithout(c.value, task);
    }
  }

  /**
   * A create response followed by its own `taskCreated` echo ends as if only the
   * echo had been merged: one element with the id, at the head.
   */
  lemma EchoAfterResponse(c: Cache, task: Task)
    ensures Merged(Prepended(c, task), TaskCreated(task)) == MergedCreated(c, task)
    ensures CountId(Merged(Prepended(c, task), TaskCreated(task)).value, task.id) == 1
  {
    var s := c.GetOr([]);
    assert ([task] + s)[0] == task;
    assert ([task] + s)[1..] == s;
    assert WithoutId([task] + s, task.id) == WithoutId(s, task.id);
    assert Removed(c, task.id).GetOr([]) == WithoutId(s, task.id);
    MergedCreatedShape(c, task);
  }

  /**
   * The other interleaving: when the echo is merged before the create response
   * arrives, the response's prepend adds a second element with the same id.
   */
  lemma EchoBeforeResponse(c: Cache, task: Task)
    ensures CountId(Prepended(MergedCreated(c, task), task).value, task.id) == 2
    ensures !UniqueIds(Prepended(MergedCreated(c, task), task).value)
  {
    var m := MergedCreated(c, task).value;
    MergedCreatedShape(c, task);
    var p := [task] + m;
    assert p[1..] == m;
    assert p[0] == task && p[1] == task;
  }
}
