/** The persisted records: tasks and buckets. */
module Model {
  import opened Wrappers
  import opened Seqs

  /** A unit of work. `dueDate` is a `YYYY-MM-DD` key, or None for the
      backlog (a JSON `null`). */
  datatype Task = Task(
    id: string,
    title: string,
    completed: bool,
    bucketId: string,
    createdAt: string,
    dueDate: Option<string>,
    rolledOver: bool)

  /** A named grouping of tasks. */
  datatype Bucket = Bucket(id: string, name: string, createdAt: string)

  /** The id of the conventional default bucket. */
  const InboxId: string := "inbox"

  /** A `Partial<Task>`: each field the update object carries, or None when
      it leaves that field alone. */
  datatype TaskPatch = TaskPatch(
    id: Option<string>,
    title: Option<string>,
    completed: Option<bool>,
    bucketId: Option<string>,
    createdAt: Option<string>,
    dueDate: Option<Option<string>>,
    rolledOver: Option<bool>)

  /** The patch that carries no field. */
  const EmptyPatch := TaskPatch(None, None, None, None, None, None, None)

  /** `{ ...t, ...patch }`: the fields the patch carries override those of `t`. */
  function ApplyPatch(t: Task, p: TaskPatch): (r: Task)
    ensures p.id.None? ==> r.id == t.id
    ensures p.id.Some? ==> r.id == p.id.value
    ensures p.title.None? ==> r.title == t.title
    ensures p.title.Some? ==> r.title == p.title.value
    ensures p.completed.None? ==> r.completed == t.completed
    ensures p.completed.Some? ==> r.completed == p.completed.value
    ensures p.bucketId.None? ==> r.bucketId == t.bucketId
    ensures p.bucketId.Some? ==> r.bucketId == p.bucketId.value
    ensures p.createdAt.None? ==> r.createdAt == t.createdAt
    ensures p.createdAt.Some? ==> r.createdAt == p.createdAt.value
    ensures p.dueDate.None? ==> r.dueDate == t.dueDate
    ensures p.dueDate.Some? ==> r.dueDate == p.dueDate.value
    ensures p.rolledOver.None? ==> r.rolledOver == t.rolledOver
    ensures p.rolledOver.Some? ==> r.rolledOver == p.rolledOver.value
  {
    Task(
      p.id.GetOr(t.id),
      p.title.GetOr(t.title),
      p.completed.GetOr(t.completed),
      p.bucketId.GetOr(t.bucketId),
      p.createdAt.GetOr(t.createdAt),
      p.dueDate.GetOr(t.dueDate),
      p.rolledOver.GetOr(t.rolledOver))
  }

  /** Spreading an empty update object changes nothing. */
  lemma EmptyPatchIsIdentity(t: Task)
    ensures ApplyPatch(t, EmptyPatch) == t
  {
  }

  /** Whether some task in `ts` has id `id` (`find(...)` is truthy). */
  predicate HasTaskId(ts: seq<Task>, id: string)
  {
    exists i :: 0 <= i < |ts| && ts[i].id == id
  }

  /** The ids of the tasks are pairwise different. */
  predicate DistinctTaskIds(ts: seq<Task>)
  {
    forall i, j :: 0 <= i < j < |ts| ==> ts[i].id != ts[j].id
  }

  /** The ids of the buckets, in order. */
  function BucketIds(buckets: seq<Bucket>): (ids: seq<string>)
    ensures |ids| == |buckets|
    ensures forall i :: 0 <= i < |buckets| ==> ids[i] == buckets[i].id
  {
    seq(|buckets|, i requires 0 <= i < |buckets| => buckets[i].id)
  }

  /** Some bucket has id `id` (`find(...)` is truthy). */
  predicate HasBucketId(bs: seq<Bucket>, id: string)
  {
    id in BucketIds(bs)
  }

  // ---------------------------------------------------------------------
  // Task predicates shared by the adapter and the views

  /** The task is scheduled on `date`. */
  function DueOn(date: string): Task -> bool
  {
    (t: Task) => t.dueDate == Some(date)
  }

  /** Every task of the list is completed (`every((t) => t.completed)`). */
  predicate AllCompleted(ts: seq<Task>)
  {
    forall i :: 0 <= i < |ts| ==> ts[i].completed
  }

  /** The task is filed under bucket `id`. */
  function InBucket(id: string): Task -> bool
  {
    (t: Task) => t.bucketId == id
  }

  /** The task's id is not `id`. */
  function IdIsNot(id: string): Task -> bool
  {
    (t: Task) => t.id != id
  }

  /** The tasks due on `date` are non-empty exactly when some task is due
      then, and all completed exactly when every task due then is. */
  lemma DueFacts(tasks: seq<Task>, date: string)
    ensures |Filter(tasks, DueOn(date))| > 0 <==> exists i :: 0 <= i < |tasks| && tasks[i].dueDate == Some(date)
    ensures AllCompleted(Filter(tasks, DueOn(date))) <==>
      forall i :: 0 <= i < |tasks| && tasks[i].dueDate == Some(date) ==> tasks[i].completed
  {
    DueNonEmpty(tasks, date);
    DueAllCompleted(tasks, date);
  }

  lemma DueNonEmpty(tasks: seq<Task>, date: string)
    ensures |Filter(tasks, DueOn(date))| > 0 <==> exists i :: 0 <= i < |tasks| && tasks[i].dueDate == Some(date)
  {
    var due := Filter(tasks, DueOn(date));
    if exists i :: 0 <= i < |tasks| && tasks[i].dueDate == Some(date) {
      var i :| 0 <= i < |tasks| && tasks[i].dueDate == Some(date);
      assert DueOn(date)(tasks[i]);
      assert tasks[i] in due;
    }
    if |due| > 0 {
      assert due[0] in due;
      assert DueOn(date)(due[0]);
      var i :| 0 <= i < |tasks| && tasks[i] == due[0];
    }
  }

  lemma DueAllCompleted(tasks: seq<Task>, date: string)
    ensures AllCompleted(Filter(tasks, DueOn(date))) <==>
      forall i :: 0 <= i < |tasks| && tasks[i].dueDate == Some(date) ==> tasks[i].completed
  {
    var due := Filter(tasks, DueOn(date));
    if AllCompleted(due) {
      forall i | 0 <= i < |tasks| && tasks[i].dueDate == Some(date)
        ensures tasks[i].completed
      {
        assert DueOn(date)(tasks[i]);
        assert tasks[i] in due;
        var j :| 0 <= j < |due| && due[j] == tasks[i];
      }
    }
    if forall i :: 0 <= i < |tasks| && tasks[i].dueDate == Some(date) ==> tasks[i].completed {
      forall j | 0 <= j < |due|
        ensures due[j].completed
      {
        assert due[j] in due;
        assert DueOn(date)(due[j]);
        var i :| 0 <= i < |tasks| && tasks[i] == due[j];
      }
    }
  }

  /** Removing the tasks with id `id` leaves none with it and keeps the rest. */
  lemma RemoveIdFacts(ts: seq<Task>, id: string)
    ensures !HasTaskId(Filter(ts, IdIsNot(id)), id)
    ensures forall t :: multiset(Filter(ts, IdIsNot(id)))[t] == if t.id == id then 0 else multiset(ts)[t]
    ensures !HasTaskId(ts, id) ==> Filter(ts, IdIsNot(id)) == ts
    ensures Subsequence(Filter(ts, IdIsNot(id)), ts)
  {
    FilterIsSubsequence(ts, IdIsNot(id));
    var r := Filter(ts, IdIsNot(id));
    forall i | 0 <= i < |r|
      ensures r[i].id != id
    {
      assert r[i] in r;
      assert IdIsNot(id)(r[i]);
    }
    FilterCount(ts, IdIsNot(id));
    forall t
      ensures multiset(r)[t] == if t.id == id then 0 else multiset(ts)[t]
    {
      assert IdIsNot(id)(t) == (t.id != id);
    }
    if !HasTaskId(ts, id) {
      forall t | t in ts
        ensures IdIsNot(id)(t)
      {
        var i :| 0 <= i < |ts| && ts[i] == t;
      }
      FilterKeepsAll(ts, IdIsNot(id));
    }
  }
}
