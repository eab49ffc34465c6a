/** The local-storage adapter: bucket and task persistence, the migration of
    legacy task records, and the day rollover with its streak counter.

    The browser store is a record with one optional field per key
    (`ivylee:buckets`, `ivylee:tasks`, `ivylee:streak`, `ivylee:lastDate`);
    None stands for a key that is missing or does not parse, and reading a
    key with a fallback is `GetOr`. Every adapter method is a function from
    the store before the call to the store after it (and its return value).
    The clock and the id generator are passed in as an `Env`. */
module Storage {
  import opened Wrappers
  import opened Seqs
  import opened Model
  import opened Dates

  /** One element of the persisted task array: either already in the current
      shape (it has `id` and `title`), or a legacy `{ name, completed }`
      record. `completed` is the truthiness of the legacy flag. */
  datatype RawTask = Current(task: Task) | Legacy(name: Option<string>, completed: bool)

  datatype Store = Store(
    buckets: Option<seq<Bucket>>,
    tasks: Option<seq<RawTask>>,
    streak: Option<int>,
    lastDate: Option<string>)

  /** What the adapter reads from its surroundings: today's date key, the
      current ISO timestamp, and a supply of fresh ids (the legacy element at
      index i of the task array receives `newId(i)`). */
  datatype Env = Env(today: string, now: string, newId: nat -> string)

  /** A method's return value together with the store it leaves behind. */
  datatype Out<T> = Out(store: Store, value: T)

  const EmptyStore := Store(None, None, None, None)

  /** The bucket `getBuckets` creates when there is none. */
  function DefaultInbox(now: string): Bucket
  {
    Bucket(InboxId, "Inbox", now)
  }

  // ---------------------------------------------------------------------
  // Migration

  /** The current-shape task a legacy record turns into. */
  function FromLegacy(name: Option<string>, completed: bool, id: string, env: Env): (t: Task)
    ensures t.id == id && t.title == name.GetOr("") && t.completed == completed
    ensures t.bucketId == InboxId && t.createdAt == env.now
    ensures t.dueDate == Some(env.today) && !t.rolledOver
  {
    Task(id, name.GetOr(""), completed, InboxId, env.now, Some(env.today), false)
  }

  function MigrateOne(raw: RawTask, index: nat, env: Env): Task
  {
    match raw
    case Current(t) => t
    case Legacy(name, completed) => FromLegacy(name, completed, env.newId(index), env)
  }

  /** `migrateTasks`: current-shape elements pass through unchanged, legacy
      ones are rebuilt; the array keeps its length and order. */
  function Migrate(raw: seq<RawTask>, env: Env): (ts: seq<Task>)
    ensures |ts| == |raw|
    ensures forall i :: 0 <= i < |raw| && raw[i].Current? ==> ts[i] == raw[i].task
    ensures forall i :: 0 <= i < |raw| && raw[i].Legacy? ==>
      && ts[i].id == env.newId(i)
      && ts[i].title == raw[i].name.GetOr("")
      && ts[i].completed == raw[i].completed
      && ts[i].bucketId == InboxId
      && ts[i].createdAt == env.now
      && ts[i].dueDate == Some(env.today)
      && !ts[i].rolledOver
  {
    seq(|raw|, i requires 0 <= i < |raw| => MigrateOne(raw[i], i, env))
  }

  /** The array `writeJSON` stores for a list of tasks. */
  function Stored(ts: seq<Task>): (raw: seq<RawTask>)
    ensures |raw| == |ts|
    ensures forall i :: 0 <= i < |ts| ==> raw[i] == Current(ts[i])
  {
    seq(|ts|, i requires 0 <= i < |ts| => Current(ts[i]))
  }

  /** Migrating a list that is already in the current shape is the identity,
      whatever the clock and id supply say. */
  lemma MigrateStoredIsIdentity(ts: seq<Task>, env: Env)
    ensures Migrate(Stored(ts), env) == ts
  {
  }

  /** Migration is idempotent: migrating the persisted result of a migration
      returns it unchanged. */
  lemma MigrateIdempotent(raw: seq<RawTask>, env: Env, env': Env)
    ensures Migrate(Stored(Migrate(raw, env)), env') == Migrate(raw, env)
  {
    MigrateStoredIsIdentity(Migrate(raw, env), env');
  }

  /** Migration keeps ids unique: when the current-shape elements have
      pairwise different ids and the id supply is injective and avoids them,
      every task of the migrated list has its own id. */
  lemma MigrateIdsDistinct(raw: seq<RawTask>, env: Env)
    requires forall i, j :: 0 <= i < j < |raw| && raw[i].Current? && raw[j].Current? ==>
      raw[i].task.id != raw[j].task.id
    requires forall i, j :: 0 <= i < j < |raw| && raw[i].Legacy? && raw[j].Legacy? ==>
      env.newId(i) != env.newId(j)
    requires forall i, j :: 0 <= i < |raw| && 0 <= j < |raw| && raw[i].Legacy? && raw[j].Current? ==>
      env.newId(i) != raw[j].task.id
    ensures DistinctTaskIds(Migrate(raw, env))
  {
    var ts := Migrate(raw, env);
    forall i, j | 0 <= i < j < |ts|
      ensures ts[i].id != ts[j].id
    {
      if raw[i].Current? && raw[j].Legacy? {
        assert ts[j].id == env.newId(j) != raw[i].task.id;
      }
    }
  }

  // ---------------------------------------------------------------------
  // Upsert by id

  function BucketKey(b: Bucket): string { b.id }
  function TaskKey(t: Task): string { t.id }

  /** Replace every element whose key is that of `x` by `x`, or append `x`
      when no element has that key. */
  function Upsert<T>(xs: seq<T>, x: T, key: T -> string): (r: seq<T>)
    ensures (exists i :: 0 <= i < |xs| && key(xs[i]) == key(x)) ==>
      && |r| == |xs|
      && forall i :: 0 <= i < |xs| ==> r[i] == if key(xs[i]) == key(x) then x else xs[i]
    ensures (forall i :: 0 <= i < |xs| ==> key(xs[i]) != key(x)) ==> r == xs + [x]
  {
    if exists i :: 0 <= i < |xs| && key(xs[i]) == key(x) then
      seq(|xs|, i requires 0 <= i < |xs| => if key(xs[i]) == key(x) then x else xs[i])
    else xs + [x]
  }

  /** The set of keys present in `xs`. */
  function KeySet<T>(xs: seq<T>, key: T -> string): set<string>
  {
    set i | 0 <= i < |xs| :: key(xs[i])
  }

  /** After an upsert the value is present, the keys are the old keys plus
      its key, and upserting it again changes nothing. */
  lemma UpsertProperties<T>(xs: seq<T>, x: T, key: T -> string)
    ensures x in Upsert(xs, x, key)
    ensures KeySet(Upsert(xs, x, key), key) == KeySet(xs, key) + {key(x)}
    ensures Upsert(Upsert(xs, x, key), x, key) == Upsert(xs, x, key)
  {
    var r := Upsert(xs, x, key);
    if exists i :: 0 <= i < |xs| && key(xs[i]) == key(x) {
      var j :| 0 <= j < |xs| && key(xs[j]) == key(x);
      assert r[j] == x;
      forall k | k in KeySet(xs, key)
        ensures k in KeySet(r, key)
      {
        var i :| 0 <= i < |xs| && key(xs[i]) == k;
        assert key(r[i]) == k;
      }
    } else {
      assert r[|xs|] == x;
      forall k | k in KeySet(xs, key)
        ensures k in KeySet(r, key)
      {
        var i :| 0 <= i < |xs| && key(xs[i]) == k;
        assert r[i] == xs[i];
      }
      assert key(r[|xs|]) in KeySet(r, key);
    }
  }

  // ---------------------------------------------------------------------
  // The adapter

  /** The persisted task array as `readJSON(tasks, [])` returns it. */
  function Persisted(s: Store): seq<RawTask>
  {
    s.tasks.GetOr([])
  }

  /** The tasks `getTasks` would return on store `s`. */
  function TasksOf(s: Store, env: Env): seq<Task>
  {
    Migrate(Persisted(s), env)
  }

  /** `getBuckets`: the stored buckets, or, when there are none (missing key
      or empty array), a freshly persisted Inbox. */
  function GetBuckets(s: Store, env: Env): (r: Out<seq<Bucket>>)
    ensures |r.value| > 0
    ensures r.store == s.(buckets := Some(r.value))
    ensures |s.buckets.GetOr([])| > 0 ==> r.store == s && r.value == s.buckets.value
    ensures |s.buckets.GetOr([])| == 0 ==> r.value == [DefaultInbox(env.now)]
  {
    var buckets := s.buckets.GetOr([]);
    if |buckets| == 0 then
      var inbox := [DefaultInbox(env.now)];
      Out(s.(buckets := Some(inbox)), inbox)
    else Out(s, buckets)
  }

  /** A second `getBuckets` returns what the first did and writes nothing,
      whatever the clock says by then. */
  lemma GetBucketsStable(s: Store, env: Env, env': Env)
    ensures GetBuckets(GetBuckets(s, env).store, env') == Out(GetBuckets(s, env).store, GetBuckets(s, env).value)
  {
  }

  /** On an empty store `getBuckets` yields exactly the Inbox. */
  lemma GetBucketsOnEmptyStore(env: Env)
    ensures GetBuckets(EmptyStore, env).value == [Bucket("inbox", "Inbox", env.now)]
  {
  }

  /** `getTasks`: migrate the stored array, write the migrated form back,
      return it. */
  function GetTasks(s: Store, env: Env): (r: Out<seq<Task>>)
    ensures r.value == TasksOf(s, env)
    ensures r.store == s.(tasks := Some(Stored(r.value)))
    ensures TasksOf(r.store, env) == r.value
  {
    var tasks := Migrate(Persisted(s), env);
    MigrateStoredIsIdentity(tasks, env);
    Out(s.(tasks := Some(Stored(tasks))), tasks)
  }

  /** `saveBucket`: read the buckets (creating the Inbox if needed), then
      upsert by id. */
  function SaveBucket(s: Store, bucket: Bucket, env: Env): (r: Store)
    ensures r.(buckets := s.buckets) == s
    ensures var before := GetBuckets(s, env).value;
      var after := r.buckets.GetOr([]);
      && (HasBucketId(before, bucket.id) ==>
            && |after| == |before|
            && forall i :: 0 <= i < |before| ==>
                 after[i] == if before[i].id == bucket.id then bucket else before[i])
      && (!HasBucketId(before, bucket.id) ==> after == before + [bucket])
  {
    var o := GetBuckets(s, env);
    o.store.(buckets := Some(Upsert(o.value, bucket, BucketKey)))
  }

  /** `saveTask`: read (and migrate) the tasks, then upsert by id. */
  function SaveTask(s: Store, task: Task, env: Env): (r: Store)
    ensures r.(tasks := s.tasks) == s
    ensures r.tasks == Some(Stored(TasksOf(r, env)))
    ensures var before := TasksOf(s, env);
      var after := TasksOf(r, env);
      && (HasTaskId(before, task.id) ==>
            && |after| == |before|
            && forall i :: 0 <= i < |before| ==>
                 after[i] == if before[i].id == task.id then task else before[i])
      && (!HasTaskId(before, task.id) ==> after == before + [task])
  {
    var o := GetTasks(s, env);
    var next := Upsert(o.value, task, TaskKey);
    MigrateStoredIsIdentity(next, env);
    o.store.(tasks := Some(Stored(next)))
  }

  /** `updateTask`: every task with the id becomes itself overridden by the
      patch; all others, and the length, stay. */
  function UpdateTask(s: Store, id: string, patch: TaskPatch, env: Env): (r: Store)
    ensures r.(tasks := s.tasks) == s
    ensures r.tasks == Some(Stored(TasksOf(r, env)))
    ensures var before := TasksOf(s, env);
      var after := TasksOf(r, env);
      && |after| == |before|
      && (forall i :: 0 <= i < |before| && before[i].id == id ==> after[i] == ApplyPatch(before[i], patch))
      && (forall i :: 0 <= i < |before| && before[i].id != id ==> after[i] == before[i])
      && (!HasTaskId(before, id) ==> after == before)
  {
    var o := GetTasks(s, env);
    var next := seq(|o.value|, i requires 0 <= i < |o.value| =>
      if o.value[i].id == id then ApplyPatch(o.value[i], patch) else o.value[i]);
    MigrateStoredIsIdentity(next, env);
    o.store.(tasks := Some(Stored(next)))
  }

  /** `deleteTask`: every task with the id is removed; the others keep their
      multiplicity, and (being a filter) their relative order. */
  function DeleteTask(s: Store, id: string, env: Env): (r: Store)
    ensures r.(tasks := s.tasks) == s
    ensures r.tasks == Some(Stored(TasksOf(r, env)))
    ensures var before := TasksOf(s, env);
      var after := TasksOf(r, env);
      && !HasTaskId(after, id)
      && (forall t :: multiset(after)[t] == if t.id == id then 0 else multiset(before)[t])
      && Subsequence(after, before)
      && (!HasTaskId(before, id) ==> after == before)
  {
    var o := GetTasks(s, env);
    var next := Filter(o.value, IdIsNot(id));
    MigrateStoredIsIdentity(next, env);
    RemoveIdFacts(o.value, id);
    o.store.(tasks := Some(Stored(next)))
  }

  // ---------------------------------------------------------------------
  // Streak and last-active-date accessors

  /** `getStreak`: the stored counter, or 0 when there is none. */
  function GetStreak(s: Store): (n: int)
    ensures s.streak.None? ==> n == 0
    ensures s.streak.Some? ==> n == s.streak.value
  {
    s.streak.GetOr(0)
  }

  function SetStreak(s: Store, n: int): (r: Store)
    ensures GetStreak(r) == n
    ensures r.(streak := s.streak) == s
  {
    s.(streak := Some(n))
  }

  /** `getLastActiveDate`: the stored date key, or null when there is none. */
  function GetLastActiveDate(s: Store): (d: Option<string>)
    ensures s.lastDate.None? ==> d.None?
    ensures s.lastDate.Some? ==> d == Some(s.lastDate.value)
  {
    s.lastDate
  }

  function SetLastActiveDate(s: Store, date: string): (r: Store)
    ensures GetLastActiveDate(r) == Some(date)
    ensures r.(lastDate := s.lastDate) == s
  {
    s.(lastDate := Some(date))
  }

  // ---------------------------------------------------------------------
  // Day rollover

  /** Move the incomplete tasks due on `last` to `today`, marking them. */
  function Rollover(tasks: seq<Task>, last: string, today: string): (r: seq<Task>)
    ensures |r| == |tasks|
    ensures forall i :: 0 <= i < |tasks| && tasks[i].dueDate == Some(last) && !tasks[i].completed ==>
      r[i] == tasks[i].(dueDate := Some(today), rolledOver := true)
    ensures forall i :: 0 <= i < |tasks| && !(tasks[i].dueDate == Some(last) && !tasks[i].completed) ==>
      r[i] == tasks[i]
  {
    seq(|tasks|, i requires 0 <= i < |tasks| =>
      if tasks[i].dueDate == Some(last) && !tasks[i].completed
      then tasks[i].(dueDate := Some(today), rolledOver := true)
      else tasks[i])
  }

  /** A day transition: the last active date is a non-empty key strictly
      before today. */
  predicate IsDayTransition(s: Store, today: string)
  {
    s.lastDate.Some? && s.lastDate.value != "" && IsBeforeDate(s.lastDate.value, today)
  }

  /** `resetDay`. With no (or an empty) last active date it only records
      today. When the last active date is not before today it does nothing.
      Otherwise it settles the streak on the tasks due on the last active
      date (+1 if all are completed, 0 if one is not, untouched if there are
      none), moves exactly the incomplete ones among them to today, and
      records today. Only tasks due exactly on the last active date are
      considered, however many days have passed since. */
  function ResetDay(s: Store, env: Env): (r: Store)
    ensures s.lastDate.None? || s.lastDate == Some("") ==> r == s.(lastDate := Some(env.today))
    ensures s.lastDate.Some? && s.lastDate.value != "" && !IsBeforeDate(s.lastDate.value, env.today) ==> r == s
    ensures IsDayTransition(s, env.today) ==>
      var last := s.lastDate.value;
      var before := TasksOf(s, env);
      var after := TasksOf(r, env);
      && r.buckets == s.buckets
      && r.lastDate == Some(env.today)
      && ((forall i :: 0 <= i < |before| ==> before[i].dueDate != Some(last)) ==> r.streak == s.streak)
      && ((exists i :: 0 <= i < |before| && before[i].dueDate == Some(last))
          && (forall i :: 0 <= i < |before| && before[i].dueDate == Some(last) ==> before[i].completed)
          ==> r.streak == Some(GetStreak(s) + 1))
      && ((exists i :: 0 <= i < |before| && before[i].dueDate == Some(last) && !before[i].completed)
          ==> r.streak == Some(0))
      && r.tasks == Some(Stored(after))
      && |after| == |before|
      && (forall i :: 0 <= i < |before| && before[i].dueDate == Some(last) && !before[i].completed ==>
            after[i].dueDate == Some(env.today) && after[i].rolledOver
            && after[i] == before[i].(dueDate := Some(env.today), rolledOver := true))
      && (forall i :: 0 <= i < |before| && !(before[i].dueDate == Some(last) && !before[i].completed) ==>
            after[i] == before[i])
  {
    if s.lastDate.None? || s.lastDate.value == "" then
      s.(lastDate := Some(env.today))
    else if !IsBeforeDate(s.lastDate.value, env.today) then
      s
    else
      var last := s.lastDate.value;
      var o := GetTasks(s, env);
      var yday := Filter(o.value, DueOn(last));
      var s1 :=
        if |yday| > 0 then
          o.store.(streak := Some(if AllCompleted(yday) then GetStreak(s) + 1 else 0))
        else o.store;
      var next := Rollover(o.value, last, env.today);
      MigrateStoredIsIdentity(next, env);
      DueFacts(o.value, last);
      s1.(tasks := Some(Stored(next)), lastDate := Some(env.today))
  }

  /** `resetDay` is idempotent within a day: a second call with the same
      today changes nothing. */
  lemma ResetDayIdempotent(s: Store, env: Env)
    ensures ResetDay(ResetDay(s, env), env) == ResetDay(s, env)
  {
    var r := ResetDay(s, env);
    if s.lastDate.Some? && s.lastDate.value != "" && IsBeforeDate(s.lastDate.value, env.today) {
      StrLessIrreflexive(env.today);
      assert env.today != "";
    } else if s.lastDate.None? || s.lastDate.value == "" {
      StrLessIrreflexive(env.today);
    }
  }

  /** A transition never leaves a task due on the stale date incomplete:
      what is still due on it afterwards is completed. */
  lemma RolloverClearsStaleDay(s: Store, env: Env)
    requires IsDayTransition(s, env.today)
    ensures forall t :: t in TasksOf(ResetDay(s, env), env) && t.dueDate == s.lastDate ==> t.completed
  {
    var last := s.lastDate.value;
    StrLessIrreflexive(last);
    assert last != env.today;
    var before, after := TasksOf(s, env), TasksOf(ResetDay(s, env), env);
    forall t | t in after && t.dueDate == s.lastDate
      ensures t.completed
    {
      var i :| 0 <= i < |after| && after[i] == t;
    }
  }
}
