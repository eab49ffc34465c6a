/** The today list: the tasks due today in the selected bucket, the daily
    cap on adding, toggling and deleting, cycling through buckets, moving
    the keyboard selection, and the header colour. The component's state is
    a `View` record and each handler a function from view to view. */
module TodayList {
  import opened Wrappers
  import opened Seqs
  import opened Model
  import Calendar
  import Mentions
  import Storage

  /** The Ivy Lee limit on tasks due in one day. */
  const DailyLimit: nat := 6

  datatype View = View(
    tasks: seq<Task>,
    buckets: seq<Bucket>,
    selectedBucketId: string,
    selectedIndex: Option<nat>,
    today: string,
    streak: int)

  /** `todaysAll`: every task due today, in list order, one entry for each
      position of the task list that holds one. */
  function TodaysAll(v: View): (ts: seq<Task>)
    ensures forall t :: t in ts <==> t in v.tasks && t.dueDate == Some(v.today)
    ensures Subsequence(ts, v.tasks)
    ensures |ts| == |DuePositions(v)|
  {
    FilterIsSubsequence(v.tasks, DueOn(v.today));
    FilterLengthCounts(v.tasks, DueOn(v.today));
    DuePositionsAre(v);
    Filter(v.tasks, DueOn(v.today))
  }

  /** `todaysForBucket`: the tasks due today in the selected bucket, the
      rows the list shows, in list order. */
  function TodaysForBucket(v: View): (ts: seq<Task>)
    ensures forall t :: t in ts <==>
      t in v.tasks && t.dueDate == Some(v.today) && t.bucketId == v.selectedBucketId
    ensures Subsequence(ts, TodaysAll(v))
  {
    FilterIsSubsequence(TodaysAll(v), InBucket(v.selectedBucketId));
    Filter(TodaysAll(v), InBucket(v.selectedBucketId))
  }

  /** A task due today occurs in `todaysAll` as often as in the task list;
      any other task not at all. */
  lemma TodaysAllMultiplicity(v: View)
    ensures forall t ::
      multiset(TodaysAll(v))[t] == if t.dueDate == Some(v.today) then multiset(v.tasks)[t] else 0
  {
    FilterCount(v.tasks, DueOn(v.today));
  }

  /** A row task occurs among the rows as often as in the task list; any
      other task not at all. */
  lemma TodaysForBucketMultiplicity(v: View)
    ensures forall t ::
      multiset(TodaysForBucket(v))[t] ==
        if t.dueDate == Some(v.today) && t.bucketId == v.selectedBucketId then multiset(v.tasks)[t] else 0
  {
    TodaysAllMultiplicity(v);
    FilterCount(TodaysAll(v), InBucket(v.selectedBucketId));
  }

  /** The positions of the task list that hold a task due today. */
  function DuePositions(v: View): set<int>
  {
    set i | 0 <= i < |v.tasks| && v.tasks[i].dueDate == Some(v.today)
  }

  /** `canAdd`: fewer than six entries of the task list are due today. */
  function CanAdd(v: View): (b: bool)
    ensures b <==> |DuePositions(v)| < DailyLimit
  {
    |TodaysAll(v)| < DailyLimit
  }

  lemma DuePositionsAre(v: View)
    ensures DuePositions(v) == Positions(v.tasks, DueOn(v.today))
  {
    forall i | i in Positions(v.tasks, DueOn(v.today))
      ensures i in DuePositions(v)
    {
      assert DueOn(v.today)(v.tasks[i]);
    }
  }

  /** The task `addTask` creates. */
  function NewTask(v: View, title: string, id: string, now: string): Task
  {
    Task(id, title, false, v.selectedBucketId, now, Some(v.today), false)
  }

  /** `addTask`: refused once the day holds six tasks; otherwise appends a
      fresh incomplete task due today in the selected bucket and selects
      its row. */
  function AddTask(v: View, title: string, id: string, now: string): (r: View)
    ensures !CanAdd(v) ==> r == v
    ensures CanAdd(v) ==>
      && |r.tasks| == |v.tasks| + 1
      && r.tasks == v.tasks + [r.tasks[|v.tasks|]]
      && r.tasks[|v.tasks|].title == title && r.tasks[|v.tasks|].id == id
      && !r.tasks[|v.tasks|].completed && !r.tasks[|v.tasks|].rolledOver
      && r.tasks[|v.tasks|].dueDate == Some(v.today)
      && r.tasks[|v.tasks|].bucketId == v.selectedBucketId
      && r.tasks[|v.tasks|].createdAt == now
      && r.(tasks := v.tasks, selectedIndex := v.selectedIndex) == v
  {
    if !CanAdd(v) then v
    else v.(tasks := v.tasks + [NewTask(v, title, id, now)], selectedIndex := Some(|TodaysForBucket(v)|))
  }

  /** Adding grows the day's list by the new task at its end, and the row
      selected afterwards is the new task. */
  lemma AddTaskSelectsNewTask(v: View, title: string, id: string, now: string)
    requires CanAdd(v)
    ensures var r := AddTask(v, title, id, now);
      && TodaysAll(r) == TodaysAll(v) + [NewTask(v, title, id, now)]
      && r.selectedIndex.Some? && r.selectedIndex.value < |TodaysForBucket(r)|
      && TodaysForBucket(r)[r.selectedIndex.value] == NewTask(v, title, id, now)
  {
    var t := NewTask(v, title, id, now);
    var r := AddTask(v, title, id, now);
    FilterSnoc(v.tasks, t, DueOn(v.today));
    assert DueOn(v.today)(t);
    FilterSnoc(TodaysAll(v), t, InBucket(v.selectedBucketId));
    assert InBucket(v.selectedBucketId)(t);
  }

  /** The cap holds: a day with at most six tasks still has at most six
      after any `addTask`. */
  lemma AddTaskKeepsLimit(v: View, title: string, id: string, now: string)
    requires |TodaysAll(v)| <= DailyLimit
    ensures |TodaysAll(AddTask(v, title, id, now))| <= DailyLimit
  {
    if CanAdd(v) {
      AddTaskSelectsNewTask(v, title, id, now);
    }
  }

  function ToggleOne(t: Task, id: string): Task
  {
    if t.id == id then t.(completed := !t.completed) else t
  }

  function Toggler(id: string): Task -> Task
  {
    (t: Task) => ToggleOne(t, id)
  }

  /** `toggleTaskById` on the task list. */
  function ToggleTaskById(tasks: seq<Task>, id: string): (r: seq<Task>)
    ensures |r| == |tasks|
    ensures forall i :: 0 <= i < |tasks| && tasks[i].id == id ==>
      r[i].completed == !tasks[i].completed && r[i].(completed := tasks[i].completed) == tasks[i]
    ensures forall i :: 0 <= i < |tasks| && tasks[i].id != id ==> r[i] == tasks[i]
  {
    Map(tasks, Toggler(id))
  }

  /** Toggling twice restores the list. */
  lemma ToggleTaskByIdTwice(tasks: seq<Task>, id: string)
    ensures ToggleTaskById(ToggleTaskById(tasks, id), id) == tasks
  {
  }

  /** `toggleTaskById` on the view: the rows of the list stay where they
      are, and those with the id flip their completion. */
  function ToggleTask(v: View, id: string): (r: View)
    ensures r.tasks == ToggleTaskById(v.tasks, id)
    ensures TodaysForBucket(r) == ToggleTaskById(TodaysForBucket(v), id)
    ensures r.(tasks := v.tasks) == v
  {
    MapFilterCommute(v.tasks, Toggler(id), DueOn(v.today));
    MapFilterCommute(Filter(v.tasks, DueOn(v.today)), Toggler(id), InBucket(v.selectedBucketId));
    v.(tasks := ToggleTaskById(v.tasks, id))
  }

  function Completer(bucketId: string, today: string): Task -> Task
  {
    (t: Task) => if t.bucketId == bucketId && t.dueDate == Some(today) then t.(completed := true) else t
  }

  /** The double-tap gesture's effect: every task due today in the selected
      bucket becomes completed; nothing else changes. */
  function CompleteBucketToday(v: View): (r: View)
    ensures |r.tasks| == |v.tasks|
    ensures forall i :: 0 <= i < |v.tasks| ==>
      if v.tasks[i].bucketId == v.selectedBucketId && v.tasks[i].dueDate == Some(v.today)
      then r.tasks[i] == v.tasks[i].(completed := true)
      else r.tasks[i] == v.tasks[i]
    ensures r.(tasks := v.tasks) == v
  {
    v.(tasks := Map(v.tasks, Completer(v.selectedBucketId, v.today)))
  }

  /** After the double tap the list shows the same rows, all completed. */
  lemma CompleteBucketTodayFinishesRows(v: View)
    ensures var r := CompleteBucketToday(v);
      && |TodaysForBucket(r)| == |TodaysForBucket(v)|
      && AllCompleted(TodaysForBucket(r))
  {
    var f := Completer(v.selectedBucketId, v.today);
    MapFilterCommute(v.tasks, f, DueOn(v.today));
    MapFilterCommute(TodaysAll(v), f, InBucket(v.selectedBucketId));
    var rows := TodaysForBucket(v);
    forall i | 0 <= i < |rows|
      ensures f(rows[i]).completed
    {
      assert rows[i] in rows;
      assert rows[i] in TodaysAll(v);
    }
  }

  /** `deleteTaskById`: drops the tasks with the id, keeping the rest in
      order, and clears the selection. */
  function DeleteTask(v: View, id: string): (r: View)
    ensures !HasTaskId(r.tasks, id)
    ensures Subsequence(r.tasks, v.tasks)
    ensures forall t :: multiset(r.tasks)[t] == if t.id == id then 0 else multiset(v.tasks)[t]
    ensures r.selectedIndex.None?
    ensures r.(tasks := v.tasks, selectedIndex := v.selectedIndex) == v
  {
    RemoveIdFacts(v.tasks, id);
    v.(tasks := Filter(v.tasks, IdIsNot(id)), selectedIndex := None)
  }

  /** `findIndex` over the bucket ids: the first position, or -1. */
  function BucketIndex(buckets: seq<Bucket>, id: string): (r: int)
    ensures -1 <= r < |buckets|
    ensures r == -1 <==> !HasBucketId(buckets, id)
    ensures r >= 0 ==> buckets[r].id == id && forall j :: 0 <= j < r ==> buckets[j].id != id
  {
    var k := FirstIndex(BucketIds(buckets), id);
    if k < |buckets| then
      assert forall j :: 0 <= j < k ==> BucketIds(buckets)[j] in BucketIds(buckets)[..k];
      k
    else -1
  }

  /** `(idx + direction + n) % n`: one step round a ring of `n` positions. */
  function Wrap(idx: nat, direction: int, n: nat): (r: nat)
    requires idx < n
    requires direction == 1 || direction == -1
    ensures r < n
    ensures direction == 1 ==> r == if idx + 1 < n then idx + 1 else 0
    ensures direction == -1 ==> r == if idx > 0 then idx - 1 else n - 1
  {
    WrapFacts(idx, direction, n);
    (idx + direction + n) % n
  }

  lemma WrapFacts(idx: nat, direction: int, n: nat)
    requires idx < n
    requires direction == 1 || direction == -1
    ensures direction == 1 ==> (idx + direction + n) % n == if idx + 1 < n then idx + 1 else 0
    ensures direction == -1 ==> (idx + direction + n) % n == if idx > 0 then idx - 1 else n - 1
  {
    if direction == 1 && idx + 1 < n {
      ModPlusN(idx + 1, n);
    } else if direction == 1 {
      assert idx + direction + n == 0 + n + n;
      ModPlusN(0, n);
    } else if idx > 0 {
      ModPlusN(idx - 1, n);
    } else {
      assert idx + direction + n == n - 1;
      ModSmall(n - 1, n);
    }
  }

  /** Adding one or two laps of the ring does not move a position. */
  lemma ModPlusN(r: int, n: int)
    requires 0 <= r < n
    ensures (r + n) % n == r
    ensures (r + n + n) % n == r
  {
  }

  lemma ModSmall(r: int, n: int)
    requires 0 <= r < n
    ensures r % n == r
  {
  }

  /** The position `findIndex` gives the selected bucket, an unknown one
      counting as the first. */
  function CurrentBucket(v: View): (idx: nat)
    requires |v.buckets| > 0
    ensures idx < |v.buckets|
    ensures HasBucketId(v.buckets, v.selectedBucketId) ==> v.buckets[idx].id == v.selectedBucketId
    ensures !HasBucketId(v.buckets, v.selectedBucketId) ==> idx == 0
    ensures forall j :: 0 <= j < idx ==> v.buckets[j].id != v.selectedBucketId
  {
    var i := BucketIndex(v.buckets, v.selectedBucketId);
    if i < 0 then 0 else i
  }

  /** `cycleBucket(direction)`: select the next (+1) or previous (-1) bucket,
      wrapping around, and clear the row selection; an unknown selection
      counts as the first bucket. */
  function CycleBucket(v: View, direction: int): (r: View)
    requires direction == 1 || direction == -1
    ensures |v.buckets| == 0 ==> r == v
    ensures |v.buckets| > 0 ==>
      && r.selectedBucketId == v.buckets[Wrap(CurrentBucket(v), direction, |v.buckets|)].id
      && r.selectedIndex.None?
      && r.(selectedBucketId := v.selectedBucketId, selectedIndex := v.selectedIndex) == v
  {
    if |v.buckets| == 0 then v
    else
      var next := Wrap(CurrentBucket(v), direction, |v.buckets|);
      v.(selectedBucketId := v.buckets[next].id, selectedIndex := None)
  }

  /** The bucket ids are pairwise different. */
  predicate DistinctBucketIds(buckets: seq<Bucket>)
  {
    forall i, j :: 0 <= i < j < |buckets| ==> buckets[i].id != buckets[j].id
  }

  /** With distinct bucket ids, cycling forward then back (or back then
      forward) returns to the selected bucket. */
  lemma CycleBucketRoundTrip(v: View, direction: int)
    requires direction == 1 || direction == -1
    requires DistinctBucketIds(v.buckets)
    requires HasBucketId(v.buckets, v.selectedBucketId)
    ensures CycleBucket(CycleBucket(v, direction), -direction).selectedBucketId == v.selectedBucketId
  {
    var w := CycleBucket(v, direction);
    var next := Wrap(CurrentBucket(v), direction, |v.buckets|);
    BucketIndexOfDistinct(v.buckets, next);
    assert CurrentBucket(w) == next;
  }

  /** With distinct ids, the index of a bucket's id is its position. */
  lemma BucketIndexOfDistinct(buckets: seq<Bucket>, k: nat)
    requires DistinctBucketIds(buckets)
    requires k < |buckets|
    ensures HasBucketId(buckets, buckets[k].id)
    ensures BucketIndex(buckets, buckets[k].id) == k
  {
  }

  /** `j` / ArrowDown: select the first row, or the next one, stopping at
      the last; nothing when the list is empty. */
  function SelectNext(v: View): (r: View)
    ensures |TodaysForBucket(v)| == 0 ==> r == v
    ensures |TodaysForBucket(v)| > 0 ==>
      var len := |TodaysForBucket(v)|;
      && r.selectedIndex.Some? && r.selectedIndex.value < len
      && (v.selectedIndex.None? ==> r.selectedIndex == Some(0))
      && (v.selectedIndex.Some? ==>
            r.selectedIndex == Some(if v.selectedIndex.value + 1 < len then v.selectedIndex.value + 1 else len - 1))
      && r.(selectedIndex := v.selectedIndex) == v
  {
    var len := |TodaysForBucket(v)|;
    if len == 0 then v
    else
      var next := match v.selectedIndex
        case None => 0
        case Some(p) => if p + 1 < len - 1 then p + 1 else len - 1;
      v.(selectedIndex := Some(next))
  }

  /** `k` / ArrowUp: select the last row, or the previous one, stopping at
      the first; nothing when the list is empty. A selection already past
      the end of the list moves back by one only. */
  function SelectPrev(v: View): (r: View)
    ensures |TodaysForBucket(v)| == 0 ==> r == v
    ensures |TodaysForBucket(v)| > 0 ==>
      var len := |TodaysForBucket(v)|;
      && r.selectedIndex.Some?
      && (v.selectedIndex.None? ==> r.selectedIndex == Some(len - 1))
      && (v.selectedIndex.Some? ==>
            r.selectedIndex == Some(if v.selectedIndex.value > 0 then v.selectedIndex.value - 1 else 0))
      && (v.selectedIndex.Some? && v.selectedIndex.value <= len ==> r.selectedIndex.value < len)
      && r.(selectedIndex := v.selectedIndex) == v
  {
    var len := |TodaysForBucket(v)|;
    if len == 0 then v
    else
      var next := match v.selectedIndex
        case None => len - 1
        case Some(p) => if p - 1 > 0 then p - 1 else 0;
      v.(selectedIndex := Some(next))
  }

  /** `x`: toggle the selected row, if the selection is one of the rows.
      The rows stay in place; the selected one (and any row sharing its id)
      flips, the others are unchanged. */
  function ToggleSelected(v: View): (r: View)
    ensures r.(tasks := v.tasks) == v
    ensures v.selectedIndex.Some? && v.selectedIndex.value < |TodaysForBucket(v)| ==>
      var rows, i := TodaysForBucket(v), v.selectedIndex.value;
      && |TodaysForBucket(r)| == |rows|
      && TodaysForBucket(r)[i].completed == !rows[i].completed
      && (forall j :: 0 <= j < |rows| && rows[j].id != rows[i].id ==> TodaysForBucket(r)[j] == rows[j])
      && r == ToggleTask(v, rows[i].id)
    ensures !(v.selectedIndex.Some? && v.selectedIndex.value < |TodaysForBucket(v)|) ==> r == v
  {
    match v.selectedIndex
    case Some(i) => if i < |TodaysForBucket(v)| then ToggleTask(v, TodaysForBucket(v)[i].id) else v
    case None => v
  }

  /** The selection is empty or points at a row of the list. */
  predicate ValidSelection(v: View)
  {
    v.selectedIndex.None? || v.selectedIndex.value < |TodaysForBucket(v)|
  }

  /** Every handler keeps the selection pointing at a row, with bucket
      choice done the way `cycleBucket` does it (`ChooseBucket`,
      `AddAndChooseBucket`); `SelectBucket` and `AddBucket` as written do
      not keep it. */
  lemma HandlersKeepSelectionValid(v: View, title: string, id: string, now: string, direction: int, name: string)
    requires ValidSelection(v)
    requires direction == 1 || direction == -1
    ensures ValidSelection(AddTask(v, title, id, now))
    ensures ValidSelection(ToggleTask(v, id))
    ensures ValidSelection(ToggleSelected(v))
    ensures ValidSelection(DeleteTask(v, id))
    ensures ValidSelection(CycleBucket(v, direction))
    ensures ValidSelection(SelectNext(v))
    ensures ValidSelection(SelectPrev(v))
    ensures ValidSelection(ChooseBucket(v, id))
    ensures ValidSelection(AddAndChooseBucket(v, name, id, now))
  {
    if CanAdd(v) {
      AddTaskSelectsNewTask(v, title, id, now);
    }
  }

  // ---------------------------------------------------------------------
  // Pointer selection and the long-press edit

  /** `Escape`: clear the row selection. */
  function ClearSelection(v: View): (r: View)
    ensures r.selectedIndex.None? && ValidSelection(r)
    ensures r.(selectedIndex := v.selectedIndex) == v
  {
    v.(selectedIndex := None)
  }

  /** A click on row `i` selects it; only rows are rendered, so `i` is one. */
  function ClickRow(v: View, i: nat): (r: View)
    requires i < |TodaysForBucket(v)|
    ensures r.selectedIndex == Some(i) && ValidSelection(r)
    ensures r.(selectedIndex := v.selectedIndex) == v
  {
    v.(selectedIndex := Some(i))
  }

  /** Clicking a row and pressing `x` toggles that row's task; after
      `Escape`, `x` does nothing. */
  lemma ClickThenToggle(v: View, i: nat)
    requires i < |TodaysForBucket(v)|
    ensures ToggleSelected(ClickRow(v, i)) == ToggleTask(ClickRow(v, i), TodaysForBucket(v)[i].id)
    ensures ToggleSelected(ClearSelection(v)) == ClearSelection(v)
  {
  }

  /** The number of whitespace characters `s` starts with. */
  function LeadingSpaces(s: string): (k: nat)
    ensures k <= |s|
    ensures forall i :: 0 <= i < k ==> Mentions.IsSpace(s[i])
    ensures k < |s| ==> !Mentions.IsSpace(s[k])
  {
    if |s| == 0 || !Mentions.IsSpace(s[0]) then 0 else 1 + LeadingSpaces(s[1..])
  }

  /** Where the whitespace `s` ends with begins. */
  function TrailingStart(s: string): (j: nat)
    ensures j <= |s|
    ensures forall i :: j <= i < |s| ==> Mentions.IsSpace(s[i])
    ensures j > 0 ==> !Mentions.IsSpace(s[j - 1])
  {
    if |s| == 0 || !Mentions.IsSpace(s[|s| - 1]) then |s| else TrailingStart(s[..|s| - 1])
  }

  /** `String.prototype.trim`: the string without its leading and trailing
      whitespace. */
  function Trim(s: string): (r: string)
    ensures r == "" <==> forall i :: 0 <= i < |s| ==> Mentions.IsSpace(s[i])
    ensures r != "" ==> !Mentions.IsSpace(r[0]) && !Mentions.IsSpace(r[|r| - 1])
  {
    var i, j := LeadingSpaces(s), TrailingStart(s);
    if j <= i then "" else s[i..j]
  }

  /** Trimming a string padded with whitespace on both sides gives back the
      string, when it neither starts nor ends with whitespace itself. */
  lemma TrimStripsPadding(pre: string, s: string, post: string)
    requires forall i :: 0 <= i < |pre| ==> Mentions.IsSpace(pre[i])
    requires forall i :: 0 <= i < |post| ==> Mentions.IsSpace(post[i])
    requires s != "" ==> !Mentions.IsSpace(s[0]) && !Mentions.IsSpace(s[|s| - 1])
    ensures Trim(pre + s + post) == s
  {
    var w := pre + s + post;
    if s != "" {
      var k, j := LeadingSpaces(w), TrailingStart(w);
      assert w[|pre|] == s[0];
      assert w[|pre| + |s| - 1] == s[|s| - 1];
      assert k == |pre|;
      assert j == |pre| + |s|;
      assert w[k..j] == s;
    } else {
      assert forall i :: 0 <= i < |w| ==> Mentions.IsSpace(w[i]) by {
        forall i | 0 <= i < |w|
          ensures Mentions.IsSpace(w[i])
        {
          if i < |pre| {
            assert w[i] == pre[i];
          } else {
            assert w[i] == post[i - |pre|];
          }
        }
      }
    }
  }

  /** Trimming twice is trimming once. */
  lemma TrimIdempotent(s: string)
    ensures Trim(Trim(s)) == Trim(s)
  {
    TrimStripsPadding("", Trim(s), "");
    assert "" + Trim(s) + "" == Trim(s);
  }

  /** The patch `updateTask(taskId, { title })` sends. */
  function TitlePatch(title: string): TaskPatch
  {
    EmptyPatch.(title := Some(title))
  }

  function Renamer(id: string, title: string): Task -> Task
  {
    (t: Task) => if t.id == id then ApplyPatch(t, TitlePatch(title)) else t
  }

  /** The rename branch of the long-press edit: the tasks with the id take
      the new title, everything else stays, and the rows keep their places. */
  function RenameTask(v: View, id: string, title: string): (r: View)
    ensures |r.tasks| == |v.tasks|
    ensures forall i :: 0 <= i < |v.tasks| && v.tasks[i].id == id ==> r.tasks[i] == v.tasks[i].(title := title)
    ensures forall i :: 0 <= i < |v.tasks| && v.tasks[i].id != id ==> r.tasks[i] == v.tasks[i]
    ensures TodaysForBucket(r) == Map(TodaysForBucket(v), Renamer(id, title))
    ensures r.(tasks := v.tasks) == v
  {
    MapFilterCommute(v.tasks, Renamer(id, title), DueOn(v.today));
    MapFilterCommute(Filter(v.tasks, DueOn(v.today)), Renamer(id, title), InBucket(v.selectedBucketId));
    v.(tasks := Map(v.tasks, Renamer(id, title)))
  }

  /** The view's rename and the adapter's `updateTask` with the title patch
      leave the same task list, when they start from the same one. */
  lemma RenameMatchesStore(v: View, s: Storage.Store, env: Storage.Env, id: string, title: string)
    requires Storage.TasksOf(s, env) == v.tasks
    ensures Storage.TasksOf(Storage.UpdateTask(s, id, TitlePatch(title), env), env) == RenameTask(v, id, title).tasks
  {
  }

  /** The long-press handler on the row of task `id`, given the prompt's
      reply (None when cancelled) and the answer to "Delete task?". An
      unknown id or a cancelled prompt changes nothing; a blank reply
      deletes the task if confirmed; any other reply renames it to the
      trimmed reply. */
  function LongPressEdit(v: View, id: string, reply: Option<string>, confirmDelete: bool): (r: View)
    ensures !HasTaskId(v.tasks, id) || reply.None? ==> r == v
    ensures HasTaskId(v.tasks, id) && reply.Some? && Trim(reply.value) == "" ==>
      r == if confirmDelete then DeleteTask(v, id) else v
    ensures HasTaskId(v.tasks, id) && reply.Some? && Trim(reply.value) != "" ==>
      r == RenameTask(v, id, Trim(reply.value))
    ensures forall i :: 0 <= i < |r.tasks| && r.tasks[i] !in v.tasks ==>
      r.tasks[i].id == id && r.tasks[i].title != "" && Trim(r.tasks[i].title) == r.tasks[i].title
  {
    if !HasTaskId(v.tasks, id) || reply.None? then v
    else
      var title := Trim(reply.value);
      if title == "" then
        if confirmDelete then DeleteTask(v, id) else v
      else
        TrimIdempotent(reply.value);
        RenameTask(v, id, title)
  }

  /** The long-press edit keeps the selection pointing at a row: a rename
      keeps the rows, a delete clears the selection. */
  lemma LongPressKeepsSelectionValid(v: View, id: string, reply: Option<string>, confirmDelete: bool)
    requires ValidSelection(v)
    ensures ValidSelection(LongPressEdit(v, id, reply, confirmDelete))
  {
  }

  // ---------------------------------------------------------------------
  // Choosing a bucket

  /** The bucket selector's `onSelect`, as written: select the bucket and
      keep the row index, which may now point past the new bucket's rows. */
  function SelectBucket(v: View, id: string): (r: View)
    ensures r.selectedBucketId == id && r.selectedIndex == v.selectedIndex
    ensures r.(selectedBucketId := v.selectedBucketId) == v
  {
    v.(selectedBucketId := id)
  }

  /** `addBucket`, as written: append a fresh bucket, select it, and keep
      the row index. */
  function AddBucket(v: View, name: string, id: string, now: string): (r: View)
    ensures r.buckets == v.buckets + [Bucket(id, name, now)]
    ensures r.selectedBucketId == id && r.selectedIndex == v.selectedIndex
    ensures r.(buckets := v.buckets, selectedBucketId := v.selectedBucketId) == v
  {
    v.(buckets := v.buckets + [Bucket(id, name, now)], selectedBucketId := id)
  }

  /** A task due on `today` in bucket `bucket`. */
  function RowIn(id: string, bucket: string, today: string): Task
  {
    Task(id, id, false, bucket, "", Some(today), false)
  }

  /** Three rows due on "d" in bucket "A" with the third selected, and one
      row due on "d" in bucket "B". */
  function StrandedExample(): View
  {
    View([RowIn("a1", "A", "d"), RowIn("a2", "A", "d"), RowIn("a3", "A", "d"), RowIn("b1", "B", "d")],
         [Bucket("A", "A", ""), Bucket("B", "B", "")], "A", Some(2), "d", 0)
  }

  /** Switching buckets strands the selection: in `StrandedExample`,
      selecting "B" leaves the index 2 on a one-row list, and `k` moves it
      to 1, still past the end. */
  lemma SelectBucketStrandsSelection()
    ensures ValidSelection(StrandedExample())
    ensures !ValidSelection(SelectBucket(StrandedExample(), "B"))
    ensures SelectPrev(SelectBucket(StrandedExample(), "B")).selectedIndex == Some(1)
    ensures !ValidSelection(SelectPrev(SelectBucket(StrandedExample(), "B")))
  {
    var v := StrandedExample();
    var w := SelectBucket(v, "B");
    StrandedRows();
    assert TodaysForBucket(SelectPrev(w)) == TodaysForBucket(w);
  }

  lemma StrandedRows()
    ensures |TodaysForBucket(StrandedExample())| == 3
    ensures |TodaysForBucket(SelectBucket(StrandedExample(), "B"))| == 1
  {
    var v := StrandedExample();
    var a, b1 := v.tasks[..3], v.tasks[3];
    assert v.tasks == a + [b1];
    FilterKeepsAll(v.tasks, DueOn("d"));
    FilterSnoc(a, b1, InBucket("A"));
    FilterKeepsAll(a, InBucket("A"));
    FilterSnoc(a, b1, InBucket("B"));
    FilterKeepsNone(a, InBucket("B"));
  }

  /** Adding a bucket strands any selection: the new bucket has no rows
      yet, so a selected row index points past its empty list. */
  lemma AddBucketStrandsSelection(v: View, name: string, id: string, now: string)
    requires v.selectedIndex.Some?
    requires forall i :: 0 <= i < |v.tasks| ==> v.tasks[i].bucketId != id
    ensures !ValidSelection(AddBucket(v, name, id, now))
  {
  }

  /** Choosing a bucket as `cycleBucket` does: select it and clear the row
      selection. */
  function ChooseBucket(v: View, id: string): (r: View)
    ensures r.selectedBucketId == id && ValidSelection(r)
    ensures r.(selectedBucketId := v.selectedBucketId, selectedIndex := v.selectedIndex) == v
  {
    v.(selectedBucketId := id, selectedIndex := None)
  }

  /** `addBucket` followed by `ChooseBucket`. */
  function AddAndChooseBucket(v: View, name: string, id: string, now: string): (r: View)
    ensures r.buckets == v.buckets + [Bucket(id, name, now)]
    ensures r.selectedBucketId == id && ValidSelection(r)
    ensures r.(buckets := v.buckets, selectedBucketId := v.selectedBucketId, selectedIndex := v.selectedIndex) == v
  {
    ChooseBucket(AddBucket(v, name, id, now), id)
  }

  // ---------------------------------------------------------------------
  // Header colour

  /** `allDone`: some task is due today and every task due today is
      completed. */
  function AllDone(v: View): (b: bool)
    ensures b <==>
      && (exists i :: 0 <= i < |v.tasks| && v.tasks[i].dueDate == Some(v.today))
      && (forall i :: 0 <= i < |v.tasks| && v.tasks[i].dueDate == Some(v.today) ==> v.tasks[i].completed)
  {
    DueFacts(v.tasks, v.today);
    |TodaysAll(v)| > 0 && AllCompleted(TodaysAll(v))
  }

  datatype HeaderColor = EmeraldText | GreenText | SkyText | MutedText

  /** `colorClass`: emerald or green exactly when all is done (emerald
      from a streak of three), sky while today has unfinished tasks, muted
      when nothing is due today. */
  function ColorOf(v: View): (c: HeaderColor)
    ensures c in {EmeraldText, GreenText} <==> AllDone(v)
    ensures c == EmeraldText ==> v.streak >= 3
    ensures c == GreenText ==> v.streak < 3
    ensures c == MutedText <==> |TodaysAll(v)| == 0
  {
    if AllDone(v) then (if v.streak >= 3 then EmeraldText else GreenText)
    else if |TodaysAll(v)| > 0 then SkyText
    else MutedText
  }

  function ColorClass(c: HeaderColor): string
  {
    match c
    case EmeraldText => "text-emerald-400"
    case GreenText => "text-green-400"
    case SkyText => "text-sky-400"
    case MutedText => "text-muted-foreground"
  }

  /** The header colour in terms of the task list itself. */
  lemma HeaderColorMeaning(v: View)
    ensures var due := exists i :: 0 <= i < |v.tasks| && v.tasks[i].dueDate == Some(v.today);
      var done := forall i :: 0 <= i < |v.tasks| && v.tasks[i].dueDate == Some(v.today) ==> v.tasks[i].completed;
      && (ColorOf(v) == EmeraldText <==> due && done && v.streak >= 3)
      && (ColorOf(v) == GreenText <==> due && done && v.streak < 3)
      && (ColorOf(v) == SkyText <==> due && !done)
      && (ColorOf(v) == MutedText <==> !due)
  {
    DueFacts(v.tasks, v.today);
  }

  /** The header agrees with the calendar: the day is all done exactly when
      today's calendar cell is emerald. */
  lemma AllDoneMatchesCalendar(v: View)
    requires v.today != ""
    ensures AllDone(v) <==> Calendar.ColorForDate(Calendar.ByDate(v.tasks), v.today) == Calendar.Emerald
  {
    DueFacts(v.tasks, v.today);
    Calendar.DayColorMeaning(v.tasks, v.today);
  }
}
