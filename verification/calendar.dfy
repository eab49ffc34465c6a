/** The month calendar: the grid of day cells, the per-day done/total
    tally of tasks, and the colour a day cell gets. The month's length and
    the weekday of its first day are inputs rather than computed from a
    `Date`; a day cell holds its day-of-month number. */
module Calendar {
  import opened Wrappers
  import opened Seqs
  import opened Model

  /** `getMonthGrid`: `startWeekday` leading blanks, the days
      1..`daysInMonth`, then blanks up to a whole number of weeks. */
  method MonthGrid(startWeekday: nat, daysInMonth: nat) returns (grid: seq<Option<nat>>)
    ensures |grid| % 7 == 0
    ensures startWeekday + daysInMonth <= |grid| < startWeekday + daysInMonth + 7
    ensures forall i :: 0 <= i < startWeekday ==> grid[i] == None
    ensures forall i :: startWeekday <= i < startWeekday + daysInMonth ==> grid[i] == Some(i - startWeekday + 1)
    ensures forall i :: startWeekday + daysInMonth <= i < |grid| ==> grid[i] == None
  {
    grid := [];
    var i := 0;
    while i < startWeekday
      invariant i <= startWeekday && |grid| == i
      invariant forall j :: 0 <= j < i ==> grid[j] == None
    {
      grid := grid + [None];
      i := i + 1;
    }
    var d := 1;
    while d <= daysInMonth
      invariant 1 <= d <= daysInMonth + 1
      invariant |grid| == startWeekday + d - 1
      invariant forall j :: 0 <= j < startWeekday ==> grid[j] == None
      invariant forall j :: startWeekday <= j < |grid| ==> grid[j] == Some(j - startWeekday + 1)
    {
      grid := grid + [Some(d)];
      d := d + 1;
    }
    ghost var filled := startWeekday + daysInMonth;
    ghost var target := filled + (7 - filled % 7) % 7;
    assert target % 7 == 0;
    while |grid| % 7 != 0
      invariant filled <= |grid| <= target
      invariant forall j :: 0 <= j < startWeekday ==> grid[j] == None
      invariant forall j :: startWeekday <= j < filled ==> grid[j] == Some(j - startWeekday + 1)
      invariant forall j :: filled <= j < |grid| ==> grid[j] == None
      decreases target - |grid|
    {
      grid := grid + [None];
    }
  }

  /** The status record of one date key. */
  datatype Tally = Tally(total: nat, done: nat)

  function IsDone(): Task -> bool
  {
    (t: Task) => t.completed
  }

  /** The number of tasks due on `key`. */
  function TotalOn(tasks: seq<Task>, key: string): nat
  {
    |Filter(tasks, DueOn(key))|
  }

  /** The number of completed tasks due on `key`. */
  function DoneOn(tasks: seq<Task>, key: string): nat
  {
    |Filter(Filter(tasks, DueOn(key)), IsDone())|
  }

  /** One more task changes only the tally of its own due date. */
  lemma TallySnoc(tasks: seq<Task>, t: Task, key: string)
    ensures TotalOn(tasks + [t], key) == TotalOn(tasks, key) + (if t.dueDate == Some(key) then 1 else 0)
    ensures DoneOn(tasks + [t], key) == DoneOn(tasks, key) + (if t.dueDate == Some(key) && t.completed then 1 else 0)
  {
    var due := Filter(tasks, DueOn(key));
    FilterSnoc(tasks, t, DueOn(key));
    assert DueOn(key)(t) == (t.dueDate == Some(key));
    if t.dueDate == Some(key) {
      assert Filter(tasks + [t], DueOn(key)) == due + [t];
      FilterSnoc(due, t, IsDone());
      assert IsDone()(t) == t.completed;
    } else {
      assert Filter(tasks + [t], DueOn(key)) == due;
    }
  }

  /** `m` holds exactly the tally of `tasks`, date by date. */
  ghost predicate IsTallyOf(m: map<string, Tally>, tasks: seq<Task>)
  {
    && (forall k :: k in m <==> k != "" && TotalOn(tasks, k) > 0)
    && (forall k :: k in m ==> m[k] == Tally(TotalOn(tasks, k), DoneOn(tasks, k)))
  }

  /** Count one more task in the tally (one turn of the loop). */
  function CountTask(m: map<string, Tally>, t: Task): map<string, Tally>
  {
    if t.dueDate.None? || t.dueDate.value == "" then m
    else
      var key := t.dueDate.value;
      var rec := if key in m then m[key] else Tally(0, 0);
      m[key := Tally(rec.total + 1, if t.completed then rec.done + 1 else rec.done)]
  }

  lemma CountTaskStep(m: map<string, Tally>, tasks: seq<Task>, t: Task)
    requires IsTallyOf(m, tasks)
    ensures IsTallyOf(CountTask(m, t), tasks + [t])
  {
    var m' := CountTask(m, t);
    forall k
      ensures k in m' <==> k != "" && TotalOn(tasks + [t], k) > 0
      ensures k in m' ==> m'[k] == Tally(TotalOn(tasks + [t], k), DoneOn(tasks + [t], k))
    {
      TallySnoc(tasks, t, k);
      if t.dueDate != Some(k) || k == "" {
        assert k in m' <==> k in m;
        assert k in m' ==> m'[k] == m[k];
      }
    }
  }

  /** `byDate`: for every non-empty date key some task is due on, how many
      tasks are due then and how many of those are completed. Tasks with a
      null or empty due date are skipped. */
  function ByDate(tasks: seq<Task>): (m: map<string, Tally>)
    ensures forall k :: k in m <==> k != "" && TotalOn(tasks, k) > 0
    ensures forall k :: k in m ==> m[k] == Tally(TotalOn(tasks, k), DoneOn(tasks, k))
  {
    if |tasks| == 0 then map[]
    else
      var init, t := tasks[..|tasks| - 1], tasks[|tasks| - 1];
      assert tasks == init + [t];
      var m0 := ByDate(init);
      CountTaskStep(m0, init, t);
      CountTask(m0, t)
  }

  /** A date never has more completed tasks than tasks. */
  lemma DoneAtMostTotal(tasks: seq<Task>, key: string)
    ensures key in ByDate(tasks) ==> ByDate(tasks)[key].done <= ByDate(tasks)[key].total
  {
  }

  datatype DayColor = Neutral | Emerald | Red

  /** `colorForDate`, given the date's key: neutral without an entry,
      emerald when the entry's tasks are all done, red when some are not. */
  function ColorForDate(byDate: map<string, Tally>, key: string): (c: DayColor)
    ensures key !in byDate ==> c == Neutral
    ensures c == Emerald <==> key in byDate && 0 < byDate[key].total == byDate[key].done
    ensures c == Red <==> key in byDate && byDate[key].done < byDate[key].total
  {
    if key !in byDate then Neutral
    else
      var rec := byDate[key];
      if rec.total > 0 && rec.done == rec.total then Emerald
      else if rec.total > 0 && rec.done < rec.total then Red
      else Neutral
  }

  /** The CSS classes each colour stands for. */
  function ColorClass(c: DayColor): string
  {
    match c
    case Neutral => "bg-secondary/40"
    case Emerald => "bg-emerald-500/70 text-white"
    case Red => "bg-red-500/70 text-white"
  }

  /** A date's tasks are all completed exactly when its done count
      reaches its total. */
  lemma DoneReachesTotal(tasks: seq<Task>, key: string)
    ensures DoneOn(tasks, key) == TotalOn(tasks, key) <==>
      forall i :: 0 <= i < |tasks| && tasks[i].dueDate == Some(key) ==> tasks[i].completed
  {
    var due := Filter(tasks, DueOn(key));
    DueAllCompleted(tasks, key);
    FilterFullLength(due, IsDone());
    assert forall x :: IsDone()(x) == x.completed;
    if AllCompleted(due) {
      forall x | x in due
        ensures IsDone()(x)
      {
        var j :| 0 <= j < |due| && due[j] == x;
      }
    }
    if forall x :: x in due ==> IsDone()(x) {
      forall j | 0 <= j < |due|
        ensures due[j].completed
      {
        assert due[j] in due;
      }
    }
  }

  /** A day is emerald exactly when it has tasks and all are completed, red
      exactly when one of its tasks is incomplete, and neutral exactly when
      it has no task (or its key is empty). */
  lemma DayColorMeaning(tasks: seq<Task>, key: string)
    ensures ColorForDate(ByDate(tasks), key) == Emerald <==>
      && key != ""
      && (exists i :: 0 <= i < |tasks| && tasks[i].dueDate == Some(key))
      && (forall i :: 0 <= i < |tasks| && tasks[i].dueDate == Some(key) ==> tasks[i].completed)
    ensures ColorForDate(ByDate(tasks), key) == Red <==>
      key != "" && exists i :: 0 <= i < |tasks| && tasks[i].dueDate == Some(key) && !tasks[i].completed
    ensures ColorForDate(ByDate(tasks), key) == Neutral <==>
      key == "" || forall i :: 0 <= i < |tasks| ==> tasks[i].dueDate != Some(key)
  {
    DueNonEmpty(tasks, key);
    DoneReachesTotal(tasks, key);
    var m := ByDate(tasks);
    assert DoneOn(tasks, key) <= TotalOn(tasks, key);
  }
}
