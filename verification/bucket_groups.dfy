/** The bucket panel: tasks grouped by bucket in an insertion-ordered map,
    and the toggling of the multi-selection. The JavaScript `Map` is a list
    of (bucket id, tasks) groups; setting an existing key replaces its value
    in place, setting a new key appends it. */
module BucketGroups {
  import opened Wrappers
  import opened Seqs
  import opened Model

  datatype Group = Group(bucketId: string, tasks: seq<Task>)

  function Keys(gs: seq<Group>): (ks: seq<string>)
    ensures |ks| == |gs|
    ensures forall i :: 0 <= i < |gs| ==> ks[i] == gs[i].bucketId
  {
    seq(|gs|, i requires 0 <= i < |gs| => gs[i].bucketId)
  }

  /** `map.get(k)`. */
  function Lookup(gs: seq<Group>, k: string): (r: Option<seq<Task>>)
    ensures r.None? <==> k !in Keys(gs)
    ensures r.Some? ==> exists i :: 0 <= i < |gs| && gs[i] == Group(k, r.value)
  {
    if |gs| == 0 then None
    else if gs[0].bucketId == k then Some(gs[0].tasks)
    else
      assert Keys(gs) == [gs[0].bucketId] + Keys(gs[1..]);
      var r := Lookup(gs[1..], k);
      if r.Some? then
        var i :| 0 <= i < |gs[1..]| && gs[1..][i] == Group(k, r.value);
        assert gs[i + 1] == Group(k, r.value);
        r
      else r
  }

  /** `map.set(k, l)`. */
  function SetGroup(gs: seq<Group>, k: string, l: seq<Task>): (r: seq<Group>)
    ensures Keys(r) == if k in Keys(gs) then Keys(gs) else Keys(gs) + [k]
    ensures forall i :: 0 <= i < |r| && r[i].bucketId == k ==> r[i].tasks == l
    ensures forall i :: 0 <= i < |gs| && gs[i].bucketId != k ==> r[i] == gs[i]
  {
    if k in Keys(gs) then
      seq(|gs|, i requires 0 <= i < |gs| => if gs[i].bucketId == k then Group(k, l) else gs[i])
    else gs + [Group(k, l)]
  }

  /** The first loop: one empty group per bucket id, in bucket order. */
  function Seed(buckets: seq<Bucket>): seq<Group>
  {
    if |buckets| == 0 then []
    else SetGroup(Seed(buckets[..|buckets| - 1]), buckets[|buckets| - 1].id, [])
  }

  /** One turn of the second loop: push `t` onto its bucket's list. */
  function AddToGroup(gs: seq<Group>, t: Task): seq<Group>
  {
    SetGroup(gs, t.bucketId, Lookup(gs, t.bucketId).GetOr([]) + [t])
  }

  function GroupTasks(gs: seq<Group>, tasks: seq<Task>): seq<Group>
  {
    if |tasks| == 0 then gs
    else AddToGroup(GroupTasks(gs, tasks[..|tasks| - 1]), tasks[|tasks| - 1])
  }

  /** `grouped`: one group per distinct id, each holding exactly the tasks
      filed under it in input order, and a group for every task. */
  function Grouped(buckets: seq<Bucket>, tasks: seq<Task>): (gs: seq<Group>)
    ensures forall i, j :: 0 <= i < j < |gs| ==> gs[i].bucketId != gs[j].bucketId
    ensures forall i :: 0 <= i < |gs| ==> gs[i].tasks == Filter(tasks, InBucket(gs[i].bucketId))
    ensures forall j :: 0 <= j < |tasks| ==> tasks[j].bucketId in Keys(gs)
  {
    GroupTasksFacts(buckets, tasks);
    DistinctKeys(GroupTasks(Seed(buckets), tasks), BucketIds(buckets) + TaskBucketIds(tasks));
    GroupTasks(Seed(buckets), tasks)
  }

  function TaskBucketIds(tasks: seq<Task>): (ids: seq<string>)
    ensures |ids| == |tasks|
    ensures forall i :: 0 <= i < |tasks| ==> ids[i] == tasks[i].bucketId
  {
    seq(|tasks|, i requires 0 <= i < |tasks| => tasks[i].bucketId)
  }

  // ---------------------------------------------------------------------
  // First-occurrence order

  /** `keys` are the distinct elements of `ids`, ordered by where each first
      occurs in `ids`. */
  ghost predicate FirstOccurrenceOrder(keys: seq<string>, ids: seq<string>)
  {
    && (forall i, j :: 0 <= i < j < |keys| ==> keys[i] != keys[j])
    && (forall x :: x in keys <==> x in ids)
    && (forall i, j :: 0 <= i < j < |keys| ==> FirstIndex(ids, keys[i]) < FirstIndex(ids, keys[j]))
  }

  lemma FirstOccurrenceStep(keys: seq<string>, ids: seq<string>, x: string, keys': seq<string>, ids': seq<string>)
    requires FirstOccurrenceOrder(keys, ids)
    requires keys' == if x in keys then keys else keys + [x]
    requires ids' == ids + [x]
    ensures FirstOccurrenceOrder(keys', ids')
  {
    FirstIndexSnoc(ids, x, ids');
    if x !in keys {
      var ks := keys + [x];
      forall i, j | 0 <= i < j < |ks|
        ensures FirstIndex(ids', ks[i]) < FirstIndex(ids', ks[j])
      {
        assert ks[i] in keys;
        if j == |keys| {
          assert FirstIndex(ids', ks[j]) == |ids|;
        } else {
          assert ks[j] in keys;
        }
      }
    }
  }

  /** One more id at the end moves no first occurrence, and places a new
      id at the end. */
  lemma FirstIndexSnoc(ids: seq<string>, x: string, ids': seq<string>)
    requires ids' == ids + [x]
    ensures forall y :: y in ids ==> FirstIndex(ids', y) == FirstIndex(ids, y)
    ensures x !in ids ==> FirstIndex(ids', x) == |ids|
  {
    forall y | y in ids
      ensures FirstIndex(ids', y) == FirstIndex(ids, y)
    {
      FirstIndexAppend(ids, [x], y);
    }
    FirstIndexAppend(ids, [x], x);
    assert FirstIndex([x], x) == 0;
  }

  // ---------------------------------------------------------------------
  // Invariants of the two loops

  /** The state after grouping `ts`: every group holds exactly the tasks of
      `ts` filed under its id, and every task of `ts` has a group. */
  ghost predicate Holds(gs: seq<Group>, ts: seq<Task>)
  {
    && (forall i :: 0 <= i < |gs| ==> gs[i].tasks == Filter(ts, InBucket(gs[i].bucketId)))
    && (forall j :: 0 <= j < |ts| ==> ts[j].bucketId in Keys(gs))
  }

  lemma SeedFacts(buckets: seq<Bucket>)
    ensures FirstOccurrenceOrder(Keys(Seed(buckets)), BucketIds(buckets))
    ensures Holds(Seed(buckets), [])
  {
    SeedOrder(buckets);
    SeedEmpty(buckets);
  }

  lemma {:induction false} SeedEmpty(buckets: seq<Bucket>)
    ensures forall i :: 0 <= i < |Seed(buckets)| ==> Seed(buckets)[i].tasks == []
  {
    if |buckets| > 0 {
      SeedEmpty(buckets[..|buckets| - 1]);
    }
  }

  lemma {:induction false} SeedOrder(buckets: seq<Bucket>)
    ensures FirstOccurrenceOrder(Keys(Seed(buckets)), BucketIds(buckets))
  {
    if |buckets| > 0 {
      SeedOrder(buckets[..|buckets| - 1]);
      SeedOrderStep(buckets);
    }
  }

  lemma SeedOrderStep(buckets: seq<Bucket>)
    requires |buckets| > 0
    requires FirstOccurrenceOrder(Keys(Seed(buckets[..|buckets| - 1])), BucketIds(buckets[..|buckets| - 1]))
    ensures FirstOccurrenceOrder(Keys(Seed(buckets)), BucketIds(buckets))
  {
    var init, b := buckets[..|buckets| - 1], buckets[|buckets| - 1];
    var gs := Seed(init);
    SeedKeys(buckets);
    BucketIdsLast(buckets);
    FirstOccurrenceStep(Keys(gs), BucketIds(init), b.id, Keys(Seed(buckets)), BucketIds(buckets));
  }

  lemma SeedKeys(buckets: seq<Bucket>)
    requires |buckets| > 0
    ensures var ks := Keys(Seed(buckets[..|buckets| - 1]));
      var x := buckets[|buckets| - 1].id;
      Keys(Seed(buckets)) == if x in ks then ks else ks + [x]
  {
  }

  lemma BucketIdsLast(buckets: seq<Bucket>)
    requires |buckets| > 0
    ensures BucketIds(buckets) == BucketIds(buckets[..|buckets| - 1]) + [buckets[|buckets| - 1].id]
  {
  }

  /** Pushing the last task of `ts` keeps `Holds`. */
  lemma AddToGroupFacts(gs: seq<Group>, ts: seq<Task>)
    requires |ts| > 0
    requires Holds(gs, ts[..|ts| - 1])
    requires forall i, j :: 0 <= i < j < |gs| ==> gs[i].bucketId != gs[j].bucketId
    ensures Holds(AddToGroup(gs, ts[|ts| - 1]), ts)
  {
    AddToGroupContents(gs, ts);
    AddToGroupCovers(gs, ts);
  }

  /** Before the push, the group of `k` (or the empty list when `k` has
      none) is exactly the tasks so far filed under `k`. */
  lemma LookupIsFilter(gs: seq<Group>, ts: seq<Task>, k: string)
    requires Holds(gs, ts)
    ensures Filter(ts, InBucket(k)) == Lookup(gs, k).GetOr([])
  {
    var old_ := Lookup(gs, k).GetOr([]);
    if k in Keys(gs) {
      var i :| 0 <= i < |gs| && gs[i] == Group(k, old_);
    } else {
      forall x | x in ts
        ensures !InBucket(k)(x)
      {
        var j :| 0 <= j < |ts| && ts[j] == x;
      }
      FilterKeepsNone(ts, InBucket(k));
    }
  }

  lemma AddToGroupContents(gs: seq<Group>, ts: seq<Task>)
    requires |ts| > 0
    requires Holds(gs, ts[..|ts| - 1])
    requires forall i, j :: 0 <= i < j < |gs| ==> gs[i].bucketId != gs[j].bucketId
    ensures var r := AddToGroup(gs, ts[|ts| - 1]);
      forall i :: 0 <= i < |r| ==> r[i].tasks == Filter(ts, InBucket(r[i].bucketId))
  {
    var init, t := ts[..|ts| - 1], ts[|ts| - 1];
    var k := t.bucketId;
    var r := AddToGroup(gs, t);
    LookupIsFilter(gs, init, k);
    forall i | 0 <= i < |r|
      ensures r[i].tasks == Filter(ts, InBucket(r[i].bucketId))
    {
      var id := r[i].bucketId;
      FilterLast(ts, InBucket(id));
      if id != k {
        assert i < |gs| && r[i] == gs[i];
      }
    }
  }

  lemma AddToGroupCovers(gs: seq<Group>, ts: seq<Task>)
    requires |ts| > 0
    requires forall j :: 0 <= j < |ts| - 1 ==> ts[j].bucketId in Keys(gs)
    ensures forall j :: 0 <= j < |ts| ==> ts[j].bucketId in Keys(AddToGroup(gs, ts[|ts| - 1]))
  {
    var k := ts[|ts| - 1].bucketId;
    var r := AddToGroup(gs, ts[|ts| - 1]);
    assert Keys(r)[|Keys(r)| - 1] == k || k in Keys(gs);
  }

  lemma {:induction false} GroupTasksFacts(buckets: seq<Bucket>, tasks: seq<Task>)
    ensures FirstOccurrenceOrder(Keys(GroupTasks(Seed(buckets), tasks)), BucketIds(buckets) + TaskBucketIds(tasks))
    ensures Holds(GroupTasks(Seed(buckets), tasks), tasks)
  {
    if |tasks| == 0 {
      GroupTasksBase(buckets, tasks);
    } else {
      GroupTasksFacts(buckets, tasks[..|tasks| - 1]);
      GroupTasksStep(buckets, tasks);
    }
  }

  lemma GroupTasksBase(buckets: seq<Bucket>, tasks: seq<Task>)
    requires |tasks| == 0
    ensures FirstOccurrenceOrder(Keys(GroupTasks(Seed(buckets), tasks)), BucketIds(buckets) + TaskBucketIds(tasks))
    ensures Holds(GroupTasks(Seed(buckets), tasks), tasks)
  {
    SeedFacts(buckets);
    assert BucketIds(buckets) + TaskBucketIds(tasks) == BucketIds(buckets);
  }

  lemma GroupTasksStep(buckets: seq<Bucket>, tasks: seq<Task>)
    requires |tasks| > 0
    requires FirstOccurrenceOrder(Keys(GroupTasks(Seed(buckets), tasks[..|tasks| - 1])),
                                  BucketIds(buckets) + TaskBucketIds(tasks[..|tasks| - 1]))
    requires Holds(GroupTasks(Seed(buckets), tasks[..|tasks| - 1]), tasks[..|tasks| - 1])
    ensures FirstOccurrenceOrder(Keys(GroupTasks(Seed(buckets), tasks)), BucketIds(buckets) + TaskBucketIds(tasks))
    ensures Holds(GroupTasks(Seed(buckets), tasks), tasks)
  {
    var init, t := tasks[..|tasks| - 1], tasks[|tasks| - 1];
    var gs := GroupTasks(Seed(buckets), init);
    assert GroupTasks(Seed(buckets), tasks) == AddToGroup(gs, t);
    IdsLast(buckets, tasks);
    KeysStep(gs, BucketIds(buckets) + TaskBucketIds(init), t, BucketIds(buckets) + TaskBucketIds(tasks));
    DistinctKeys(gs, BucketIds(buckets) + TaskBucketIds(init));
    AddToGroupFacts(gs, tasks);
  }

  lemma IdsLast(buckets: seq<Bucket>, tasks: seq<Task>)
    requires |tasks| > 0
    ensures BucketIds(buckets) + TaskBucketIds(tasks)
         == (BucketIds(buckets) + TaskBucketIds(tasks[..|tasks| - 1])) + [tasks[|tasks| - 1].bucketId]
  {
    assert TaskBucketIds(tasks) == TaskBucketIds(tasks[..|tasks| - 1]) + [tasks[|tasks| - 1].bucketId];
  }

  lemma KeysStep(gs: seq<Group>, ids: seq<string>, t: Task, ids': seq<string>)
    requires FirstOccurrenceOrder(Keys(gs), ids)
    requires ids' == ids + [t.bucketId]
    ensures FirstOccurrenceOrder(Keys(AddToGroup(gs, t)), ids')
  {
    FirstOccurrenceStep(Keys(gs), ids, t.bucketId, Keys(AddToGroup(gs, t)), ids');
  }

  lemma DistinctKeys(gs: seq<Group>, ids: seq<string>)
    requires FirstOccurrenceOrder(Keys(gs), ids)
    ensures forall i, j :: 0 <= i < j < |gs| ==> gs[i].bucketId != gs[j].bucketId
  {
    assert forall i :: 0 <= i < |gs| ==> Keys(gs)[i] == gs[i].bucketId;
  }

  // ---------------------------------------------------------------------
  // What the grouping promises

  /** Every bucket id and every task's bucket id gets exactly one group, and
      the groups come in order of first occurrence: bucket ids first, in
      bucket order, then the unknown ids in order of first appearance. */
  lemma GroupedKeys(buckets: seq<Bucket>, tasks: seq<Task>)
    ensures var ks := Keys(Grouped(buckets, tasks));
      && (forall i, j :: 0 <= i < j < |ks| ==> ks[i] != ks[j])
      && (forall b :: b in buckets ==> b.id in ks)
      && (forall t :: t in tasks ==> t.bucketId in ks)
      && (forall x :: x in ks ==> x in BucketIds(buckets) || x in TaskBucketIds(tasks))
      && (forall i, j :: 0 <= i < j < |ks| && ks[j] in BucketIds(buckets) ==>
            ks[i] in BucketIds(buckets) && FirstIndex(BucketIds(buckets), ks[i]) < FirstIndex(BucketIds(buckets), ks[j]))
      && (forall i, j :: 0 <= i < j < |ks| && ks[i] !in BucketIds(buckets) && ks[j] !in BucketIds(buckets) ==>
            FirstIndex(TaskBucketIds(tasks), ks[i]) < FirstIndex(TaskBucketIds(tasks), ks[j]))
  {
    GroupTasksFacts(buckets, tasks);
    var ks := Keys(Grouped(buckets, tasks));
    OrderOfConcat(ks, BucketIds(buckets), TaskBucketIds(tasks));
    forall bk | bk in buckets
      ensures bk.id in ks
    {
      var i :| 0 <= i < |buckets| && buckets[i] == bk;
      assert BucketIds(buckets)[i] == bk.id;
    }
    forall t | t in tasks
      ensures t.bucketId in ks
    {
      var i :| 0 <= i < |tasks| && tasks[i] == t;
      assert TaskBucketIds(tasks)[i] == t.bucketId;
    }
  }

  /** Keys in first-occurrence order of `a + b`: the ids of `a` come first,
      in `a`'s order, and the rest follow in `b`'s order. */
  lemma OrderOfConcat(ks: seq<string>, a: seq<string>, b: seq<string>)
    requires FirstOccurrenceOrder(ks, a + b)
    ensures forall x :: x in ks ==> x in a || x in b
    ensures forall i, j :: 0 <= i < j < |ks| && ks[j] in a ==>
      ks[i] in a && FirstIndex(a, ks[i]) < FirstIndex(a, ks[j])
    ensures forall i, j :: 0 <= i < j < |ks| && ks[i] !in a && ks[j] !in a ==>
      FirstIndex(b, ks[i]) < FirstIndex(b, ks[j])
  {
    forall x
      ensures FirstIndex(a + b, x) == if x in a then FirstIndex(a, x) else |a| + FirstIndex(b, x)
    {
      FirstIndexAppend(a, b, x);
    }
  }

  /** Each group lists exactly the tasks filed under its id, in input
      order; so every task sits in the one group keyed by its bucket id. */
  lemma GroupedContents(buckets: seq<Bucket>, tasks: seq<Task>)
    ensures var gs := Grouped(buckets, tasks);
      && (forall i :: 0 <= i < |gs| ==> gs[i].tasks == Filter(tasks, InBucket(gs[i].bucketId)))
      && (forall t, i :: t in tasks && 0 <= i < |gs| ==> (t in gs[i].tasks <==> gs[i].bucketId == t.bucketId))
  {
    GroupTasksFacts(buckets, tasks);
  }

  /** The number of tasks over all groups. */
  function TotalSize(gs: seq<Group>): nat
  {
    if |gs| == 0 then 0 else |gs[0].tasks| + TotalSize(gs[1..])
  }

  /** The number of tasks filed under each of the ids `ks`, summed. */
  function SumCounts(ks: seq<string>, tasks: seq<Task>): nat
  {
    if |ks| == 0 then 0 else |Filter(tasks, InBucket(ks[0]))| + SumCounts(ks[1..], tasks)
  }

  lemma {:induction false} SumCountsEmpty(ks: seq<string>)
    ensures SumCounts(ks, []) == 0
  {
    if |ks| > 0 {
      SumCountsEmpty(ks[1..]);
    }
  }

  lemma {:induction false} SumCountsSnoc(ks: seq<string>, tasks: seq<Task>, t: Task)
    requires forall i, j :: 0 <= i < j < |ks| ==> ks[i] != ks[j]
    ensures SumCounts(ks, tasks + [t]) == SumCounts(ks, tasks) + (if t.bucketId in ks then 1 else 0)
  {
    if |ks| > 0 {
      FilterSnoc(tasks, t, InBucket(ks[0]));
      assert InBucket(ks[0])(t) == (t.bucketId == ks[0]);
      SumCountsSnoc(ks[1..], tasks, t);
      assert ks == [ks[0]] + ks[1..];
      assert ks[0] !in ks[1..];
    }
  }

  lemma {:induction false} SumCountsCovers(ks: seq<string>, tasks: seq<Task>)
    requires forall i, j :: 0 <= i < j < |ks| ==> ks[i] != ks[j]
    requires forall t :: t in tasks ==> t.bucketId in ks
    ensures SumCounts(ks, tasks) == |tasks|
  {
    if |tasks| == 0 {
      SumCountsEmpty(ks);
    } else {
      var init, t := tasks[..|tasks| - 1], tasks[|tasks| - 1];
      assert tasks == init + [t];
      assert forall u :: u in init ==> u in tasks;
      SumCountsCovers(ks, init);
      SumCountsSnoc(ks, init, t);
    }
  }

  lemma {:induction false} TotalSizeIsSumCounts(gs: seq<Group>, tasks: seq<Task>)
    requires forall i :: 0 <= i < |gs| ==> gs[i].tasks == Filter(tasks, InBucket(gs[i].bucketId))
    ensures TotalSize(gs) == SumCounts(Keys(gs), tasks)
  {
    if |gs| > 0 {
      assert Keys(gs)[1..] == Keys(gs[1..]);
      TotalSizeIsSumCounts(gs[1..], tasks);
    }
  }

  /** The groups hold `tasks.length` tasks between them. */
  lemma GroupedTotal(buckets: seq<Bucket>, tasks: seq<Task>)
    ensures TotalSize(Grouped(buckets, tasks)) == |tasks|
  {
    var gs := Grouped(buckets, tasks);
    GroupTasksFacts(buckets, tasks);
    TotalSizeIsSumCounts(gs, tasks);
    forall t | t in tasks
      ensures t.bucketId in Keys(gs)
    {
      var j :| 0 <= j < |tasks| && tasks[j] == t;
    }
    SumCountsCovers(Keys(gs), tasks);
  }

  /** The bucket groups of an empty task list are all empty. */
  lemma GroupedWithoutTasks(buckets: seq<Bucket>)
    ensures forall g :: g in Grouped(buckets, []) ==> g.tasks == []
  {
    GroupTasksFacts(buckets, []);
  }

  /** The header of a group: its bucket's name, or "Unknown" for an id no
      bucket has. */
  function GroupLabel(buckets: seq<Bucket>, id: string): (r: string)
    ensures (forall i :: 0 <= i < |buckets| ==> buckets[i].id != id) ==> r == "Unknown"
    ensures id in BucketIds(buckets) ==> r == buckets[FirstIndex(BucketIds(buckets), id)].name
  {
    if |buckets| == 0 then "Unknown"
    else if buckets[0].id == id then buckets[0].name
    else
      assert BucketIds(buckets) == [buckets[0].id] + BucketIds(buckets[1..]);
      GroupLabel(buckets[1..], id)
  }

  // ---------------------------------------------------------------------
  // Selection

  /** `toggleSelect`: add the id when absent, remove it when present. */
  function ToggleSelect(selected: set<string>, id: string): (r: set<string>)
    ensures id in r <==> id !in selected
    ensures forall x :: x != id ==> (x in r <==> x in selected)
  {
    if id in selected then selected - {id} else selected + {id}
  }

  /** Toggling the same id twice restores the selection. */
  lemma ToggleSelectTwice(selected: set<string>, id: string)
    ensures ToggleSelect(ToggleSelect(selected, id), id) == selected
  {
  }
}
