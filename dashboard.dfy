/**
 * The summary statistics of `src/components/DashBoard/DashBoard.tsx`: counts by status
 * and the five most recently created tasks.
 */
module Dashboard {
  import opened TaskTypes
  import opened Seqs
  import opened StableSort

  datatype Stats = Stats(total: nat, completed: nat, inProgress: nat, pending: nat,
                         recent: seq<Task>)

  const RecentLimit: nat := 5

  function Min(a: nat, b: nat): nat {
    if a <= b then a else b
  }

  /** The positions of the tasks with status `st`. */
  ghost function WithStatus(tasks: seq<Task>, st: Status): set<int> {
    set k | 0 <= k < |tasks| && tasks[k].status == st
  }

  /** The number of tasks with status `st`: `tasks.filter(t => t.status === st).length`. */
  function CountStatus(tasks: seq<Task>, st: Status): (n: nat)
    ensures n == |WithStatus(tasks, st)|
  {
    var p := (t: Task) => t.status == st;
    FilterIndices(tasks, p);
    assert Satisfying(tasks, p) == WithStatus(tasks, st);
    |Filter(tasks, p)|
  }

  /** The comparator of the recent list, `(a, b) => time(b) - time(a)`, where `millis`
      stands for `new Date(iso).getTime()`. */
  function NewestFirst(millis: string -> int): (cmp: (Task, Task) -> int)
    ensures forall a, b :: cmp(a, b) < 0 <==> millis(a.createdAt) > millis(b.createdAt)
    ensures forall a, b :: cmp(a, b) == 0 <==> millis(a.createdAt) == millis(b.createdAt)
  {
    (a: Task, b: Task) => millis(b.createdAt) - millis(a.createdAt)
  }

  /** Newest first is ascending order of the negated creation time. */
  function AgeKey(millis: string -> int): Task -> Key {
    (t: Task) => Num(-millis(t.createdAt))
  }

  lemma NewestFirstOrdersBy(millis: string -> int)
    ensures OrdersBy(NewestFirst(millis), AgeKey(millis))
  {
    forall a, b
      ensures Sign(NewestFirst(millis)(a, b)) == KeyCompare(AgeKey(millis)(a), AgeKey(millis)(b))
    {
      assert NewestFirst(millis)(a, b) == millis(b.createdAt) - millis(a.createdAt);
    }
  }

  /** Every task has exactly one of the three statuses, so the counts add up. */
  lemma {:induction false} StatusPartition(tasks: seq<Task>)
    ensures CountStatus(tasks, Done) + CountStatus(tasks, InProgress) + CountStatus(tasks, Todo)
            == |tasks|
  {
    if tasks != [] {
      StatusPartition(tasks[1..]);
    }
  }

  /** The newest-first stable sort of all tasks; `recent` is its first five. */
  function ByNewest(tasks: seq<Task>, millis: string -> int): seq<Task> {
    Sort(tasks, NewestFirst(millis))
  }

  /** `[...tasks].sort(newest first).slice(0, 5)`. */
  function Recent(tasks: seq<Task>, millis: string -> int): (r: seq<Task>)
    ensures |r| == Min(RecentLimit, |tasks|)
    ensures r <= ByNewest(tasks, millis)
  {
    ByNewest(tasks, millis)[..Min(RecentLimit, |tasks|)]
  }

  /** The stats computed in the dashboard's `useMemo`. */
  function ComputeStats(tasks: seq<Task>, millis: string -> int): (s: Stats)
    ensures s.total == |tasks|
    ensures s.completed == CountStatus(tasks, Done)
    ensures s.inProgress == CountStatus(tasks, InProgress)
    ensures s.pending == CountStatus(tasks, Todo)
    ensures s.recent == Recent(tasks, millis)
    ensures s.completed + s.inProgress + s.pending == s.total
    ensures |s.recent| == Min(RecentLimit, |tasks|)
    ensures multiset(s.recent) <= multiset(tasks)
    ensures forall i, j :: 0 <= i < j < |s.recent| ==>
      millis(s.recent[i].createdAt) >= millis(s.recent[j].createdAt)
  {
    StatusPartition(tasks);
    RecentProperties(tasks, millis);
    Stats(|tasks|,
          CountStatus(tasks, Done),
          CountStatus(tasks, InProgress),
          CountStatus(tasks, Todo),
          Recent(tasks, millis))
  }

  lemma RecentProperties(tasks: seq<Task>, millis: string -> int)
    ensures var r := Recent(tasks, millis);
      && multiset(r) <= multiset(tasks)
      && forall i, j :: 0 <= i < j < |r| ==> millis(r[i].createdAt) >= millis(r[j].createdAt)
  {
    var s := ByNewest(tasks, millis);
    var n := Min(RecentLimit, |tasks|);
    NewestFirstOrdersBy(millis);
    SortSorted(tasks, NewestFirst(millis), AgeKey(millis));
    SortPermutes(tasks, NewestFirst(millis));
    SplitAt(s, n);
    forall i, j | 0 <= i < j < n
      ensures millis(s[i].createdAt) >= millis(s[j].createdAt)
    {
      assert NewestFirst(millis)(s[i], s[j]) <= 0;
    }
  }

  /** No task left out of `recent` is newer than any task in it. */
  lemma RecentAreNewest(tasks: seq<Task>, millis: string -> int, t: Task)
    requires multiset(Recent(tasks, millis))[t] < multiset(tasks)[t]
    ensures forall k :: 0 <= k < |Recent(tasks, millis)| ==>
      millis(t.createdAt) <= millis(Recent(tasks, millis)[k].createdAt)
  {
    var s := ByNewest(tasks, millis);
    var n := Min(RecentLimit, |tasks|);
    var r := Recent(tasks, millis);
    NewestFirstOrdersBy(millis);
    SortSorted(tasks, NewestFirst(millis), AgeKey(millis));
    SortPermutes(tasks, NewestFirst(millis));
    SortedPrefixBelow(s, NewestFirst(millis), n, t);
    forall k | 0 <= k < n
      ensures millis(t.createdAt) <= millis(r[k].createdAt)
    {
      assert NewestFirst(millis)(s[k], t) <= 0;
    }
  }

  /** Tasks created at the same moment keep their input order in `recent`: the ties of
      any task in `recent` are a prefix of its ties in the input. */
  lemma RecentStable(tasks: seq<Task>, millis: string -> int, y: Task)
    ensures var cmp := NewestFirst(millis);
      Ties(Recent(tasks, millis), y, cmp) <= Ties(tasks, y, cmp)
  {
    var cmp := NewestFirst(millis);
    var s := ByNewest(tasks, millis);
    var n := Min(RecentLimit, |tasks|);
    NewestFirstOrdersBy(millis);
    SortStable(tasks, y, cmp, AgeKey(millis));
    SplitAt(s, n);
    TiesAppend(s[..n], s[n..], y, cmp);
    assert Recent(tasks, millis) == s[..n];
  }

  /** With no tasks there is nothing to count and nothing recent. */
  lemma EmptyStats(millis: string -> int)
    ensures ComputeStats([], millis) == Stats(0, 0, 0, 0, [])
  {
  }
}
