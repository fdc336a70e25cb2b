/**
 * The task pipeline of `src/utils/taskUtils.ts`: form validation, task construction,
 * text search, comparison by a sort key, sorting, and the filter-then-sort query.
 */
module TaskUtils {
  import opened TaskTypes
  import opened Text
  import opened Seqs
  import opened StableSort

  /* ------------------------------- Validation ------------------------------- */

  const TitleRequired: string := "Title is required"
  const TitleTooLong: string := "Max 80 characters"
  const DescriptionTooLong: string := "Max 1000 characters"
  const MaxTitle: nat := 80
  const MaxDescription: nat := 1000

  /** The title passes validation: after trimming it is non-empty and at most 80 long. */
  predicate TitleOk(title: string) {
    Trim(title) != "" && |Trim(title)| <= MaxTitle
  }

  /** The description passes validation: absent, or at most 1000 long before trimming. */
  predicate DescriptionOk(description: Option<string>) {
    description.None? || |description.value| <= MaxDescription
  }

  /** Builds the field-to-message map of the form's errors, one field at a time. */
  method ValidateTask(data: TaskFormData) returns (e: map<string, string>)
    ensures e.Keys <= {"title", "description"}
    ensures "title" in e <==> !TitleOk(data.title)
    ensures "title" in e ==>
      e["title"] == if AllWhitespace(data.title) then TitleRequired else TitleTooLong
    ensures "description" in e <==> !DescriptionOk(data.description)
    ensures "description" in e ==> e["description"] == DescriptionTooLong
    ensures e == map[] <==> TitleOk(data.title) && DescriptionOk(data.description)
  {
    e := map[];
    var title := Trim(data.title);
    if title == "" {
      e := e["title" := TitleRequired];
    } else if |title| > MaxTitle {
      e := e["title" := TitleTooLong];
    }
    if data.description.Some? && data.description.value != ""
      && |data.description.value| > MaxDescription
    {
      e := e["description" := DescriptionTooLong];
    }
    assert "title" in e ==> e["title"] != DescriptionTooLong;
  }

  /* ------------------------------ Construction ------------------------------ */

  /** `toISODate`: an empty or missing date stays missing; otherwise the date is
      converted by `toIso`, which stands for `new Date(d).toISOString()`. */
  function IsoDate(d: Option<string>, toIso: string -> string): (r: Option<string>)
    ensures r.None? <==> d.None? || d.value == ""
    ensures r.Some? ==> r.value == toIso(d.value)
  {
    if d.Some? && d.value != "" then Some(toIso(d.value)) else None
  }

  /** The trimmed description, missing when blank. */
  function TrimmedDescription(d: Option<string>): (r: Option<string>)
    ensures r.None? <==> d.None? || AllWhitespace(d.value)
    ensures r.Some? ==> r.value == Trim(d.value) && r.value != ""
  {
    match d
    case None => None
    case Some(s) => if Trim(s) == "" then None else Some(Trim(s))
  }

  /** `toTask`: the identifier and the two clock readings are parameters, since the
      source obtains them from `crypto.randomUUID()` and two calls of `nowISO()`. */
  function ToTask(data: TaskFormData, nextOrder: int, id: string, createdAt: string,
                  updatedAt: string, toIso: string -> string): (t: Task)
    ensures t.id == id && t.order == nextOrder
    ensures t.createdAt == createdAt && t.updatedAt == updatedAt
    ensures t.priority == data.priority && t.status == data.status
    ensures t.title == Trim(data.title)
    ensures t.description.None? <==> data.description.None? || AllWhitespace(data.description.value)
    ensures t.description.Some? ==> t.description.value == Trim(data.description.value)
    ensures t.dueDate.None? <==> data.dueDate.None? || data.dueDate.value == ""
    ensures t.dueDate.Some? ==> t.dueDate.value == toIso(data.dueDate.value)
  {
    Task(id, Trim(data.title), TrimmedDescription(data.description), data.priority,
         data.status, IsoDate(data.dueDate, toIso), createdAt, updatedAt, nextOrder)
  }

  /** What a stored task satisfies once its form passed validation: a trimmed title of
      1 to 80 characters, and a description that is missing or trimmed, non-empty and at
      most 1000 characters. */
  ghost predicate WellFormed(t: Task) {
    && 1 <= |t.title| <= MaxTitle && Trim(t.title) == t.title
    && (t.description.Some? ==>
          t.description.value != "" && |t.description.value| <= MaxDescription
          && Trim(t.description.value) == t.description.value)
  }

  /** Validation followed by construction yields a well-formed task. */
  lemma ConstructedTaskWellFormed(data: TaskFormData, nextOrder: int, id: string,
                                  createdAt: string, updatedAt: string, toIso: string -> string)
    requires TitleOk(data.title) && DescriptionOk(data.description)
    ensures WellFormed(ToTask(data, nextOrder, id, createdAt, updatedAt, toIso))
  {
    TrimIdempotent(data.title);
    if data.description.Some? {
      TrimIdempotent(data.description.value);
    }
  }

  /* -------------------------------- Searching ------------------------------- */

  /** `matchesQuery`: a blank query matches everything; otherwise the lower-cased,
      trimmed query must occur in the lower-cased title or in a present description. */
  function MatchesQuery(t: Task, q: string): (b: bool)
    ensures b <==>
      var needle := Lower(Trim(q));
      || needle == ""
      || IsSubstring(needle, Lower(t.title))
      || (t.description.Some? && IsSubstring(needle, Lower(t.description.value)))
  {
    var needle := Lower(Trim(q));
    if needle == "" then true
    else
      Contains(Lower(t.title), needle)
      || (if t.description.Some? && t.description.value != ""
          then Contains(Lower(t.description.value), needle) else false)
  }

  /* ----------------------------- Comparing tasks ---------------------------- */

  /** `priorityRank`. */
  function Rank(p: Priority): (r: int)
    ensures 1 <= r <= 3
  {
    match p
    case Low => 1
    case Medium => 2
    case High => 3
  }

  function OrEmpty(d: Option<string>): string {
    if d.Some? then d.value else ""
  }

  /** The key each sort option orders by: the case-folded title, the priority rank, the
      creation or due timestamp (a missing due date as the empty string), or the manual
      order. */
  function TaskKey(t: Task, sortBy: SortKey): (k: Key)
    ensures k.Num? <==> sortBy == ByPriority || sortBy == ByOrder
    ensures sortBy == ByTitle ==> k.s == Lower(t.title)
    ensures sortBy == ByDueDate && t.dueDate.None? ==> k == Str("")
    ensures sortBy == ByPriority ==> 1 <= k.n <= 3
  {
    match sortBy
    case ByTitle => Str(Lower(t.title))
    case ByPriority => Num(Rank(t.priority))
    case ByCreatedAt => Str(t.createdAt)
    case ByDueDate => Str(OrEmpty(t.dueDate))
    case ByOrder => Num(t.order)
  }

  /** `compareBy`: negative, zero or positive as `a` sorts before, with or after `b`.
      Its sign is that of comparing the two tasks' keys. */
  function CompareBy(a: Task, b: Task, sortBy: SortKey): (r: int)
    ensures Sign(r) == KeyCompare(TaskKey(a, sortBy), TaskKey(b, sortBy))
  {
    match sortBy
    case ByTitle => Text.Compare(Lower(a.title), Lower(b.title))
    case ByPriority => Rank(a.priority) - Rank(b.priority)
    case ByCreatedAt => Text.Compare(a.createdAt, b.createdAt)
    case ByDueDate => Text.Compare(OrEmpty(a.dueDate), OrEmpty(b.dueDate))
    case ByOrder => a.order - b.order
  }

  /** Priorities sort low, then medium, then high. */
  lemma PriorityOrder(a: Task, b: Task)
    ensures CompareBy(a, b, ByPriority) < 0 <==>
      (a.priority == Low && b.priority != Low) || (a.priority == Medium && b.priority == High)
    ensures CompareBy(a, b, ByPriority) == 0 <==> a.priority == b.priority
  {
  }

  /** The comparator handed to `sort`. */
  function Comparator(sortBy: SortKey): (Task, Task) -> int {
    (a, b) => CompareBy(a, b, sortBy)
  }

  function KeyFn(sortBy: SortKey): Task -> Key {
    t => TaskKey(t, sortBy)
  }

  lemma ComparatorOrdersBy(sortBy: SortKey)
    ensures OrdersBy(Comparator(sortBy), KeyFn(sortBy))
  {
    forall a, b
      ensures Sign(Comparator(sortBy)(a, b)) == KeyCompare(KeyFn(sortBy)(a), KeyFn(sortBy)(b))
    {
      assert Comparator(sortBy)(a, b) == CompareBy(a, b, sortBy);
    }
  }

  /* --------------------------------- Sorting -------------------------------- */

  /** What `sortTasks` returns: the stable ascending sort, reversed for `desc`. */
  function SortSpec(list: seq<Task>, sortBy: SortKey, dir: SortDir): seq<Task> {
    var s := Sort(list, Comparator(sortBy));
    if dir == Asc then s else Reversed(s)
  }

  /** `sortTasks`: sorts a copy of `list` in place and reverses it in place for `desc`. */
  method SortTasks(list: seq<Task>, sortBy: SortKey, dir: SortDir) returns (r: seq<Task>)
    ensures r == SortSpec(list, sortBy, dir)
  {
    var a := new Task[|list|](i requires 0 <= i < |list| => list[i]);
    assert a[..] == list;
    SortInPlace(a, Comparator(sortBy));
    if dir == Desc {
      ReverseInPlace(a);
    }
    r := a[..];
  }

  /** Ascending: sorted by `compareBy`, a permutation of the input, and stable. */
  lemma SortAscending(list: seq<Task>, sortBy: SortKey)
    ensures var r := SortSpec(list, sortBy, Asc);
      && (forall i, j :: 0 <= i < j < |r| ==> CompareBy(r[i], r[j], sortBy) <= 0)
      && multiset(r) == multiset(list)
      && (forall y :: Ties(r, y, Comparator(sortBy)) == Ties(list, y, Comparator(sortBy)))
  {
    ComparatorOrdersBy(sortBy);
    var r := SortSpec(list, sortBy, Asc);
    SortSorted(list, Comparator(sortBy), KeyFn(sortBy));
    SortPermutes(list, Comparator(sortBy));
    forall i, j | 0 <= i < j < |r|
      ensures CompareBy(r[i], r[j], sortBy) <= 0
    {
      assert Comparator(sortBy)(r[i], r[j]) <= 0;
    }
    forall y
      ensures Ties(r, y, Comparator(sortBy)) == Ties(list, y, Comparator(sortBy))
    {
      SortStable(list, y, Comparator(sortBy), KeyFn(sortBy));
    }
  }

  /** Descending: the ascending result reversed, hence sorted the other way, a
      permutation of the input, and with equal keys in reverse input order. */
  lemma SortDescending(list: seq<Task>, sortBy: SortKey)
    ensures var r := SortSpec(list, sortBy, Desc);
      && r == Reversed(SortSpec(list, sortBy, Asc))
      && (forall i, j :: 0 <= i < j < |r| ==> CompareBy(r[i], r[j], sortBy) >= 0)
      && multiset(r) == multiset(list)
      && (forall y :: Ties(r, y, Comparator(sortBy)) == Reversed(Ties(list, y, Comparator(sortBy))))
  {
    ComparatorOrdersBy(sortBy);
    var s := Sort(list, Comparator(sortBy));
    var r := SortSpec(list, sortBy, Desc);
    SortSorted(list, Comparator(sortBy), KeyFn(sortBy));
    SortPermutes(list, Comparator(sortBy));
    ReversedSortedDescending(s, Comparator(sortBy), KeyFn(sortBy));
    forall i, j | 0 <= i < j < |r|
      ensures CompareBy(r[i], r[j], sortBy) >= 0
    {
      assert Comparator(sortBy)(r[i], r[j]) >= 0;
    }
    forall y
      ensures Ties(r, y, Comparator(sortBy)) == Reversed(Ties(list, y, Comparator(sortBy)))
    {
      TiesReversed(s, y, Comparator(sortBy));
      SortStable(list, y, Comparator(sortBy), KeyFn(sortBy));
    }
  }

  /* ------------------------------ Whole query ------------------------------- */

  predicate StatusOk(t: Task, f: StatusFilter) {
    f.AllStatuses? || t.status == f.status
  }

  predicate PriorityOk(t: Task, f: PriorityFilter) {
    f.AllPriorities? || t.priority == f.priority
  }

  /** A task survives the three filters of `applyFilters`. */
  predicate Keep(t: Task, f: Filters)
    ensures Keep(t, f) ==> MatchesQuery(t, f.query)
    ensures Keep(t, f) && f.status.StatusIs? ==> t.status == f.status.status
    ensures Keep(t, f) && f.priority.PriorityIs? ==> t.priority == f.priority.priority
    ensures AllWhitespace(f.query) && f.status == AllStatuses && f.priority == AllPriorities
            ==> Keep(t, f)
  {
    MatchesQuery(t, f.query) && StatusOk(t, f.status) && PriorityOk(t, f.priority)
  }

  /** `Keep` as a predicate value for `filter`. */
  function Passes(f: Filters): Task -> bool {
    t => Keep(t, f)
  }

  /** The tasks that survive, in input order. */
  function Selected(list: seq<Task>, f: Filters): (r: seq<Task>)
    ensures |r| <= |list|
    ensures forall k :: 0 <= k < |r| ==> Keep(r[k], f)
  {
    FilterSatisfies(list, Passes(f));
    Filter(list, Passes(f))
  }

  /** What `applyFilters` returns. */
  function Query(list: seq<Task>, f: Filters): (r: seq<Task>)
    ensures multiset(r) == multiset(Selected(list, f))
  {
    SortPermutes(Selected(list, f), Comparator(f.sortBy));
    SortSpec(Selected(list, f), f.sortBy, f.sortDir)
  }

  /** `applyFilters`: narrows `out` by text, status and priority in turn, then sorts. */
  method ApplyFilters(list: seq<Task>, f: Filters) returns (r: seq<Task>)
    ensures r == Query(list, f)
  {
    var out := list;
    if f.query != "" {
      out := Filter(out, t => MatchesQuery(t, f.query));
    } else {
      FilterKeepsAll(list, t => MatchesQuery(t, f.query));
    }
    ghost var text := t => MatchesQuery(t, f.query);
    assert out == Filter(list, text);
    ghost var textStatus := t => MatchesQuery(t, f.query) && StatusOk(t, f.status);
    if f.status != AllStatuses {
      FilterFuse(list, text, (t: Task) => t.status == f.status.status, textStatus);
      out := Filter(out, (t: Task) => t.status == f.status.status);
    } else {
      FilterExt(list, text, textStatus);
    }
    assert out == Filter(list, textStatus);
    if f.priority != AllPriorities {
      FilterFuse(list, textStatus, (t: Task) => t.priority == f.priority.priority, Passes(f));
      out := Filter(out, (t: Task) => t.priority == f.priority.priority);
    } else {
      FilterExt(list, textStatus, Passes(f));
    }
    r := SortTasks(out, f.sortBy, f.sortDir);
  }

  /** Nothing is fabricated and nothing is lost: every task keeps its multiplicity if it
      passes the filters and is dropped otherwise. */
  lemma QueryCounts(list: seq<Task>, f: Filters, t: Task)
    ensures multiset(Query(list, f))[t] == if Keep(t, f) then multiset(list)[t] else 0
  {
    var s := Selected(list, f);
    FilterCount(list, Passes(f), t);
    SortPermutes(s, Comparator(f.sortBy));
  }

  /** Membership in the result, both ways, and the length bound. */
  lemma QueryMembers(list: seq<Task>, f: Filters)
    ensures |Query(list, f)| <= |list|
    ensures forall t :: t in Query(list, f) <==> t in list && Keep(t, f)
    ensures f.status.StatusIs? ==>
      forall k :: 0 <= k < |Query(list, f)| ==> Query(list, f)[k].status == f.status.status
    ensures f.priority.PriorityIs? ==>
      forall k :: 0 <= k < |Query(list, f)| ==> Query(list, f)[k].priority == f.priority.priority
  {
    var r := Query(list, f);
    forall t
      ensures t in r <==> t in list && Keep(t, f)
    {
      QueryCounts(list, f, t);
      assert t in r <==> multiset(r)[t] > 0;
    }
    forall k | 0 <= k < |r|
      ensures Keep(r[k], f)
    {
      assert r[k] in r;
    }
  }

  /** Ascending results are sorted, and tasks with equal keys keep their input order. */
  lemma QueryAscending(list: seq<Task>, f: Filters)
    requires f.sortDir == Asc
    ensures var r := Query(list, f);
      && (forall i, j :: 0 <= i < j < |r| ==> CompareBy(r[i], r[j], f.sortBy) <= 0)
      && (forall y :: Ties(r, y, Comparator(f.sortBy))
                      == Ties(Selected(list, f), y, Comparator(f.sortBy)))
  {
    SortAscending(Selected(list, f), f.sortBy);
  }

  /** Descending results are exactly the ascending results reversed. */
  lemma QueryDescending(list: seq<Task>, f: Filters)
    requires f.sortDir == Desc
    ensures Query(list, f) == Reversed(Query(list, f.(sortDir := Asc)))
    ensures var r := Query(list, f);
      forall i, j :: 0 <= i < j < |r| ==> CompareBy(r[i], r[j], f.sortBy) >= 0
  {
    var g := f.(sortDir := Asc);
    FilterExt(list, Passes(f), Passes(g));
    SortDescending(Selected(list, f), f.sortBy);
  }

  /** A query whose text is blank or whitespace filters by status and priority only. */
  lemma BlankQueryFiltersNothing(list: seq<Task>, f: Filters)
    requires AllWhitespace(f.query)
    ensures Selected(list, f) == Filter(list, t => StatusOk(t, f.status) && PriorityOk(t, f.priority))
  {
    FilterExt(list, Passes(f), t => StatusOk(t, f.status) && PriorityOk(t, f.priority));
  }

  /** Ascending queries are idempotent: re-running one on its own output changes nothing. */
  lemma QueryIdempotentAscending(list: seq<Task>, f: Filters)
    requires f.sortDir == Asc
    ensures Query(Query(list, f), f) == Query(list, f)
  {
    var r := Query(list, f);
    QueryMembers(list, f);
    forall k | 0 <= k < |r|
      ensures Keep(r[k], f)
    {
      assert r[k] in r;
    }
    FilterKeepsAll(r, Passes(f));
    ComparatorOrdersBy(f.sortBy);
    SortSorted(Selected(list, f), Comparator(f.sortBy), KeyFn(f.sortBy));
    SortOfSorted(r, Comparator(f.sortBy));
  }

  /** Under `desc`, two tasks that pass the filters and compare equal come out in the
      opposite of their input order, so they swap places on every re-run. */
  lemma DescendingSwapsTies(a: Task, b: Task, f: Filters)
    requires f.sortDir == Desc && Keep(a, f) && Keep(b, f) && CompareBy(a, b, f.sortBy) == 0
    ensures Query([a, b], f) == [b, a]
    ensures Query(Query([a, b], f), f) == [a, b]
  {
    ComparatorOrdersBy(f.sortBy);
    Flip(Comparator(f.sortBy), KeyFn(f.sortBy), a, b);
    assert Comparator(f.sortBy)(b, a) == CompareBy(b, a, f.sortBy);
    TiedPairSwaps(a, b, f);
    TiedPairSwaps(b, a, f);
  }

  /** One descending query of a tied pair reverses it. */
  lemma TiedPairSwaps(a: Task, b: Task, f: Filters)
    requires f.sortDir == Desc && Keep(a, f) && Keep(b, f) && CompareBy(a, b, f.sortBy) == 0
    ensures Query([a, b], f) == [b, a]
  {
    var cmp := Comparator(f.sortBy);
    assert cmp(a, b) <= 0 && Passes(f)(a) && Passes(f)(b) by {
      assert cmp(a, b) == CompareBy(a, b, f.sortBy);
    }
    SortOfPair(a, b, Passes(f), cmp);
    DescendingQuery([a, b], f);
  }

  /** A descending query is the reversed stable sort of the tasks that pass. */
  lemma DescendingQuery(list: seq<Task>, f: Filters)
    requires f.sortDir == Desc
    ensures Query(list, f) == Reversed(Sort(Filter(list, Passes(f)), Comparator(f.sortBy)))
  {
  }

  /** Descending queries are therefore not idempotent: a task and a copy of it under
      another identifier trade places on every re-run. */
  lemma QueryDescendingNotIdempotent(a: Task, id: string, f: Filters)
    requires f.sortDir == Desc && Keep(a, f) && id != a.id
    ensures Query(Query([a, a.(id := id)], f), f) != Query([a, a.(id := id)], f)
  {
    var b := a.(id := id);
    assert TaskKey(a, f.sortBy) == TaskKey(b, f.sortBy);
    assert Sign(CompareBy(a, b, f.sortBy)) == 0 by {
      KeyCompareAntisymmetric(TaskKey(a, f.sortBy), TaskKey(b, f.sortBy));
    }
    assert Keep(b, f);
    DescendingSwapsTies(a, b, f);
    assert [a, b] != [b, a] by {
      assert [a, b][0] != [b, a][0];
    }
  }
}
