/**
 * The bookkeeping of the filter bar in `src/components/TaskFilter/TaskFilter.tsx`:
 * its default filters, the count of active filters, and "clear all".
 */
module TaskFilter {
  import opened TaskTypes
  import opened Text
  import opened Seqs
  import opened StableSort
  import opened TaskUtils

  /** `DEFAULTS`: no search, every status and priority, manual order ascending. */
  const Defaults: Filters := Filters("", AllStatuses, AllPriorities, ByOrder, Asc)

  /** The filters of `f` that are set, by name. */
  function ActiveFields(f: Filters): (names: set<string>)
    ensures names <= {"query", "status", "priority"}
    ensures "query" in names <==> !AllWhitespace(f.query)
    ensures "status" in names <==> f.status != AllStatuses
    ensures "priority" in names <==> f.priority != AllPriorities
  {
    (if AllWhitespace(f.query) then {} else {"query"})
    + (if f.status == AllStatuses then {} else {"status"})
    + (if f.priority == AllPriorities then {} else {"priority"})
  }

  /** `activeCount`: one for a non-blank search, one for a status, one for a priority. */
  function ActiveCount(f: Filters): (n: nat)
    ensures n == |ActiveFields(f)|
    ensures n <= 3
    ensures n == 0 <==>
      AllWhitespace(f.query) && f.status == AllStatuses && f.priority == AllPriorities
    ensures n == 3 <==>
      !AllWhitespace(f.query) && f.status != AllStatuses && f.priority != AllPriorities
  {
    var q: set<string> := if AllWhitespace(f.query) then {} else {"query"};
    var st: set<string> := if f.status == AllStatuses then {} else {"status"};
    var pr: set<string> := if f.priority == AllPriorities then {} else {"priority"};
    assert |q + st| == |q| + |st| by { assert q * st == {}; }
    assert |q + st + pr| == |q + st| + |pr| by { assert (q + st) * pr == {}; }
    (if Trim(f.query) != "" then 1 else 0)
    + (if f.status != AllStatuses then 1 else 0)
    + (if f.priority != AllPriorities then 1 else 0)
  }

  /** Each filter that is set adds exactly one to the count of the others. */
  lemma ActiveCountPerFilter(f: Filters)
    ensures ActiveCount(f) == ActiveCount(f.(query := "")) + (if AllWhitespace(f.query) then 0 else 1)
    ensures ActiveCount(f) == ActiveCount(f.(status := AllStatuses)) + (if f.status.StatusIs? then 1 else 0)
    ensures ActiveCount(f) == ActiveCount(f.(priority := AllPriorities)) + (if f.priority.PriorityIs? then 1 else 0)
  {
    assert AllWhitespace("");
  }

  /** `clearAll`: drops the search and the status and priority filters, keeps the sort. */
  function ClearAll(f: Filters): (g: Filters)
    ensures g.query == "" && g.status == AllStatuses && g.priority == AllPriorities
    ensures g.sortBy == f.sortBy && g.sortDir == f.sortDir
    ensures ActiveCount(g) == 0
  {
    f.(query := "", status := AllStatuses, priority := AllPriorities)
  }

  lemma DefaultsInactive()
    ensures ActiveCount(Defaults) == 0
  {
  }

  /** When the filter bar shows no active filter, the query keeps every task and only
      sorts. */
  lemma InactiveFiltersKeepAll(list: seq<Task>, f: Filters)
    requires ActiveCount(f) == 0
    ensures Selected(list, f) == list
    ensures Query(list, f) == SortSpec(list, f.sortBy, f.sortDir)
  {
    FilterKeepsAll(list, Passes(f));
  }

  /** After "clear all" the list shows every task, in the order that was selected. */
  lemma ClearAllShowsEverything(list: seq<Task>, f: Filters)
    ensures Query(list, ClearAll(f)) == SortSpec(list, f.sortBy, f.sortDir)
  {
    InactiveFiltersKeepAll(list, ClearAll(f));
  }

  /** The default view is every task in ascending manual order, ties in input order. */
  lemma DefaultsQuery(list: seq<Task>)
    ensures Query(list, Defaults) == Sort(list, Comparator(ByOrder))
  {
    InactiveFiltersKeepAll(list, Defaults);
  }
}
