# Task dashboard core, modelled in Dafny

This project models the data core of a small browser-based task manager. It covers:

- form validation and task construction;
- the case-insensitive text search;
- the comparison of two tasks by a sort key;
- the filter-then-sort query behind the task list;
- the summary statistics of the dashboard;
- the filter bar's default filters, active-filter count and "clear all".

Modules:

- `Text`: the JavaScript string operations the core relies on: `trim` (with the ECMAScript white space and line terminator set), lower-casing, `includes`, and code-point comparison.
- `Seqs`: `Array.prototype.filter` and `reverse` on values.
- `StableSort`: the stable sort that `Array.prototype.sort` is required to be since ECMAScript 2019. It has three parts:
  - a functional specification, `Sort`, which is insertion sort;
  - an in-place array method `SortInPlace` proved to compute it;
  - proofs that `Sort` is sorted, a permutation and stable, and that it is the only function with all three properties (`StableSortIsUnique`). So modelling the engine's sort by insertion sort loses nothing.
- `TaskTypes`: the task, form-data and filter records.
- `TaskUtils`: `src/utils/taskUtils.ts`. `validateTask` is a method that builds the error map field by field. `sortTasks` copies the list into an array, sorts it in place and reverses it in place. `applyFilters` narrows `out` step by step. `SortTasks` and `ApplyFilters` are proved equal to the specification functions `SortSpec` and `Query`, and the lemmas state what the source promises about those functions. `ValidateTask` states its result directly in its postconditions.
- `Dashboard`: the statistics computed in `src/components/DashBoard/DashBoard.tsx`.
- `TaskFilter`: the bookkeeping of `src/components/TaskFilter/TaskFilter.tsx`.

Inputs from outside the pure core are parameters:

- the identifier from `crypto.randomUUID()`;
- the two clock readings of `nowISO()` in `toTask`;
- the date conversion `new Date(d).toISOString()` (`toIso`);
- the timestamp `new Date(iso).getTime()` (`millis`).

Facts about the code that a reader might not expect:

- Ascending queries are idempotent (`TaskUtils.QueryIdempotentAscending`). Descending queries are not. Under `desc` the code reverses a stable ascending sort, so two tasks with equal keys trade places on every re-run (`TaskUtils.DescendingSwapsTies`, `TaskUtils.QueryDescendingNotIdempotent`). Under `desc`, tasks with equal keys come out in reverse input order (`TaskUtils.SortDescending`).
- `createdAt` and `updatedAt` come from two clock readings, so `ToTask` takes two readings, which may differ.
- `applyFilters` applies the text filter only for a non-empty query (`if (f.query)`). `matchesQuery` also accepts any blank query. So a whitespace-only query filters nothing (`TaskUtils.BlankQueryFiltersNothing`).

## Model

| member | source | states |
|---|---|---|
| Text.Trim | src/utils/taskUtils.ts:55 | `trim` removes exactly a run of whitespace from each end: the result sits inside the input with only whitespace before and after it, neither of its ends is whitespace, and it is empty exactly when the input is all whitespace |
| Text.SkipForward | src/utils/taskUtils.ts:55 | the scan from the left stops at the first character that is not whitespace, and only whitespace lies before it |
| Text.SkipBackward | src/utils/taskUtils.ts:55 | the scan from the right stops just after the last character that is not whitespace, and only whitespace lies after it |
| Text.TrimIdempotent | src/utils/taskUtils.ts:77 | trimming a trimmed string changes nothing, so a stored title is already trimmed |
| Text.LowerChar | src/utils/taskUtils.ts:96 | `toLowerCase` on one character maps each capital A-Z to its own small letter, at the same position of the alphabet, and leaves every other character alone |
| Text.Lower | src/utils/taskUtils.ts:96-100 | lower-casing keeps the length and works character by character |
| Text.Contains | src/utils/taskUtils.ts:99-100 | `includes` is true exactly when the needle occurs at some position of the haystack |
| Text.Compare | src/utils/taskUtils.ts:112-114 | string comparison, by code point, returns -1, 0 or 1, and 0 exactly for equal strings |
| Text.CompareAntisymmetric | src/utils/taskUtils.ts:112-114 | swapping the operands negates the comparison |
| Text.CompareTransitive | src/utils/taskUtils.ts:112-114 | the string order is transitive |
| Seqs.Filter | src/utils/taskUtils.ts:131-133 | `filter` never lengthens the list |
| Seqs.FilterCount | src/utils/taskUtils.ts:131-133 | `filter` keeps every element that passes with its multiplicity and drops every other one |
| Seqs.FilterSatisfies | src/utils/taskUtils.ts:131-133 | every element `filter` returns passes the predicate |
| Seqs.FilterIndices | src/components/DashBoard/DashBoard.tsx:17-19 | the length of a filtered list is the number of positions of the input whose element passes |
| Seqs.FilterExt | src/utils/taskUtils.ts:131-133 | filters with predicates that agree on the list give the same result |
| Seqs.FilterKeepsAll | src/utils/taskUtils.ts:131 | a predicate every element passes leaves the list unchanged |
| Seqs.FilterFuse | src/utils/taskUtils.ts:131-133 | two successive filters equal one filter by the conjunction |
| Seqs.FilterAppend | src/utils/taskUtils.ts:131-133 | filtering distributes over concatenation |
| Seqs.Reversed | src/utils/taskUtils.ts:124 | `reverse` keeps the length and the elements with their multiplicities |
| Seqs.ReversedAt | src/utils/taskUtils.ts:124 | element k of the reversal is element n-1-k of the input |
| Seqs.ReversedByIndex | src/utils/taskUtils.ts:124 | a sequence holding at each index the element at the mirrored index is the reversal |
| Seqs.ReversedInvolution | src/utils/taskUtils.ts:124 | reversing twice gives back the input |
| StableSort.KeyCompare | src/utils/taskUtils.ts:105-119 | the ordering of sort keys returns -1, 0 or 1 |
| StableSort.KeyCompareZero | src/utils/taskUtils.ts:105-119 | two keys compare equal exactly when they are the same key |
| StableSort.KeyCompareAntisymmetric | src/utils/taskUtils.ts:105-119 | swapping two keys negates their comparison |
| StableSort.KeyCompareTransitive | src/utils/taskUtils.ts:105-119 | the key order is transitive |
| StableSort.Sign | src/utils/taskUtils.ts:123 | the sign of a comparator's result is -1, 0 or 1 and has that sign |
| StableSort.Flip | src/utils/taskUtils.ts:123 | a comparator that orders by a key is antisymmetric |
| StableSort.Transitive | src/utils/taskUtils.ts:123 | a comparator that orders by a key is transitive |
| StableSort.TiesAppend | src/utils/taskUtils.ts:123 | the ties of a concatenation are the ties of each part, in order |
| StableSort.Insert | src/utils/taskUtils.ts:123 | inserting one element lengthens the list by one |
| StableSort.Sort | src/utils/taskUtils.ts:123 | the sort keeps the length |
| StableSort.SortPermutes | src/utils/taskUtils.ts:123 | the sort is a permutation of its input |
| StableSort.SortSorted | src/utils/taskUtils.ts:123 | the sort output is in non-decreasing comparator order |
| StableSort.SortStable | src/utils/taskUtils.ts:123 | elements that compare equal keep their input order |
| StableSort.SortOfSorted | src/utils/taskUtils.ts:123 | sorting an already sorted list changes nothing |
| StableSort.ReversedSortedDescending | src/utils/taskUtils.ts:124 | reversing a sorted list gives one in non-increasing order |
| StableSort.TiesReversed | src/utils/taskUtils.ts:124 | reversing a list reverses the order of every group of equal elements |
| StableSort.TiesMember | src/utils/taskUtils.ts:123 | an element is a tie of y exactly when it occurs and compares equal to y |
| StableSort.SortedTiesUnique | src/utils/taskUtils.ts:123 | two sorted lists with the same ties for every element are equal |
| StableSort.StableSortIsUnique | src/utils/taskUtils.ts:123 | any sorted output that keeps ties in input order is exactly `Sort`'s output, so every stable sort agrees with it |
| StableSort.SortInPlace | src/utils/taskUtils.ts:123 | sorting the array in place leaves exactly `Sort` of its old contents |
| StableSort.InsertInPlace | src/utils/taskUtils.ts:123 | one insertion step puts element i into its place in the sorted prefix and leaves the rest alone |
| StableSort.ShiftGreater | src/utils/taskUtils.ts:123 | the inner loop moves every element greater than the inserted one a place to the right, and stops at an element that is at most it or at the start |
| StableSort.Gap | src/utils/taskUtils.ts:123 | the insertion point has only greater elements after it and an element at most the inserted one just before it |
| StableSort.SortedPrefixBelow | src/components/DashBoard/DashBoard.tsx:20 | in a sorted list, every element of a prefix that misses some copy of `t` sorts at or before `t` |
| StableSort.SortOfPair | src/utils/taskUtils.ts:123-124 | two elements that pass the filter and are in order stay in order when sorted, and swap when reversed |
| StableSort.ReverseInPlace | src/utils/taskUtils.ts:124 | reversing the array in place leaves exactly the reversal of its old contents |
| TaskUtils.ValidateTask | src/utils/taskUtils.ts:53-71 | only `title` and `description` can be in the error map. `title` is there exactly when the trimmed title is empty ("Title is required") or longer than 80 ("Max 80 characters"). `description` is there exactly when a description longer than 1000 is present ("Max 1000 characters"). The map is empty exactly when both checks pass |
| TaskUtils.IsoDate | src/utils/taskUtils.ts:20-21 | an absent or empty date stays absent; any other is converted |
| TaskUtils.TrimmedDescription | src/utils/taskUtils.ts:78 | the description is absent exactly when it was absent or blank; otherwise it is the trimmed, non-empty text |
| TaskUtils.ToTask | src/utils/taskUtils.ts:74-88 | the task takes the given identifier, order and clock readings and copies priority and status. Its title is the trimmed title. Its description is absent exactly when the input's is absent or blank, and otherwise is the trimmed input. Its due date is absent exactly when the input's is absent or empty, and otherwise is the converted input date |
| TaskUtils.ConstructedTaskWellFormed | src/utils/taskUtils.ts:53-88 | a task built from validated form data has a trimmed title of 1 to 80 characters and a description that is absent or trimmed, non-empty and at most 1000 characters |
| TaskUtils.MatchesQuery | src/utils/taskUtils.ts:95-102 | a task matches a query exactly when the trimmed, lower-cased query is empty or occurs in the lower-cased title or in a present description |
| TaskUtils.Rank | src/utils/taskUtils.ts:92 | each priority has a rank from 1 to 3 |
| TaskUtils.TaskKey | src/utils/taskUtils.ts:105-119 | the sort key is a number exactly for `priority` and `order`. For `title` it is the lower-cased title, a missing due date sorts as the empty string, and a priority key lies between 1 and 3 |
| TaskUtils.CompareBy | src/utils/taskUtils.ts:105-119 | the sign of `compareBy` is the comparison of the two tasks' keys under the chosen sort option |
| TaskUtils.PriorityOrder | src/utils/taskUtils.ts:92 | priorities sort low before medium before high, and compare equal exactly when they are the same |
| TaskUtils.ComparatorOrdersBy | src/utils/taskUtils.ts:105-119 | every sort option's comparator orders tasks by a key, so it is consistent in the sense `sort` requires |
| TaskUtils.SortTasks | src/utils/taskUtils.ts:122-125 | `sortTasks` returns the stable ascending sort of the list, reversed for `desc` |
| TaskUtils.SortAscending | src/utils/taskUtils.ts:122-125 | the ascending result is sorted by `compareBy`, a permutation of the input, and stable |
| TaskUtils.SortDescending | src/utils/taskUtils.ts:122-125 | the descending result is the ascending one reversed. It is in non-increasing order, a permutation of the input, and puts equal keys in reverse input order |
| TaskUtils.Keep | src/utils/taskUtils.ts:131-133 | a kept task matches the query and has the selected status and priority. With a blank query and both filters on "all", every task is kept |
| TaskUtils.Selected | src/utils/taskUtils.ts:131-133 | the filtered list is no longer than the input and every task in it passes the filters |
| TaskUtils.Query | src/utils/taskUtils.ts:128-137 | the query result is a permutation of the filtered list |
| TaskUtils.ApplyFilters | src/utils/taskUtils.ts:128-138 | `applyFilters` returns the tasks that pass the text, status and priority filters, sorted as `sortTasks` sorts |
| TaskUtils.QueryCounts | src/utils/taskUtils.ts:128-137 | no task is fabricated or duplicated: each task passing the filters keeps its multiplicity, and every other task is gone |
| TaskUtils.QueryMembers | src/utils/taskUtils.ts:131-133 | a task is in the result exactly when it is in the input and passes the filters. The result is no longer than the input, and every result task has the selected status and priority |
| TaskUtils.QueryAscending | src/utils/taskUtils.ts:135 | ascending results are sorted by the key and keep equal keys in input order |
| TaskUtils.QueryDescending | src/utils/taskUtils.ts:124 | descending results are the ascending results reversed, in non-increasing key order |
| TaskUtils.BlankQueryFiltersNothing | src/utils/taskUtils.ts:96-97 | a blank or whitespace-only search filters by status and priority only |
| TaskUtils.QueryIdempotentAscending | src/utils/taskUtils.ts:128-137 | re-running an ascending query on its own output changes nothing |
| TaskUtils.DescendingSwapsTies | src/utils/taskUtils.ts:124 | under `desc`, two matching tasks with equal keys are swapped, and swapped back on a re-run |
| TaskUtils.TiedPairSwaps | src/utils/taskUtils.ts:124 | one descending query of two matching tasks with equal keys returns them swapped |
| TaskUtils.QueryDescendingNotIdempotent | src/utils/taskUtils.ts:124 | for any matching task there is a second one that makes a descending query differ from its re-run |
| Dashboard.CountStatus | src/components/DashBoard/DashBoard.tsx:17-19 | a status count is the number of positions holding a task with that status |
| Dashboard.NewestFirst | src/components/DashBoard/DashBoard.tsx:20 | the comparator puts `a` before `b` exactly when `a` was created later, and ties them exactly when they were created at the same time |
| Dashboard.Recent | src/components/DashBoard/DashBoard.tsx:20 | `recent` holds min(5, number of tasks) tasks and is a prefix of the tasks sorted newest first |
| Dashboard.NewestFirstOrdersBy | src/components/DashBoard/DashBoard.tsx:20 | the newest-first comparator orders by the negated creation time |
| Dashboard.StatusPartition | src/components/DashBoard/DashBoard.tsx:16-19 | the completed, in-progress and pending counts add up to the number of tasks |
| Dashboard.ComputeStats | src/components/DashBoard/DashBoard.tsx:15-24 | `total` is the number of tasks. `completed`, `inProgress` and `pending` are the numbers of tasks with status done, in progress and todo, and they add up to `total`. `recent` is `Recent` of the tasks: min(5, total) tasks drawn from them, newest first |
| Dashboard.RecentProperties | src/components/DashBoard/DashBoard.tsx:20 | `recent` is a sub-multiset of the tasks, in non-increasing creation time |
| Dashboard.RecentAreNewest | src/components/DashBoard/DashBoard.tsx:20 | no task left out of `recent` is newer than any task in it |
| Dashboard.RecentStable | src/components/DashBoard/DashBoard.tsx:20 | tasks created at the same moment keep their input order in `recent` |
| Dashboard.EmptyStats | src/components/DashBoard/DashBoard.tsx:15-24 | with no tasks every count is zero and `recent` is empty |
| TaskFilter.ActiveFields | src/components/TaskFilter/TaskFilter.tsx:34 | the set filters by name: `query` exactly for a non-blank search, `status` and `priority` exactly when they are not "all" |
| TaskFilter.ActiveCount | src/components/TaskFilter/TaskFilter.tsx:34 | the active count is the number of filters that are set, so at most 3. It is 0 exactly when the search is blank and status and priority are "all", and 3 exactly when all three are set |
| TaskFilter.ActiveCountPerFilter | src/components/TaskFilter/TaskFilter.tsx:34 | a non-blank search, a status and a priority each add exactly one to the count of the other filters |
| TaskFilter.ClearAll | src/components/TaskFilter/TaskFilter.tsx:37-41 | "clear all" empties the search and resets status and priority, keeps the sort, and leaves no active filter |
| TaskFilter.DefaultsInactive | src/components/TaskFilter/TaskFilter.tsx:13-19 | the default filters count no active filter |
| TaskFilter.InactiveFiltersKeepAll | src/components/TaskFilter/TaskFilter.tsx:34 | with no active filter the query keeps every task and only sorts |
| TaskFilter.ClearAllShowsEverything | src/components/TaskFilter/TaskFilter.tsx:39 | after "clear all" the list shows every task in the selected order |
| TaskFilter.DefaultsQuery | src/components/TaskFilter/TaskFilter.tsx:13-19 | the default view is every task in ascending manual order, ties in input order |

## Left out

- `useLocalStorage` (src/utils/taskUtils.ts:24-47) is left out. It reads and writes browser storage and parses JSON, which is I/O outside the pure core.
- `nowISO`, `isOverdue` and `formatDate` are left out. They read the clock or format dates for a locale. `toTask` receives its clock readings as parameters instead.
- `TaskUtils.IsoDate`: the conversion `new Date(d).toISOString()` is the parameter `toIso`. The `RangeError` it throws on an unparsable date is not modelled.
- `TaskUtils.ToTask`: the identifier from `crypto.randomUUID()` is a parameter, so uniqueness of identifiers is not modelled.
- `TaskUtils.CompareBy`: `Intl.Collator` with base sensitivity is modelled as code-point comparison of ASCII-lower-cased titles. Locale-specific collation and accent folding are not modelled.
- `TaskUtils.CompareBy`: `localeCompare` on timestamps is modelled as code-point comparison, which agrees for ISO-8601 strings of one format.
- `Text.Lower`: `toLowerCase` is modelled for ASCII letters only. Full Unicode case mapping is not modelled.
- Strings are sequences of Dafny characters, not UTF-16 code units. Lengths may differ for characters outside the Basic Multilingual Plane.
- `Dashboard.ComputeStats`: `new Date(iso).getTime()` is the parameter `millis`, returning an integer. An unparsable date, which gives `NaN`, is not modelled.
- JavaScript numbers are modelled as unbounded integers. `order` and the comparator differences never leave the safe-integer range for realistic inputs.
- The fallbacks `?? 0`, `?? ''` on `order` and `createdAt`, and `?? ''` on the form title are not modelled. Those fields are always present in the records.
- The debug logging, React hooks and rendering are left out: the `useEffect` sync and emit in the filter bar, `onReset`, the task form, the task list and the app shell. They are user interface around the core.
