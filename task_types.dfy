/**
 * The records the task pipeline works on: a task, the form data it is built from,
 * and the filter/sort specification of one query.
 */
module TaskTypes {

  datatype Option<T> = None | Some(value: T)

  datatype Priority = Low | Medium | High

  datatype Status = Todo | InProgress | Done

  /** The status select of the filter bar: "all" or one status. */
  datatype StatusFilter = AllStatuses | StatusIs(status: Status)

  /** The priority select of the filter bar: "all" or one priority. */
  datatype PriorityFilter = AllPriorities | PriorityIs(priority: Priority)

  datatype SortKey = ByOrder | ByCreatedAt | ByDueDate | ByPriority | ByTitle

  datatype SortDir = Asc | Desc

  datatype Filters = Filters(
    query: string,
    status: StatusFilter,
    priority: PriorityFilter,
    sortBy: SortKey,
    sortDir: SortDir)

  /** A stored task; `dueDate`, `createdAt` and `updatedAt` are ISO-8601 strings. */
  datatype Task = Task(
    id: string,
    title: string,
    description: Option<string>,
    priority: Priority,
    status: Status,
    dueDate: Option<string>,
    createdAt: string,
    updatedAt: string,
    order: int)

  /** What the task form submits; `dueDate` is the `yyyy-mm-dd` value of a date input. */
  datatype TaskFormData = TaskFormData(
    title: string,
    description: Option<string>,
    priority: Priority,
    status: Status,
    dueDate: Option<string>)
}
