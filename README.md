# Assigned-task list: a Dafny model

This project models the "Tasks Assigned to Me" list of the task-management
front end (`ListAssignedTasks` in
`ghi/src/components/TaskLists/ListAssignedTasks.jsx`). The component keeps
two pieces of state: `tasksToList` (starts as `[]`) and `searchInput`
(starts as `''`).

- When query data arrives, an effect overwrites `tasksToList` with the first
  five tasks (limited mode) or with all of them.
- When data is absent, the effect leaves `tasksToList` as it was.
- Typing in the search box stores the lower-cased text as `searchInput`.
- Each render maps over `tasksToList`. It shows every row when the term is
  empty. Otherwise it shows a row when the lower-cased title contains the term
  or, failing that, the lower-cased status does. All other rows are dropped.

Files:

- `wrappers.dfy`: `Option`, which models the query hook's `data` that may be
  undefined.
- `text.dfy` (module `Text`): ASCII `toLowerCase` (`Lower`) and `includes`
  (`Contains`). `Contains` is proved equal to "there is a position where the
  needle occurs".
- `task_filter.dfy` (module `TaskFilter`): the `Task` record, the limited or
  full derivation (`Derive`), the per-row predicate (`Visible`) and the
  rendered-row filter (`Render`). Lemmas show that `Render` is an
  order-preserving filter that keeps exactly the visible tasks.
- `list_assigned_tasks.dfy` (module `AssignedTaskList`): the component as a
  class. It has the two state fields, the effect (`OnData`), the change
  handler (`OnSearchInput`) and what a render shows (`Rendered`, `View`).
  `showControls` is passed to each render (`View`), as props are. The props'
  defaults are parameter defaults: an omitted `showControls` is `true`, and an
  omitted `isLimited` is `undefined`, which is falsy, so `OnData` keeps the
  full list. The
  invariant `Valid()` says the term is always lower case, and is still empty
  while nothing has been typed into the search box.

Two facts about the code shape the model:

- The code has no error branch for a failed query. It reads only `data` and
  `isLoading`, so the model has no failure state.
- An effect run with no data keeps the previous list. It does not clear it.

## Model

| member | source | states |
|---|---|---|
| `Text.LowerChar` | ghi/src/components/TaskLists/ListAssignedTasks.jsx:18 | one character lower-cased is never an upper-case ASCII letter; an upper-case letter moves to its lower-case partner, any other character is kept |
| `Text.Lower` | ghi/src/components/TaskLists/ListAssignedTasks.jsx:18 | lower-casing keeps the length, lower-cases each character where it stands (an upper-case letter becomes its lower-case partner, anything else is kept), and yields a string with no upper-case ASCII letter |
| `AssignedTaskList.StoredTermIsLower` | ghi/src/components/TaskLists/ListAssignedTasks.jsx:18-19 | in every valid state the stored term is a fixed point of lower-casing, not only right after the change handler |
| `Text.LowerOfLower` | ghi/src/components/TaskLists/ListAssignedTasks.jsx:18 | a string that is already lower case is unchanged by lower-casing |
| `Text.LowerIdempotent` | ghi/src/components/TaskLists/ListAssignedTasks.jsx:18-19 | lower-casing twice equals lower-casing once, so the stored term is a fixed point |
| `Text.Contains` | ghi/src/components/TaskLists/ListAssignedTasks.jsx:54 | `includes` holds exactly when the needle occurs at some position of the haystack (the empty needle occurs everywhere) |
| `Text.LowerKeepsContains` | ghi/src/components/TaskLists/ListAssignedTasks.jsx:54 | a field that contains the typed text verbatim still contains it after both are lower-cased |
| `TaskFilter.Derive` | ghi/src/components/TaskLists/ListAssignedTasks.jsx:13 | the kept list is a prefix of the query's tasks; in limited mode its length is min(5, n); otherwise it is all the tasks, unchanged |
| `TaskFilter.ExampleLimitEight` | ghi/src/components/TaskLists/ListAssignedTasks.jsx:13 | from eight tasks, limited mode keeps exactly the first five, in order |
| `TaskFilter.Visible` | ghi/src/components/TaskLists/ListAssignedTasks.jsx:50-71 | a row is visible iff its lower-cased title or lower-cased status contains the term; the explicit empty-term branch agrees with this |
| `TaskFilter.Render` | ghi/src/components/TaskLists/ListAssignedTasks.jsx:49-73 | never more rows are rendered than tasks are kept |
| `TaskFilter.RenderMembership` | ghi/src/components/TaskLists/ListAssignedTasks.jsx:49-73 | a task is rendered iff it is in the kept list and visible for the term |
| `TaskFilter.RenderAppend` | ghi/src/components/TaskLists/ListAssignedTasks.jsx:49-73 | rendering a concatenation renders each part in turn, so rows keep the list's order |
| `TaskFilter.RenderSingle` | ghi/src/components/TaskLists/ListAssignedTasks.jsx:49-73 | one task yields its row when visible and nothing (the dropped `undefined`) otherwise |
| `TaskFilter.RenderEmptyTerm` | ghi/src/components/TaskLists/ListAssignedTasks.jsx:50-51 | with the empty term every kept task is rendered, in order |
| `TaskFilter.VisibleIndicesOrdered` | ghi/src/components/TaskLists/ListAssignedTasks.jsx:49-73 | the visible positions are in range and strictly increasing |
| `TaskFilter.VisibleIndicesExact` | ghi/src/components/TaskLists/ListAssignedTasks.jsx:49-73 | the visible positions are exactly the positions of visible tasks |
| `TaskFilter.RenderPrefixSelects` | ghi/src/components/TaskLists/ListAssignedTasks.jsx:49-73 | for each prefix, the k-th rendered row is the task at the k-th visible position |
| `TaskFilter.RenderIsOrderedFilter` | ghi/src/components/TaskLists/ListAssignedTasks.jsx:49-73 | the rendered rows are the visible tasks at strictly increasing positions: an order-preserving filter with nothing added and nothing visible missed |
| `TaskFilter.ExampleAssignFieldMatches` | ghi/src/components/TaskLists/ListAssignedTasks.jsx:53-71 | for "assign", neither title "Write report" nor "Fix bug" matches; status "assigned" matches and "done" does not |
| `TaskFilter.ExampleSearchAssign` | ghi/src/components/TaskLists/ListAssignedTasks.jsx:53-71 | searching "assign" over ("Write report", "assigned") and ("Fix bug", "done") shows only the first |
| `AssignedTaskList.ListAssignedTasks.constructor` | ghi/src/components/TaskLists/ListAssignedTasks.jsx:6-9 | on mount the list is empty, the term is empty, nothing has been typed yet and the invariant holds |
| `AssignedTaskList.ListAssignedTasks.OnData` | ghi/src/components/TaskLists/ListAssignedTasks.jsx:11-15 | with data present the list becomes the derived subset (at most 5, a prefix, in limited mode); with data absent it is unchanged; the term is untouched |
| `AssignedTaskList.ListAssignedTasks.OnSearchInput` | ghi/src/components/TaskLists/ListAssignedTasks.jsx:17-20 | the term becomes the lower-cased input, so lower-casing it again is a no-op; the list is untouched; the term is kept even if a later render hides the box |
| `AssignedTaskList.ListAssignedTasks.Rendered` | ghi/src/components/TaskLists/ListAssignedTasks.jsx:49-73 | rendering only reads the state, yields at most as many rows as kept tasks, and with an empty term yields every kept task, so clearing the term restores all rows |
| `AssignedTaskList.ListAssignedTasks.View` | ghi/src/components/TaskLists/ListAssignedTasks.jsx:22-37 | the loading placeholder is shown exactly while loading; otherwise the table shows the search bar iff this render's `showControls`, and shows the rendered rows |
| `AssignedTaskList.NeverSearchedShowsAll` | ghi/src/components/TaskLists/ListAssignedTasks.jsx:9 | an instance never typed into (for one, one whose controls have been hidden on every render since mount) shows every kept task, whatever `showControls` is now |

## Left out

- Query fetching (`useListAssignedTasksQuery`) is network I/O. Its result is a parameter: `data` as an `Option` given to `OnData`, and `isLoading` given to `View`.
- When the effect runs is left to React. `OnData` is the body of one run; a caller invokes it whenever `data` or `isLimited` changes. Stale or out-of-order responses are not modelled.
- `Text.Lower`: only ASCII letters are mapped, not full Unicode `toLowerCase`.
- `Text.LowerKeepsContains`: holds for the ASCII `Lower` only. Unicode `toLowerCase` is context-sensitive (a final capital sigma becomes the final form ς, while a typed Σ becomes σ), so there a title can contain the typed text verbatim and still be hidden.
- Tasks carry only `id`, `title` and `status`. The assigner, due date and priority are only passed to the row component, and `AssignerTaskRow` is not part of this model.
- The table markup, headers, the "Search" button (it has no handler) and the CSS are presentation only.
- `api/queries/user_queries.py` (database queries), `ghi/src/main.jsx` (route table and startup checks) and `ghi/src/App.jsx` (layout shell) are not part of this model.
