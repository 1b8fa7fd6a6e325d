# To-do list state model

A Dafny model of the state machine inside the `TodoList` React component of a single-page to-do
list (`src/components/TodoList.tsx`). The component keeps an ordered list of tasks (numeric id,
text, completed flag, priority, category, optional due date), the form's fields, and the index of
the page of five tasks being shown. Its handlers add a task (rejecting blank text), toggle a task's
completion, delete a task, reorder tasks by drag and drop (`arrayMove` over `findIndex` results),
and change the page with the Previous/Next buttons.

Layout:

- `todos.dfy`, module `Todos`: the task record, ECMAScript `trim`, and the identifier predicates.
- `tasks.dfy`, module `Tasks`: the pure list transformations behind the handlers. These are the
  `map` of a toggle, the `filter` of a delete, and `findIndex` with dnd-kit's `arrayMove` for a
  drag. It also holds the completed count shown under the list.
- `paging.dfy`, module `Paging`: `ITEMS_PER_PAGE`, `totalPages`, the visible slice with
  `Array.prototype.slice` semantics, and the page index each handler moves to.
- `todo_list.dfy`, module `TodoListComponent`: class `TodoList`. Its fields are the component's
  state cells. Its methods are the handlers, each stating the complete new state. Its invariant
  `Valid()` says that ids are pairwise distinct and that the page index names an existing page.
  Every handler except `HandlePageChange` preserves `Valid()`; `AddTodo` needs a fresh id for
  that. `HandlePageChange` stores any page index it is given, and the Previous/Next buttons call it
  only within bounds, so `Previous` and `Next` preserve `Valid()`. By `ValidPageIsNonEmpty`, a valid
  page shows at least one task whenever the list is non-empty. Two client methods drive the
  handlers using only their contracts. `FirstTaskLifecycle` adds one task, toggles it and deletes
  it. `SixthTaskOpensSecondPage` (with its helper `AddSixTasks`) adds six tasks, sees the page
  move to the second page, then deletes the sixth task and sees the page move back.

Facts about the code that shape the model:

- `handlePageChange` (src/components/TodoList.tsx:330-334) stores its argument unclamped. The page
  stays valid only because the Previous/Next buttons are disabled at the ends.
- `handleDragEnd` (src/components/TodoList.tsx:319-328) only receives ids of rendered tasks, so the
  model requires both ids to be present.
- `findIndex` (src/components/TodoList.tsx:323-324) runs over the whole list, so the indices handed
  to `arrayMove` are whole-list indices. Only the current page's tasks are rendered as drag
  targets. `DragStaysOnPage` shows that, when ids are pairwise distinct, a drag between two tasks
  of the shown page moves nothing before or after that page and keeps the page's tasks, possibly
  reordered. With a repeated id, `findIndex` can pick a copy on another page, and then a task
  outside the shown page moves.
- The component declares its own record type with a numeric id
  (src/components/TodoList.tsx:17-24), and the model uses that one.

## Model

| member | source | states |
|---|---|---|
| `Todos.TrimStart` | src/components/TodoList.tsx:283 | result is the longest suffix not starting with whitespace; everything dropped is whitespace |
| `Todos.TrimEnd` | src/components/TodoList.tsx:283 | result is the longest prefix not ending with whitespace; everything dropped is whitespace |
| `Todos.AsciiWhitespace` | src/components/TodoList.tsx:283 | the characters `trim` strips (`IsWhitespace`): among ASCII exactly space and TAB to CR; none above U+FEFF |
| `Todos.Trim` | src/components/TodoList.tsx:286 | `trim()` returns a contiguous window of the input that neither starts nor ends with whitespace, and everything outside the window is whitespace |
| `Todos.TrimWindow` | src/components/TodoList.tsx:286 | trimming the start and then the end keeps a window that neither starts nor ends with whitespace, with only whitespace outside it |
| `Todos.TrimEmptyIffBlank` | src/components/TodoList.tsx:283 | `input.trim()` is empty (falsy) exactly when the input is all whitespace |
| `Todos.TrimIdempotent` | src/components/TodoList.tsx:286 | trimming the stored text again changes nothing |
| `Todos.AppendFreshKeepsDistinct` | src/components/TodoList.tsx:284-285 | appending a task whose id is fresh keeps ids pairwise distinct |
| `Tasks.NewTask` | src/components/TodoList.tsx:284-291 | the new task carries the given id, is not completed, takes the selected priority, category and date, and its text is the trimmed input, empty exactly when the input is blank |
| `Tasks.Toggle` | src/components/TodoList.tsx:300-306 | same length and order; id, text, priority, category and due date kept; `completed` differs exactly where the id matches |
| `Tasks.ToggleTwice` | src/components/TodoList.tsx:300-305 | toggling the same id twice restores the list |
| `Tasks.ToggleAbsent` | src/components/TodoList.tsx:302-304 | toggling an id no task has leaves the list unchanged |
| `Tasks.ToggleKeepsDistinct` | src/components/TodoList.tsx:302-304 | toggling keeps ids pairwise distinct |
| `Tasks.CountId` | src/components/TodoList.tsx:310 | number of tasks with an id; zero exactly when the id is absent |
| `Tasks.Removed` | src/components/TodoList.tsx:310 | the tasks a delete takes out: as many as carry the id, and every one of them carries it |
| `Tasks.Delete` | src/components/TodoList.tsx:308-310 | no task with the id is left; what is left plus `Removed` (the tasks carrying the id) is the original multiset; the rest keep their relative order (subsequence); length drops by the number removed |
| `Tasks.DeleteCounts` | src/components/TodoList.tsx:310 | pointwise: a task carrying the id occurs zero times after the delete, every other task as often as before |
| `Tasks.DeleteAbsent` | src/components/TodoList.tsx:310 | deleting an absent id leaves the list unchanged |
| `Tasks.DeleteIdempotent` | src/components/TodoList.tsx:310 | a second delete of the same id is a no-op |
| `Tasks.CountIdDistinct` | src/components/TodoList.tsx:310 | with distinct ids, at most one task has a given id |
| `Tasks.DeleteLength` | src/components/TodoList.tsx:310 | with distinct ids, a delete shortens the list by one if the id is present and by zero otherwise |
| `Tasks.DeleteKeepsDistinct` | src/components/TodoList.tsx:310 | deleting keeps ids pairwise distinct |
| `Tasks.FindIndex` | src/components/TodoList.tsx:323-324 | `findIndex` gives -1 exactly when the id is absent, else the first index holding the id |
| `Tasks.FindIndexDistinct` | src/components/TodoList.tsx:323-324 | with distinct ids, `findIndex` of a task's id is that task's index |
| `Tasks.ArrayMove` | src/components/TodoList.tsx:325 | same length and multiset; the element from `from` lands at `to`; removing it from both sides leaves the same sequence, so the others keep their relative order |
| `Tasks.ArrayMoveAt` | src/components/TodoList.tsx:325 | index by index, the moved sequence reads the original through `MoveSource` |
| `Tasks.ArrayMoveInverse` | src/components/TodoList.tsx:325 | moving from `to` back to `from` undoes a move |
| `Tasks.ArrayMoveSame` | src/components/TodoList.tsx:325 | moving an element onto its own index changes nothing |
| `Tasks.ArrayMoveWithin` | src/components/TodoList.tsx:325 | a move between two indices of one window leaves everything before and after the window in place and only permutes the window |
| `Tasks.ArrayMoveKeepsDistinct` | src/components/TodoList.tsx:325 | a move keeps ids pairwise distinct |
| `Tasks.Reorder` | src/components/TodoList.tsx:319-327 | the list handed to `setTodos` has the same length and multiset; the dragged task sits at the old index of `over.id`; all other tasks keep their relative order |
| `Tasks.ReorderSame` | src/components/TodoList.tsx:321 | a drop on the dragged task itself would leave the list unchanged |
| `Tasks.ReorderKeepsDistinct` | src/components/TodoList.tsx:322-326 | reordering keeps ids pairwise distinct |
| `Tasks.ReorderUndo` | src/components/TodoList.tsx:322-326 | with distinct ids, dragging the same task onto the task now at its old index restores the list |
| `Tasks.ReorderWithin` | src/components/TodoList.tsx:322-326 | with distinct ids and both ids inside a window of the list, the reorder leaves everything before and after the window in place and permutes the window |
| `Tasks.CompletedCount` | src/components/TodoList.tsx:381 | completed count is at most the length, and equals it exactly when every task is completed |
| `Tasks.ToggleCompletedCount` | src/components/TodoList.tsx:381 | with distinct ids, toggling a present task moves the completed count by exactly one, in the direction of the flip |
| `Paging.CeilPages` | src/components/TodoList.tsx:273 | `Math.ceil(n / 5)`: the fewest pages of five that hold `n` tasks |
| `Paging.TotalPages` | src/components/TodoList.tsx:273 | `totalPages` is at least 1, is 1 for an empty list, and is otherwise the r with 5(r-1) < n <= 5r |
| `Paging.JsSlice` | src/components/TodoList.tsx:276-279 | for bounds with 0 <= start <= end, `slice` returns the part between the two bounds clamped to the length |
| `Paging.CurrentTodos` | src/components/TodoList.tsx:276-279 | the visible slice of a non-negative page has at most 5 tasks, has length min(5, n - 5p) or 0, and its k-th task is task 5p+k |
| `Paging.PageWindow` | src/components/TodoList.tsx:276-279 | a page starting before the end of the list shows exactly the tasks at indices 5*page up to min(5*page+5, length) |
| `Paging.ValidPageIsNonEmpty` | src/components/TodoList.tsx:273-279 | on a non-empty list, a non-negative page index is below totalPages exactly when it shows a non-empty slice |
| `Paging.PagesUpToIsPrefix` | src/components/TodoList.tsx:276-279 | the first k pages read in order are the first min(5k, n) tasks |
| `Paging.PagesCoverList` | src/components/TodoList.tsx:273-279 | pages 0 to totalPages-1 read in order give back the whole list |
| `Paging.PageAfterAdd` | src/components/TodoList.tsx:296 | `ceil((n+1)/5) - 1` is the page holding index n, the new last task, and is valid for n+1 tasks |
| `Paging.PageAfterDelete` | src/components/TodoList.tsx:311-314 | page 0 (or below) never moves; a later page moves back by exactly one when the new length is at most 5*page, and otherwise stays |
| `Paging.AddedTaskVisible` | src/components/TodoList.tsx:295-296 | after an add, the page jumped to shows the new task as its last entry |
| `Paging.DeleteKeepsPageValid` | src/components/TodoList.tsx:311-314 | when a delete removes at most one task, the page step-back rule keeps a valid page valid |
| `Paging.DeleteOfManyCanStrandPage` | src/components/TodoList.tsx:310-313 | if one delete removed several tasks (duplicate ids), the step-back rule could leave the page past the end |
| `Paging.PreviousKeepsPageValid` | src/components/TodoList.tsx:46-47 | Previous, enabled unless on page 0, keeps a valid page valid |
| `Paging.NextKeepsPageValid` | src/components/TodoList.tsx:64-65 | Next, enabled unless on page totalPages-1, keeps a valid page valid |
| `TodoListComponent.TodoList.constructor` | src/components/TodoList.tsx:252-258 | initial state: no tasks, empty input, first category, low priority, no date, picker closed, page 0; invariant holds |
| `TodoListComponent.TodoList.SetInput` | src/components/TodoList.tsx:117 | the text field sets `input` and nothing else |
| `TodoListComponent.TodoList.SelectCategory` | src/components/TodoList.tsx:98-102 | the selector sets the category and nothing else |
| `TodoListComponent.TodoList.SelectPriority` | src/components/TodoList.tsx:104-108 | a priority button sets the priority and nothing else |
| `TodoListComponent.TodoList.SelectDate` | src/components/TodoList.tsx:180-185 | picking a date stores it and closes the picker |
| `TodoListComponent.TodoList.Visible` | src/components/TodoList.tsx:276-279 | the rendered tasks (`currentTodos`): for a non-negative page, at most five, and a contiguous run of the list starting at index 5*currentPage |
| `TodoListComponent.TodoList.AddTodo` | src/components/TodoList.tsx:281-298 | blank input changes no state. Otherwise it appends one task (trimmed text, not completed, the selected priority, category and date) and keeps earlier tasks. It clears input and date, closes the picker, and jumps to the page that shows the new task. The invariant is kept when the id is fresh |
| `TodoListComponent.TodoList.AppendTask` | src/components/TodoList.tsx:284-296 | the task is appended, the form is cleared with category and priority kept, the page jumps to the one holding the new task, which is the last one shown; with a fresh id the invariant is kept |
| `TodoListComponent.TodoList.ToggleTodo` | src/components/TodoList.tsx:300-306 | the list becomes `Toggle` of the old list; other cells unchanged; invariant kept |
| `TodoListComponent.TodoList.DeleteTodo` | src/components/TodoList.tsx:308-317 | the list becomes `Delete` of the old list and the page becomes `PageAfterDelete(new length, old page)`; other cells unchanged; invariant kept |
| `TodoListComponent.TodoList.HandleDragEnd` | src/components/TodoList.tsx:319-328 | with equal ids nothing changes; otherwise the list becomes `Reorder` of the old list. Page and form unchanged; invariant kept. When ids are pairwise distinct and both ids are among the shown tasks of a non-negative page, nothing before or after the page moves and the shown tasks are permuted |
| `TodoListComponent.TodoList.HandlePageChange` | src/components/TodoList.tsx:330-334 | sets the page to the argument unclamped; nothing else changes |
| `TodoListComponent.TodoList.Previous` | src/components/TodoList.tsx:46-47 | page decreases by one; list, text, date, picker, category and priority unchanged; invariant kept |
| `TodoListComponent.TodoList.Next` | src/components/TodoList.tsx:64-65 | page increases by one; list, text, date, picker, category and priority unchanged; invariant kept |
| `TodoListComponent.DeleteKeepsValid` | src/components/TodoList.tsx:308-317 | with distinct ids and a valid page, delete plus the page step keep ids distinct and the page valid |
| `TodoListComponent.DragStaysOnPage` | src/components/TodoList.tsx:319-328 | with pairwise distinct ids and a non-negative page, dragging one shown task onto another leaves every task before and after the shown page in place and the shown page holds the same tasks, possibly reordered |

## Left out

- `src/components/SortableItem.tsx`, `src/app/page.tsx` and `src/types/todo.ts` are not part of this model. They render tasks, lay out the page, or declare a second, conflicting record type; none has state transitions of its own.
- Rendering is not modelled. This covers the form, empty-state and stats markup, framer-motion animation, icons, CSS classes and the `useTransition` pending hint. The completed count under the list is kept as `Tasks.CompletedCount`.
- The date picker's open/closed toggle (src/components/TodoList.tsx:170) is not modelled. `showDatePicker` is kept as a field because `AddTodo` and `SelectDate` close the picker.
- dnd-kit sensors and `closestCenter` collision detection are library scheduling. The model starts from the `active`/`over` ids the library hands to `handleDragEnd`.
- `Date.now()` is a clock read, so `AddTodo` takes the id as a parameter. The due date is an opaque `Date` value, and its `dd/MM/yyyy` formatting is not modelled.
- TodoListComponent.TodoList.HandleDragEnd: requires both ids to be present, so a `null` `over` and a `findIndex` of -1 fed to `arrayMove` are not modelled. Drag ids always come from rendered tasks.
- Tasks.Reorder: requires both ids to be present, for the same reason.
- TodoListComponent.TodoList.Previous: requires a non-empty list, because the buttons render only then (src/components/TodoList.tsx:377-387).
- TodoListComponent.TodoList.Next: requires a non-empty list, because the buttons render only then (src/components/TodoList.tsx:377-387).
- React batches state updates. The model applies each handler's `set…` calls in order to the current state. The closures that read `todos.length` (line 296) and `currentPage` (line 312) are taken to see that state, as they do when one event is handled at a time.
- JavaScript numbers are floating point. The page arithmetic is modelled with unbounded integers, which is exact below 2^53.
- JavaScript strings are UTF-16 code units; the model uses Unicode scalar values. `trim` is unaffected, since every character it removes lies in the Basic Multilingual Plane.
- The module-level `handleDragEnd` stub (line 247) and the unused `onEdit` property (line 239) are not modelled. No behaviour is wired to either.
