# Simple-Todo: the task list and the task input, in Dafny

Simple-Todo is a React Native to-do app. Its home screen keeps a list of tasks in memory,
mirrored in a local SQLite table. Each task has an id, a text, a completion flag and a creation
date. The screen adds, toggles, edits and deletes tasks and filters them by completion status
("all", "completed", "pending"). A small input component below the list takes the text of a
new task and refuses blank input.

This project models that logic:

- `wrappers.dfy` — `Option`, standing in for JavaScript's `null`.
- `tasklist.dfy` (module `TaskList`) — the list operations as pure functions. `Where` and
  `MapTasks` are `Array.prototype.filter` and `map`. `Filtered` (getFilteredTasks), `Deleted`,
  `Toggled` and `Edited` are those two applied with the source's callbacks. `TasksForDay` is the
  day-bucket views, with the calendar test passed in as a parameter. The lemmas state what each
  operation does, relate operations to each other (toggle twice, edit twice, add then delete,
  filter twice), and show that each operation keeps ids unique.
- `homescreen.dfy` (module `HomeScreen`) — class `Screen` with the `tasks` and `filter` states.
  There is one method per handler, one for the load effect and one for the filter effect. Each
  method's `ensures` gives the new `tasks` in terms of the old one. Toggle, delete, edit and the
  filter effect apply one of the functions above. Load replaces the list, and add appends to it.
- `taskinput.dfy` (module `TaskInput`) — JavaScript's `trim` over the ECMAScript whitespace set.
  It also has class `Field`, holding the input's `task` state, with `OnChangeText` and `OnPress`.

The filter effect (`HomeScreen.tsx` line 34) is modelled as written. It *replaces* the list
with its filtered version, so tasks that do not pass are gone from the state.
`TaskList.FilteredTwice` spells out the consequence. Switch to "completed", then straight to
"pending" with no add or toggle in between, and the list is empty. Switching back to "all"
restores nothing. A handler that runs between the two switches can put tasks back in the
list: adding a pending task, or toggling a completed one. The effect runs only when
`filter` actually changes. In this revision, `setFilter` is called only from commented-out code,
so in practice `filter` stays "pending".

## Model

| member | source | states |
|---|---|---|
| TaskList.WhereSubsequence | app/src/screens/HomeScreen.tsx:49 | `filter` returns a subsequence of its input: it drops elements and keeps the order of the rest |
| TaskList.WhereCount | app/src/screens/HomeScreen.tsx:49 | `filter` keeps each element that passes the callback exactly as often as it occurs, and no element that fails |
| TaskList.WhereSpec | app/src/screens/HomeScreen.tsx:60-62 | `filter` result: ordered subsequence, multiplicities kept for passing elements, and membership iff in the input and passing |
| TaskList.WhereAllPass | app/src/screens/HomeScreen.tsx:60-62 | when every element passes the callback, `filter` returns its input unchanged |
| TaskList.WhereAppend | app/src/screens/HomeScreen.tsx:49 | `filter` distributes over concatenation |
| TaskList.MapTasksAt | app/src/screens/HomeScreen.tsx:44 | `map` keeps the length and puts the callback's result for element i at index i |
| TaskList.FilteredSpec | app/src/screens/HomeScreen.tsx:59-62 | getFilteredTasks returns the ordered subsequence of exactly the tasks that pass the filter, each as often as it occurs |
| TaskList.FilteredAll | app/src/screens/HomeScreen.tsx:61 | filtering with "all" returns the list unchanged |
| TaskList.FilteredPartition | app/src/screens/HomeScreen.tsx:59-62 | the "completed" and "pending" results split the list: lengths add up to its length, multisets to its multiset |
| TaskList.FilteredTwice | app/src/screens/HomeScreen.tsx:33-35 | filtering by f then g gives the list filtered by the narrower filter, or the empty list when f and g are "completed" and "pending" |
| TaskList.FilteredIdempotent | app/src/screens/HomeScreen.tsx:34 | filtering an already filtered list with the same filter changes nothing |
| TaskList.ToggledAt | app/src/screens/HomeScreen.tsx:44 | toggle keeps length and every task with another id; a matching task keeps id, text and date and gets its completion negated |
| TaskList.ToggledTwice | app/src/screens/HomeScreen.tsx:44 | toggling the same id twice restores the original list |
| TaskList.EditedAt | app/src/screens/HomeScreen.tsx:55 | edit keeps length and every task with another id; a matching task keeps id, completion and date and gets the new text |
| TaskList.EditedTwice | app/src/screens/HomeScreen.tsx:55 | editing the same id twice leaves the second text: the last edit wins |
| TaskList.UpdatesOfAbsentId | app/src/screens/HomeScreen.tsx:44-55 | toggle and edit of an id no task has leave the list unchanged |
| TaskList.DeletedSpec | app/src/screens/HomeScreen.tsx:49 | delete leaves exactly the tasks with another id, in order, with their multiplicities; no task with the id remains; absent id is a no-op |
| TaskList.DeletedOne | app/src/screens/HomeScreen.tsx:49 | with unique ids, deleting a present id shortens the list by exactly one |
| TaskList.AddThenDelete | app/src/screens/HomeScreen.tsx:39-49 | appending a task with a fresh id and then deleting that id restores the list |
| TaskList.SubsequenceReflexive | app/src/screens/HomeScreen.tsx:34 | a list is a subsequence of itself (the filter effect when the filter does not change) |
| TaskList.SubsequenceMember | app/src/screens/HomeScreen.tsx:49 | every element of a subsequence is an element of the list it was taken from |
| TaskList.SubsequenceUniqueIds | app/src/screens/HomeScreen.tsx:49 | a subsequence of a list with unique ids has unique ids |
| TaskList.ToggledKeepsUniqueIds | app/src/screens/HomeScreen.tsx:44 | toggle keeps ids unique |
| TaskList.EditedKeepsUniqueIds | app/src/screens/HomeScreen.tsx:55 | edit keeps ids unique |
| TaskList.DeletedKeepsUniqueIds | app/src/screens/HomeScreen.tsx:49 | delete keeps ids unique |
| TaskList.FilteredKeepsUniqueIds | app/src/screens/HomeScreen.tsx:59-62 | the completion filter keeps ids unique |
| TaskList.AppendKeepsUniqueIds | app/src/screens/HomeScreen.tsx:39 | appending a task to a list with unique ids keeps them unique exactly when the new id is fresh |
| TaskList.TasksForDaySpec | app/src/screens/HomeScreen.tsx:65-80 | a day bucket is the ordered subsequence of the filtered list, holding exactly the tasks that pass the filter and whose date passes the day test, each as often as it occurs |
| HomeScreen.Screen.constructor | app/src/screens/HomeScreen.tsx:12-16 | the screen starts with no tasks and the "pending" filter |
| HomeScreen.Screen.LoadTasks | app/src/screens/HomeScreen.tsx:24-31 | the loaded tasks replace the list |
| HomeScreen.Screen.SetFilter | app/src/screens/HomeScreen.tsx:33-35 | a changed filter replaces the list with its filtered version: a subsequence holding exactly the old tasks that pass; an unchanged filter leaves it; ids stay unique |
| HomeScreen.Screen.HandleAddTask | app/src/screens/HomeScreen.tsx:37-40 | a returned task is appended (length +1, prefix unchanged), null changes nothing; ids stay unique iff the new id is fresh; deleting a fresh new id restores the old list |
| HomeScreen.Screen.HandleToggleTask | app/src/screens/HomeScreen.tsx:42-45 | tasks with the id get their completion negated, independent of the `completed` argument; all else unchanged; ids stay unique |
| HomeScreen.Screen.HandleDeleteTask | app/src/screens/HomeScreen.tsx:47-50 | exactly the tasks with another id remain, in order; none with the id; absent id is a no-op; with unique ids a present id removes one |
| HomeScreen.Screen.HandleEditTask | app/src/screens/HomeScreen.tsx:52-57 | no selected task: unchanged; otherwise only the text of tasks with the selected id changes, to the edit text; ids stay unique |
| TaskInput.TrimStartSpec | app/src/components/TaskInput.tsx:20 | removing leading whitespace drops a blank prefix and stops at a non-whitespace character |
| TaskInput.TrimEndSpec | app/src/components/TaskInput.tsx:20 | removing trailing whitespace drops a blank suffix and stops at a non-whitespace character |
| TaskInput.TrimSpec | app/src/components/TaskInput.tsx:20 | `trim` returns the slice of the text between a blank prefix and a blank suffix, neither starting nor ending with whitespace |
| TaskInput.TrimEmptyIffBlank | app/src/components/TaskInput.tsx:20 | the trimmed text is empty exactly when every character is whitespace |
| TaskInput.TrimIdempotent | app/src/components/TaskInput.tsx:20 | trimming a trimmed text changes nothing |
| TaskInput.Field.constructor | app/src/components/TaskInput.tsx:10 | the field starts as the empty string |
| TaskInput.Field.OnChangeText | app/src/components/TaskInput.tsx:17-18 | the field becomes exactly the typed string, whatever it held before |
| TaskInput.Field.OnPress | app/src/components/TaskInput.tsx:20 | a blank field: `onAdd` not called, field unchanged; otherwise `onAdd` called once with the untrimmed text and the field cleared |
| TaskInput.TypeAndPressTwice | app/src/components/TaskInput.tsx:17-20 | after typing, the first press hands on the text iff it is not blank, and an immediate second press never calls `onAdd` |

## Left out

- The database module `app/src/database/db.tsx` is not part of this model. Each awaited call
  (`initDatabase`, `getTasks`, `addTask`, `updateTask`, `toggleTask`, `deleteTask`) is taken to
  succeed. What `getTasks` and `addTask` return becomes a parameter of `LoadTasks` and
  `HandleAddTask`. `null` from `addTask` becomes `None`.
- The model's `Task` has a boolean `completed` and a string `date`. In the app, `completed`
  is a number: the INTEGER column 0/1 in rows from `getTasks` (db.tsx:8,13), and `completed: 0`
  in the object `addTask` builds. `addTask` also names the date field `datetime`, not `date`.
  `!task.completed` at HomeScreen.tsx:44 turns a number into a boolean. So
  `TaskList.ToggledTwice` ("restores the original list") holds only up to JavaScript
  truthiness: a `1` becomes `false`, then `true`.
- `getTasksForToday` and `getTasksForYesterday` compare dates with `new Date()`, the local time
  zone and `toDateString`. That calendar test is the parameter `onDay` of
  `TaskList.TasksForDay`. Only the filtering around it is modelled.
- `editTask` and `editText` are states set by the `onEdit` callback (line 88). The dialog that
  would change `editText` is not in this revision's render. `handleEditTask` itself has no
  caller in the render either. `HandleEditTask` takes the two values as parameters.
- Dialog visibility (`visible`, `setVisible`), tab routing (`TabView`, `SceneMap`, `index`),
  `FlatList` rendering, styles and fonts are presentation. So are `TaskItem.tsx` and the
  commented-out blocks at HomeScreen.tsx:121-160.
- Async scheduling of React state updates is not modelled. Each handler is one atomic step over
  the current state. This leaves out the stale `tasks` closures the handlers capture, and the
  order between the load effect and the first run of the filter effect.
- JavaScript strings are UTF-16 code units. The model's `string` is Unicode scalar values.
  Every character `trim` removes is in the Basic Multilingual Plane, so the guard is the same.
