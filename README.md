# Task Manager page: the task-list store

A Dafny model of the logic inside the single page component `app/page.tsx` of a
Next.js task manager. The page keeps three pieces of state: the task list, the text
of the "new task" input box and the All / Active / Completed selector. It changes
them with three handlers: add, toggle completion and delete. It derives a filtered
view, the completed and total counts, a rounded progress percentage and a badge
style per priority. Everything else in the file is markup.

Layout:

- `js_array.dfy` (module `JsArray`): `Array.prototype.filter` and `map` on
  sequences, with the facts the page relies on. Filtering keeps order (a
  subsequence), keeps every copy of a kept element, is idempotent, and splits a
  list under complementary predicates.
- `js_string.dfy` (module `JsString`): `String.prototype.trim` over ECMAScript's
  whitespace and line-terminator characters, characterised by what it cuts and
  what it keeps.
- `tasks.dfy` (module `Tasks`): the `Task` record, the three seed tasks, and the
  pure functions behind each handler and each derived value (`Added`, `Toggled`,
  `Deleted`, `Visible`, `CompletedCount`, `Percent`/`Progress`,
  `PriorityColor`). The lemmas about them live here too.
- `page.dfy` (module `Page`): class `TaskManagementApp`. Its fields are `tasks`,
  `newTaskTitle` and `filter`. Its methods are the handlers, each of which
  replaces the fields as the page's `set...` calls do. Its `reads` functions are
  the derived views. Two client methods replay short sessions on a fresh page.

The clock is a parameter. `Date.now().toString()` becomes the `freshId` argument of
`AddTask`, and the ISO date becomes `today`. The code does not make ids unique:
two submissions in the same millisecond give two tasks one id
(`Tasks.SameMillisecondDuplicatesId`). So uniqueness is proved only as preserved,
when the list had unique ids and the supplied id is not in use.

The progress figure `Math.round(c / t * 100)` (with 0 for an empty list) is
modelled in integers as `(200 * c + t) / (2 * t)`. This rounds the exact ratio half
up, which is what `Math.round` does for non-negative arguments. The page computes
in floating point, which differs at some exact halves (see "## Left out").

Two facts about the code that a reader might not expect:

- Ids are not unique by construction. Nothing checks a new id against the list.
- Delete removes every task with the given id, duplicates included, because it
  filters the whole list.

## Model

| member | source | states |
|---|---|---|
| JsArray.Filter | app/page.tsx:75-79 | an element is in the result exactly when it is in the input and the predicate holds; never longer than the input |
| JsArray.Map | app/page.tsx:68 | same length; each position holds the function applied to the input at that position |
| JsArray.FilterIsSubsequence | app/page.tsx:75-79 | a filter result is an order-preserving subsequence of its input |
| JsArray.FilterCount | app/page.tsx:72 | every copy of a kept element survives and no copy of a dropped one does |
| JsArray.FilterKeepAll | app/page.tsx:78 | a predicate that is always true returns the input unchanged |
| JsArray.FilterKeepsLength | app/page.tsx:81 | the result has the input's length exactly when every element passes |
| JsArray.FilterIdempotent | app/page.tsx:72 | filtering twice with one predicate equals filtering once |
| JsArray.FilterAgree | app/page.tsx:77 | predicates that agree on the input select the same result |
| JsArray.FilterPartition | app/page.tsx:76-77 | when exactly one of two predicates holds on each element, the two result lengths add up to the input length |
| JsArray.MapIdentity | app/page.tsx:68 | a map that fixes every element returns the input |
| JsString.IsWhitespace | app/page.tsx:54 | the characters `trim()` strips; among ASCII characters exactly space, tab, LF, VT, FF and CR; the zero-width space is not one |
| JsString.TrimStart | app/page.tsx:54 | the result is a suffix; everything cut is whitespace; it starts with a non-whitespace character or is empty |
| JsString.TrimEnd | app/page.tsx:54 | the result is a prefix; everything cut is whitespace; it ends with a non-whitespace character or is empty |
| JsString.Trim | app/page.tsx:54 | a contiguous piece of the input with only whitespace cut on either side and no whitespace at either end; empty exactly when the input is all whitespace, i.e. when `trim()` is falsy |
| JsString.TrimStartExact | app/page.tsx:57 | TrimStart removes exactly a whitespace prefix in front of a non-whitespace start |
| JsString.TrimEndExact | app/page.tsx:57 | TrimEnd removes exactly a whitespace suffix behind a non-whitespace end |
| JsString.TrimPadded | app/page.tsx:57 | whitespace put around a trimmed string is removed again, and nothing more |
| JsString.TrimTrimmed | app/page.tsx:57 | a string without surrounding whitespace is its own trim |
| JsString.TrimIdempotent | app/page.tsx:57 | trimming twice equals trimming once |
| Tasks.Seed | app/page.tsx:22-48 | three tasks with distinct ids and non-empty titles without surrounding whitespace |
| Tasks.Added | app/page.tsx:53-64 | a blank title leaves the list alone; otherwise the list grows by one and the old list follows unchanged; the new front task has the given id and date, the trimmed non-empty title, `completed` false, medium priority, and no description or due date |
| Tasks.AddedKeepsUniqueIds | app/page.tsx:55-62 | with unique ids and an unused id, ids stay unique after adding |
| Tasks.SameMillisecondDuplicatesId | app/page.tsx:56 | two submissions that read the same clock value leave two tasks with one id |
| Tasks.Toggled | app/page.tsx:67-69 | same length and order; `completed` flips exactly on the tasks with the id; no other field of any task changes |
| Tasks.ToggledTwice | app/page.tsx:68 | toggling one id twice restores the list |
| Tasks.ToggledAbsent | app/page.tsx:68 | toggling an id no task has changes nothing |
| Tasks.ToggledKeepsIds | app/page.tsx:68 | toggling keeps the id sequence, hence keeps ids unique |
| Tasks.ToggledCount | app/page.tsx:68 | with unique ids, toggling one task moves the completed count down by one if it was done, up by one if not |
| Tasks.Deleted | app/page.tsx:71-73 | the tasks kept are exactly those whose id differs from the given id |
| Tasks.DeletedSpec | app/page.tsx:72 | the result is an order-preserving subsequence that keeps every copy of the other tasks; no task with the id remains |
| Tasks.DeletedAbsent | app/page.tsx:72 | deleting an id no task has changes nothing |
| Tasks.DeletedThenAgain | app/page.tsx:68-72 | deleting again is a no-op, and so is toggling a deleted id |
| Tasks.DeletedKeepsUniqueIds | app/page.tsx:72 | deleting keeps ids unique |
| Tasks.HandlersKeepTitlesTrimmed | app/page.tsx:53-73 | if every title is non-empty and trimmed, it stays so after add, toggle and delete |
| Tasks.Visible | app/page.tsx:75-79 | a task is shown exactly when it is in the list and the selector admits it (Active: not done, Completed: done, All: any) |
| Tasks.VisibleSpec | app/page.tsx:75-79 | every view is an order-preserving subsequence that keeps every copy of what it shows; All is the list itself |
| Tasks.VisiblePartition | app/page.tsx:75-82 | the sizes of the Active and Completed views add up to the total count |
| Tasks.VisibleCons | app/page.tsx:75-79 | the view of a list with a head is the head, if shown, followed by the view of the rest |
| Tasks.CompletedCount | app/page.tsx:81-82 | the count equals the size of the Completed view and is at most the list length |
| Tasks.CompletedCountCons | app/page.tsx:81 | a completed head adds one to the count and any other head adds nothing |
| Tasks.CompletedCountExtremes | app/page.tsx:81 | the count is 0 exactly when nothing is done, and it equals the length exactly when everything is done |
| Tasks.Percent | app/page.tsx:163 | 0 when the total is 0; otherwise the whole number nearest to 100·c/t, with halves rounded up |
| Tasks.Progress | app/page.tsx:163 | the page's percentage never exceeds 100 |
| Tasks.PercentAtMost100 | app/page.tsx:163 | a share of at most the whole rounds to at most 100 |
| Tasks.PercentNone | app/page.tsx:163 | nothing done is 0 percent |
| Tasks.PercentAll | app/page.tsx:163 | everything done is 100 percent |
| Tasks.PercentMonotone | app/page.tsx:163 | more tasks done never lowers the percentage |
| Tasks.ProgressExtremes | app/page.tsx:163 | 0 for an empty list or when nothing is done; 100 when every task of a non-empty list is done |
| Tasks.PriorityColor | app/page.tsx:84-95 | "high" gives the destructive style and "medium" the primary style; "low" and every other string give the muted style |
| Tasks.PriorityColorDistinguishes | app/page.tsx:84-95 | the three priorities get three different badge styles |
| Tasks.SeedUniqueIds | app/page.tsx:22-48 | the seed ids are "1", "2", "3", so they are unique |
| Tasks.SeedViews | app/page.tsx:22-48 | on the seed list Active shows tasks 1 and 3, Completed shows task 2, and All shows all three, in order |
| Tasks.SeedProgress | app/page.tsx:81-82 | one of the three seed tasks is done, which shows as 33% |
| Page.TaskManagementApp.constructor | app/page.tsx:22-51 | a new page holds the seed list, an empty input box and the All view |
| Page.TaskManagementApp.CanAdd | app/page.tsx:150 | the Add button is enabled exactly when the box holds a non-whitespace character |
| Page.TaskManagementApp.SetNewTaskTitle | app/page.tsx:146 | typing replaces the box's text and nothing else |
| Page.TaskManagementApp.AddTask | app/page.tsx:53-65 | the list becomes `Added` of the old list and box text; the box is cleared exactly when the add happens; the filter is unchanged; ids stay unique if the id is unused |
| Page.TaskManagementApp.ToggleTask | app/page.tsx:67-69 | the list becomes `Toggled`; the other fields are unchanged; ids stay unique |
| Page.TaskManagementApp.DeleteTask | app/page.tsx:71-73 | the list becomes `Deleted`; the other fields are unchanged; ids stay unique |
| Page.TaskManagementApp.SetFilter | app/page.tsx:110-124 | a selector button sets the filter and nothing else |
| Page.TaskManagementApp.FilteredTasks | app/page.tsx:75-79 | an order-preserving subsequence of the list holding exactly the tasks the current view shows; All shows the whole list |
| Page.TaskManagementApp.TotalCount | app/page.tsx:82 | the size of the All view, and the sizes of the Active and Completed views added together |
| Page.TaskManagementApp.CompletedCount | app/page.tsx:81-82 | the size of the Completed view; at most the total; together with the Active view's size it makes the total |
| Page.TaskManagementApp.ProgressPercent | app/page.tsx:163 | between 0 and 100; 0 for an empty list; otherwise the percentage of completed tasks, rounded half up from the exact ratio (see "## Left out" for the floating-point difference) |

## Left out

- Rendering: all markup, styling, icons and layout (app/page.tsx:97-248), including the empty-list messages.
- The UI widgets `Button`, `Card`, `Input`, `Badge` and the `cn` helper. They are not part of this model.
- Reading the clock: `Date.now()` and `new Date().toISOString().split("T")[0]` are the `freshId` and `today` parameters of `AddTask`.
- The progress bar's CSS width (app/page.tsx:170). It is an unrounded floating-point value inside a string.
- Event wiring (clicks, the Enter key) and React's state scheduling (batched updates, stale closures). Each handler is modelled as one atomic update of the fields it sets.
- Tasks.Percent: rounds the exact ratio `100 * c / t` half up; the page rounds the double `(c / t) * 100`. Where the exact value ends in `.5` the double can land just below it and round down. For 23 of 40 tasks the page computes 57.49999999999999 and shows 57; the model gives 58. The same happens for 29 of 200 (page 14, model 15). Only exact halves can differ, and only downward. The bound of 0 to 100, the value 0 when nothing is done, the value 100 when everything is done, and monotonicity in the completed count hold for the double computation as well: correctly rounded division and multiplication and `Math.round` are all monotone, and give exactly 0 and 100 at the ends.
- Page.TaskManagementApp.ProgressPercent: its rounding clause is that of Tasks.Percent and differs from the page in the same cases (23 of 40 tasks: page 57, model 58). Its bound of 0 to 100 and its value 0 for an empty list hold for the page's double computation too.
- JsString.IsWhitespace: lists the Unicode space separators (category Zs) of current Unicode versions. A JavaScript engine built on a different Unicode version could differ.
