# Priority task board: the task-store reducer

This project models the state logic of the single React component `App` of a
priority task manager. The component keeps two state cells:

- `tasks` is a table from each of four fixed category names (`MUST DO`,
  `SHOULD DO`, `COULD DO`, `IF I HAVE TIME`) to an ordered sequence of task
  records `{id, text, completed}`.
- `newTask` is the draft the input form is bound to: `{text, category}`.

Three handlers replace those cells copy-on-write:

- `addTask` ignores a draft whose text trims to nothing. Otherwise it appends
  a new, uncompleted task to the draft's category and clears the draft text.
- `toggleTask(category, id)` flips `completed` on the tasks of that category
  that carry the id.
- `deleteTask(category, id)` filters those tasks out of that category.

Files:

- `js_string.dfy` (module `JsString`) models JavaScript's `String.prototype.trim`.
  It uses the WhiteSpace and LineTerminator code points of ECMA-262, and
  `IsBlank` models the guard `!text.trim()`.
- `task_store.dfy` (module `TaskStore`) holds the records, the store, the
  transitions as pure functions, and the lemmas about them. Those lemmas cover
  toggling twice, deleting twice, order preservation, removal counts, id
  uniqueness and non-blank texts.
- `app.dfy` (module `TaskBoard`) holds the imperative parts. `InitialTasks` is
  the loop that builds the initial store. The class `App` has the two state
  cells as fields, and its handlers replace those fields with the reducer's
  results while keeping the class invariant.

The clock value `Date.now()` that `addTask` uses as the new id is a
parameter `id` of the add operations. Id uniqueness is therefore proved under
the precondition that the supplied id is not yet in use.

## Model

| member | source | states |
|---|---|---|
| `JsString.TrimStart` | src/App.jsx:30 | the result is the suffix of the text left after its leading white space, and it does not itself start with white space |
| `JsString.TrimEnd` | src/App.jsx:30 | the result is the prefix of the text left before its trailing white space, and it does not itself end with white space |
| `JsString.Trim` | src/App.jsx:30 | the trimmed text is a slice of the input with only white space before and after it, and it neither starts nor ends with white space |
| `JsString.BlankIffAllWhitespace` | src/App.jsx:30 | the add guard `!text.trim()` fires exactly when every character of the text is white space, including the empty text |
| `TaskStore.CountId` | src/App.jsx:62 | the number of tasks carrying an id is at most the length, and is zero exactly when no task carries it |
| `TaskStore.ToggleMatching` | src/App.jsx:52-54 | the mapped sequence has the same length; at every position the id and text are kept, and `completed` is flipped exactly where the id matches |
| `TaskStore.RemoveMatching` | src/App.jsx:62 | the filtered sequence is shorter than the original by the number of tasks carrying the id |
| `TaskStore.RemoveMatchingMembers` | src/App.jsx:62 | a task is in the filtered sequence exactly when it is in the original and its id differs |
| `TaskStore.AddTask` | src/App.jsx:29-46 | a blank draft leaves store and draft unchanged; otherwise the key set is kept, the draft's category grows by one task at the end with the draft text as entered and `completed = false`, its earlier tasks and every other category are unchanged, and the draft text becomes empty with its category kept |
| `TaskStore.ToggleTask` | src/App.jsx:49-56 | the key set and every other category are unchanged; the category keeps its length, ids and texts, and `completed` flips exactly on the tasks carrying the id |
| `TaskStore.DeleteTask` | src/App.jsx:59-64 | the key set and every other category are unchanged; the category keeps exactly its tasks whose id differs, and its length drops by the number of tasks carrying the id |
| `TaskStore.ToggleMatchingTwice` | src/App.jsx:52-54 | mapping the toggle twice over a sequence gives back that sequence |
| `TaskStore.ToggleTaskTwice` | src/App.jsx:49-56 | toggling the same category and id twice gives back the original store |
| `TaskStore.ToggleTaskAbsent` | src/App.jsx:52-53 | toggling an id that no task of the category carries leaves the store unchanged |
| `TaskStore.RemoveMatchingIsSubsequence` | src/App.jsx:62 | the filtered sequence is a subsequence of the original, so survivors keep their relative order |
| `TaskStore.RemoveMatchingAppend` | src/App.jsx:62 | filtering a concatenation is concatenating the filtered parts, so the survivors of earlier tasks come before those of later ones |
| `TaskStore.RemoveMatchingAbsent` | src/App.jsx:62 | filtering out an id that no task carries returns the sequence unchanged |
| `TaskStore.DeleteTaskIdempotent` | src/App.jsx:59-64 | deleting the same category and id twice equals deleting once |
| `TaskStore.DeleteTaskAbsent` | src/App.jsx:59-64 | deleting an id that no task of the category carries leaves the store unchanged |
| `TaskStore.DeleteTaskKeepsOrder` | src/App.jsx:59-64 | after a delete, the category's tasks are a subsequence of its tasks before |
| `TaskStore.CountIdDistinct` | src/App.jsx:62 | in a sequence whose ids are distinct, at most one task carries any given id |
| `TaskStore.DeleteTaskRemovesOne` | src/App.jsx:59-64 | with unique ids, a delete shortens the category by exactly one when some task carries the id, and leaves its length otherwise |
| `TaskStore.RemoveMatchingKeepsDistinct` | src/App.jsx:62 | filtering a sequence with distinct ids leaves a sequence with distinct ids |
| `TaskStore.AddTaskPreservesUniqueIds` | src/App.jsx:32-42 | if ids are unique across the store and the new id is not in use, ids stay unique after the add |
| `TaskStore.TogglePreservesUniqueIds` | src/App.jsx:50-55 | a toggle keeps ids unique across the store |
| `TaskStore.DeletePreservesUniqueIds` | src/App.jsx:60-63 | a delete keeps ids unique across the store |
| `TaskStore.AddTaskKeepsTextsNonBlank` | src/App.jsx:30-42 | if no stored text is blank, none is after an add, since only non-blank drafts are stored |
| `TaskStore.ToggleTaskKeepsTextsNonBlank` | src/App.jsx:50-55 | a toggle keeps every stored text non-blank |
| `TaskStore.DeleteTaskKeepsTextsNonBlank` | src/App.jsx:60-63 | a delete keeps every stored text non-blank |
| `TaskStore.AddTaskPreservesWellFormed` | src/App.jsx:29-46 | an add with an unused id keeps the full invariant: four category keys, draft category among them, non-blank texts, unique ids |
| `TaskStore.ToggleTaskPreservesWellFormed` | src/App.jsx:49-56 | a toggle keeps the full invariant |
| `TaskStore.DeleteTaskPreservesWellFormed` | src/App.jsx:59-64 | a delete keeps the full invariant |
| `TaskBoard.InitialTasks` | src/App.jsx:14-20 | the initial store has exactly the four category names as keys, each mapped to an empty sequence |
| `TaskBoard.App.constructor` | src/App.jsx:14-26 | the component starts with four empty categories and the draft `{text: '', category: 'MUST DO'}`, satisfying the full invariant |
| `TaskBoard.App.SetDraftText` | src/App.jsx:78 | changing the input text replaces only the draft text |
| `TaskBoard.App.SetDraftCategory` | src/App.jsx:83-92 | choosing one of the registry's categories replaces only the draft category |
| `TaskBoard.App.AddTask` | src/App.jsx:29-46 | both state cells become the reducer's add result; the class invariant is kept, and unique ids stay unique when the id is unused |
| `TaskBoard.App.ToggleTask` | src/App.jsx:49-56 | the store becomes the reducer's toggle result and the draft is untouched; unique ids stay unique |
| `TaskBoard.App.DeleteTask` | src/App.jsx:59-64 | the store becomes the reducer's delete result and the draft is untouched; unique ids stay unique |

## Left out

- Rendering (src/App.jsx:66-135): the header, input, select, category cards, empty-state message and delete button are presentation only.
- React's state machinery: `useState` and the queueing of functional setter updates. The two cells are plain fields replaced in program order. `addTask` reads the draft from the render's closure and the store through the updater's `prev`. In a single synchronous event these are the same state.
- `Date.now()`: the wall clock is replaced by a caller-supplied `id`. Whether two adds in the same millisecond collide depends on the clock, so uniqueness is proved only for an unused id. Toggle and delete act on every task carrying the id, as the source does, so duplicate ids are handled rather than excluded.
- Event plumbing: the Enter key (src/App.jsx:80) and the button (src/App.jsx:94) only call `addTask`. The click handlers (src/App.jsx:118, 122) only call `toggleTask` and `deleteTask` with the rendered category name and task id.
- Category colours and CSS class names are cosmetic.
- `TaskStore.AddTask`, `TaskStore.ToggleTask`, `TaskStore.DeleteTask`: a category that is not a key is excluded by a precondition. The source would throw a `TypeError` there (spreading or mapping `undefined`), and every caller passes one of the registry's names.
- Ids are unbounded integers. `Date.now()` values are integral and far below the range where JavaScript numbers lose precision.
- Strings are sequences of Unicode scalar values. JavaScript strings are UTF-16, and lone surrogates are not modelled; they are never white space, so trimming is unaffected.
- Editing, updating and cancelling an edit are absent from the source and are not modelled.
