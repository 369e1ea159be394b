# Task manager: the task list of the `Main` component

The application is a single React component, `Main`, that keeps an ordered list of
tasks (`id`, `title`, `description`, `completed`) together with three text inputs:
the title, the description and the search query. Four handlers act on this state:

- `addingTask` appends a new, not-completed task built from the two inputs and
  clears them. It does nothing when either input is empty after `trim()`.
- `deleteTask(id)` keeps only the tasks whose id differs from `id`.
- `completedTask(id)` flips `completed` on the tasks whose id is `id`.
- `searchedTasks` is the list shown on screen: the tasks whose lower-cased title
  contains the lower-cased query.

The Dafny project models this state and these handlers.

- `seqs.dfy`, module `Seqs`: JavaScript's `Array.prototype.filter` and `map` as
  functions on sequences. `Filter` is specified completely: its result is a
  subsequence of the input, and it keeps every occurrence of a kept value and
  nothing else. General lemmas about `Filter` are proved here too.
- `text.dfy`, module `Text`: `String.prototype.trim`, `toLowerCase` and
  `includes`. Each is specified against an independent definition:
  - `trim` removes exactly the white space at both ends;
  - `includes` holds exactly when the needle occurs at some index;
  - `toLowerCase` maps each character to its lower-case form.
- `main.dfy`, module `Main`:
  - the `Task` datatype;
  - one pure function per handler, for the new task list it builds, with lemmas
    about it;
  - class `TaskManager`, whose four fields are the component's four state
    variables and whose methods are the handlers. That includes the input
    `onChange` setters.
  - `Session`, a client method that drives one task through add, complete,
    search and delete. It relies on the handlers' contracts and on two lemmas,
    `AddRejectedIff` and `SearchEmptyQuery`. It walks through an example use and
    does not model a function of the source, so it has no row below.

`Date.now()` is passed to `AddingTask` as the parameter `now`. Each handler is one
atomic state change.

## Model

| member | source | states |
|---|---|---|
| `Seqs.Filter` | src/components/Main.tsx:59 | `filter` returns a subsequence of its input no longer than it. A value is in the result iff it is in the input and passes the predicate. Each passing value keeps its number of occurrences and every other value has none. |
| `Seqs.Map` | src/components/Main.tsx:65-67 | `map` keeps the length, and element `i` of the result is the callback applied to element `i` of the input |
| `Text.TrimStart` | src/components/Main.tsx:43 | the result is a suffix of the input. Everything dropped is white space, and the result does not start with white space. It is empty exactly when the input is all white space. |
| `Text.TrimEnd` | src/components/Main.tsx:43 | the result is a prefix of the input. Everything dropped is white space, and the result does not end with white space. It is empty exactly when the input is all white space. |
| `Text.Trim` | src/components/Main.tsx:43 | `trim()` returns a string no longer than its input that neither starts nor ends with white space |
| `Text.TrimSlice` | src/components/Main.tsx:43 | what `trim()` returns is a contiguous slice of the input with only white space on either side of it |
| `Text.BlankIff` | src/components/Main.tsx:43 | `s.trim() === ""` holds exactly when every character of `s` is ECMAScript white space or a line terminator |
| `Text.ToLower` | src/components/Main.tsx:73 | `toLowerCase()` keeps the length and lower-cases each character in place |
| `Text.ToLowerIdempotent` | src/components/Main.tsx:73 | no capital letter survives lower-casing, so lower-casing twice is the same as once |
| `Text.IncludesIff` | src/components/Main.tsx:73 | `hay.includes(needle)` is true iff `needle` occurs as a contiguous slice of `hay` at some index. The empty needle always occurs. |
| `Main.WithoutId` | src/components/Main.tsx:58-60 | the list after a delete is an order-preserving subsequence of the old list and no longer than it. It holds exactly the tasks whose id differs from `taskId`, each as often as before. All tasks with that id go, not just one. |
| `Main.DeleteAbsent` | src/components/Main.tsx:59 | deleting an id that no task carries leaves the list unchanged |
| `Main.DeleteIdempotent` | src/components/Main.tsx:59 | a second delete of the same id is a no-op |
| `Main.DeleteRemovesCount` | src/components/Main.tsx:59 | a delete removes exactly as many entries as carry the id: one when the id is unique, none when it is absent, every one of them when ids collide |
| `Main.DeletePresentShrinks` | src/components/Main.tsx:59 | deleting an id that some task carries makes the list strictly shorter |
| `Main.Toggled` | src/components/Main.tsx:63-69 | completing keeps the length and order, and each task's id, title and description. `completed` flips exactly on the tasks whose id is `taskId`, and every other task is identical to before. |
| `Main.ToggleTwice` | src/components/Main.tsx:65-67 | completing the same id twice gives back the original list |
| `Main.ToggleAbsent` | src/components/Main.tsx:65-67 | completing an id that no task carries leaves the list unchanged |
| `Main.ToggledKeepsFilled` | src/components/Main.tsx:65-67 | completing keeps this invariant: every task has a non-blank title and description |
| `Main.MatchesQuery` | src/components/Main.tsx:72-73 | the search callback is true exactly when the lower-cased query occurs in the lower-cased title |
| `Main.Searched` | src/components/Main.tsx:72-74 | the shown list is an order-preserving subsequence of the tasks. It holds a task iff the lower-cased query occurs in the task's lower-cased title, with the same number of copies. The description and `completed` are never consulted. |
| `Main.SearchEmptyQuery` | src/components/Main.tsx:72-74 | with an empty query every task is shown, in order |
| `Main.SearchIgnoresCase` | src/components/Main.tsx:73 | two queries that lower-case to the same string show the same tasks |
| `Main.SearchIdempotent` | src/components/Main.tsx:72-74 | searching the shown list again with the same query shows the same list |
| `Main.DeleteShownTask` | src/components/Main.tsx:152 | pressing Delete on a task that the search shows always shortens the list, and leaves no task with that id |
| `Main.AddRejectedIff` | src/components/Main.tsx:43 | the add is rejected exactly when the title or the description is made only of white space (the empty string included) |
| `Main.AppendKeepsFilled` | src/components/Main.tsx:43-52 | appending a task whose title and description are not blank keeps this invariant: every task has a non-blank title and description |
| `Main.TaskManager.constructor` | src/components/Main.tsx:23-26 | the component starts with no tasks and three empty inputs. The no-blank-task invariant holds. |
| `Main.TaskManager.SetTitle` | src/components/Main.tsx:91 | typing in the title input sets `title` and changes nothing else |
| `Main.TaskManager.SetDescription` | src/components/Main.tsx:98 | typing in the description input sets `description` and changes nothing else |
| `Main.TaskManager.SetSearchQuery` | src/components/Main.tsx:115 | typing in the search input sets `searchQuery` and changes nothing else |
| `Main.TaskManager.AddingTask` | src/components/Main.tsx:42-55 | if either input is blank after trimming, `tasks`, `title` and `description` are all unchanged. Otherwise `tasks` becomes the old list plus one new task at the end, and the list is exactly one longer. The new task has id `now`, the untrimmed title and description, and is not completed. Both inputs become empty. The search query is untouched, and the no-blank-task invariant is kept. |
| `Main.TaskManager.DeleteTask` | src/components/Main.tsx:58-60 | `tasks` becomes `WithoutId` of the old list, the three inputs are untouched, and the no-blank-task invariant is kept |
| `Main.TaskManager.CompletedTask` | src/components/Main.tsx:63-69 | `tasks` becomes `Toggled` of the old list, the three inputs are untouched, and the no-blank-task invariant is kept |
| `Main.TaskManager.SearchedTasks` | src/components/Main.tsx:72-74 | the shown list is `Searched(tasks, searchQuery)`. Computing it modifies no state: the method has no `modifies` clause. |

## Left out

- Loading the list from `localStorage` on mount and saving it after each change,
  with `JSON.parse` and `JSON.stringify` (src/components/Main.tsx:29-39). These are
  browser storage and a foreign serialiser. The model's list starts empty, as the
  state does before the load effect runs. The code does not guard `JSON.parse`,
  so malformed stored data is not silently replaced by an empty list. For the same
  reason, no serialise/parse round trip is stated.
- The class invariant that every task has a non-blank title and description holds
  for tasks created by `AddingTask`. Tasks loaded from storage are not checked by
  the source, so the invariant is stated as preserved by each handler, not assumed.
- `Date.now()` (src/components/Main.tsx:46) is a clock read, so it is the parameter
  `now`. Ids are not claimed to be unique. Two tasks added in the same millisecond
  share an id, and then delete and complete act on both. `WithoutId` and `Toggled`
  state exactly this.
- `Main.Task`: the `id` is a JavaScript number (a double). It is modelled as an
  unbounded integer, because `Date.now()` values are integers far below 2^53,
  where equality is exact.
- `Text.ToLower`: lower-cases only the Latin capitals A-Z. JavaScript's
  `toLowerCase` also lower-cases every other Unicode capital, and some
  characters become longer when lower-cased. So the model's search is
  case-insensitive for ASCII letters only.
- `Text.Trim`, `Text.ToLower` and `Text.IncludesIff` work on Unicode scalar
  values, where JavaScript strings are UTF-16 code units. The two views agree on
  well-formed strings. Strings with lone surrogates are not modelled.
- JSX rendering, CSS classes and the font set-up (src/components/Main.tsx:2-11,
  76-164) are UI with no behaviour to verify. The exception is which handler
  each button and input calls; those are cited on the rows above.
- React scheduling: `setTasks`, `setTitle` and `setDescription` are batched and
  re-render later. Here each handler is one atomic update of the fields, and
  `searchedTasks` is read from the state at that moment.
- Deleting removes every task carrying the id, and so may remove more than one
  entry when ids collide. This follows the `filter` in the code. A one-entry
  delete is not modelled.
