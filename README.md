# To-do list state, in Dafny

A model of the task-list state of a single-screen to-do app (React Native /
Expo). The screen keeps two pieces of state: an ordered, newest-first list
of tasks `{id, text, done}` and the draft text of the input box. Three handlers
change them:

- **add** ignores a draft whose trimmed form is empty (and then also leaves the
  draft as it is); otherwise it puts a new undone task holding the untrimmed
  draft at the head of the list and clears the draft;
- **toggle** flips `done` on every task whose id matches;
- **delete** drops every task whose id matches.

`js_string.dfy` (module `JsString`) models JavaScript's `String.prototype.trim`
over the ECMAScript white-space and line-terminator set, and the `!s.trim()`
blankness test. `todo_app.dfy` (module `TodoApp`) holds the `Task` datatype,
the three list transitions as pure functions on `seq<Task>` (`Added`,
`Toggled`, `Deleted`), the lemmas about them, and the class `TaskStore`. Its
fields `tasks` and `draft` are the screen's two state variables. Its methods
replace them the way the screen's state setters do.

The id of a new task is a parameter (`freshId`), because the app takes it from
the clock. Ids are not assumed to be unique. The code acts on every entry whose
id matches, so toggle flips every matching entry and delete removes every
matching entry. The predicate `UniqueIds` and the lemmas about it show that
each transition keeps ids unique when they start unique. Adding keeps them
unique only if the fresh id is new. Under unique ids, toggle and delete touch
exactly one entry when the id is present.

## Model

| member | source | states |
|---|---|---|
| `JsString.Trim` | app/index.tsx:24 | `trim` returns the draft with exactly its leading and trailing white space removed: the result sits in the draft between an all-white-space prefix and an all-white-space suffix, neither starts nor ends with white space, and is empty exactly when every character of the draft is white space |
| `JsString.IsBlank` | app/index.tsx:24 | the draft is blank (`!task.trim()`) exactly when every character is white space |
| `TodoApp.Added` | app/index.tsx:23-25 | an all-white-space (or empty) draft leaves the list unchanged; any other draft gives a list one longer whose head is `{freshId, draft, false}`, with the untrimmed draft as its text, and whose tail is exactly the old list |
| `TodoApp.AddedKeepsUnique` | app/index.tsx:25 | prepending under an id the list does not hold keeps ids unique |
| `TodoApp.Toggled` | app/index.tsx:30 | the mapped list has the same length as the old one |
| `TodoApp.ToggledAt` | app/index.tsx:30 | at every index the id and text are kept, so the order is unchanged; `done` is negated on every entry whose id matches, and every other entry is identical |
| `TodoApp.ToggledTwice` | app/index.tsx:30 | toggling the same id twice restores the original list |
| `TodoApp.ToggledAbsent` | app/index.tsx:30 | toggling an id no entry carries is the identity |
| `TodoApp.ToggledKeepsUnique` | app/index.tsx:30 | toggling keeps ids unique |
| `TodoApp.ToggledUniqueFlipsOne` | app/index.tsx:30 | with unique ids and the id present, exactly one entry changes its `done` flag and every other entry is identical |
| `TodoApp.Deleted` | app/index.tsx:34 | no entry with the id remains, and the length drops by the number of entries that carried it |
| `TodoApp.DeletedKeepsOrder` | app/index.tsx:34 | the result is the old list read at strictly increasing indices, and those indices are exactly the positions whose id differs, so the filter keeps the survivors in their original relative order |
| `TodoApp.DeletedAbsent` | app/index.tsx:34 | deleting an id no entry carries leaves the list unchanged |
| `TodoApp.DeletedIdempotent` | app/index.tsx:34 | deleting the same id twice equals deleting it once |
| `TodoApp.DeletedKeepsUnique` | app/index.tsx:34 | deleting keeps ids unique |
| `TodoApp.UniqueCountAtMostOne` | app/index.tsx:34 | with unique ids an id occurs at most once, so deleting a present id removes exactly one entry |
| `TodoApp.SessionFromEmpty` | app/index.tsx:23-35 | starting empty, add "Buy milk", add "Call mom", toggle the first, delete the second: one completed "Buy milk" task remains, and the intermediate lists are newest-first |
| `TodoApp.TaskStore.constructor` | app/index.tsx:9-10 | the list and the draft both start empty |
| `TodoApp.TaskStore.SetDraft` | app/index.tsx:56 | typing replaces the draft and leaves the list alone |
| `TodoApp.TaskStore.AddTask` | app/index.tsx:23-27 | a blank draft changes neither the list nor the draft, because the early return comes before the draft is cleared; otherwise the new task is prepended and the draft becomes "" |
| `TodoApp.TaskStore.ToggleTask` | app/index.tsx:29-31 | the list becomes `Toggled` of the old list and the draft is kept |
| `TodoApp.TaskStore.DeleteTask` | app/index.tsx:33-35 | the list becomes `Deleted` of the old list and the draft is kept |

Toggle and delete act on *every* entry with a matching id, as the code's `map`
and `filter` do. They do not act on "the" task with that id. That reading is
right only when ids are unique, and the model proves it separately
(`ToggledUniqueFlipsOne`, `UniqueCountAtMostOne`).

## Left out

- Loading and saving through `AsyncStorage` (app/index.tsx:12-21): asynchronous device I/O with a cold-start load/save race; only its concurrency and platform behaviour would be modelled.
- `JSON.parse` / `JSON.stringify` (app/index.tsx:15, 20): library serialisation whose code is not part of this model. A malformed stored payload throws inside an unawaited async function. So the serialisation round trip is not stated.
- `Date.now().toString()` (app/index.tsx:25): clock access. The id is the `freshId` parameter, and nothing guarantees that it is fresh.
- Rendering (app/index.tsx:37-73, except the draft binding at line 56) and the style sheet (app/index.tsx:75-85): presentation only.
- React's state scheduling: the handlers read `tasks` from the render that created them and call `setTasks` with a value, not an updater. Two handler calls before a re-render would both start from the same old list. The model runs each handler on the current state.
- `JsString.Trim`: JavaScript strings are UTF-16 code units and Dafny's `char` is a Unicode scalar value. Every trimmed character lies in the Basic Multilingual Plane, so the blankness test agrees for well-formed strings. Lone surrogates are not modelled.
