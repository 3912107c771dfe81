# Todo store — a Dafny model

This project models the state container of a single-screen todo-list app
(`src/store/todoStore.ts`). The store holds one piece of state, an ordered
list of `Todo` records (`id`, `text`, `completed`, `createdAt`). It offers
five actions that replace that list: `addTodo`, `deleteTodo`, `toggleTodo`,
`editTodo` and `clearCompleted`. It also offers one query, `getTodoStats`.

The model has four modules:

- `Lists` (`lists.dfy`): the two array operations the store is built from,
  `filter` and `map`. The lemmas say exactly which elements a filter keeps,
  how many of each, and in which order. Together they determine the filter
  uniquely (`FilterUnique`).
- `Text` (`text.dfy`): `String.prototype.trim`. It strips the ECMAScript
  WhiteSpace and LineTerminator code points from both ends. Lemmas prove that
  the result is the infix between a blank prefix and a blank suffix. They also
  prove that an infix with that property whose first and last characters are
  not white space (or an empty infix of an all-blank string) is exactly the
  trim, and that trimming twice is trimming once.
- `TodoModel` (`todo_model.dfy`): the `Todo` record and each action as a
  function from the old list to the new one. Lemmas state what each action
  changes and what it keeps. They cover removal of exactly the matching
  todos, order, toggling twice, no-ops for absent ids and blank text, and
  idempotence of `clearCompleted`. They also show that ids and trimmed texts
  are preserved, and that the statistics add up.
- `TodoStore` (`todo_store.dfy`): the store as a class `Store` with one
  field `todos: seq<Todo>`. Each action is a method that assigns the new
  list, as the store's `set(...)` does. Its `ensures` tie the new list to
  the function of the old one, state the no-op cases, and state that the
  list stays well formed: ids pairwise distinct, texts non-empty and
  trimmed. `GetTodoStats` only reads.

The store validates text itself: `addTodo` and `editTodo` trim the text and
do nothing when the trimmed text is empty. The model does not assume that
callers have already checked it. The store does not make ids unique.
`deleteTodo` and `toggleTodo` act on every todo whose id matches, and
`addTodo` appends whatever id it is given. `AddTodoIdsDistinct` states when
ids stay distinct.

Two further facts about the code:

- Nothing in the store makes ids unique. `deleteTodo` and `toggleTodo`
  filter and map over the whole list, so every todo with the id is removed
  or flipped.
- No storage round trip is claimed. The list is persisted through JSON,
  which turns `createdAt` from a `Date` into a string, and nothing in the
  code turns it back.

Inputs the store takes from its environment are parameters. `Date.now()` and
`Math.random()` build the new id, so the id is an argument of `AddTodo`.
`new Date()` gives the creation time, so `now: Timestamp` is an argument too,
and a `Date` is modelled as its integer milliseconds.

## Model

| member | source | states |
|---|---|---|
| `Lists.Filter` | src/store/todoStore.ts:48 | the array filter used by `deleteTodo` and `clearCompleted` returns no more elements than it was given, all satisfying the callback |
| `Lists.Map` | src/store/todoStore.ts:54-56 | the array map used by `toggleTodo` and `editTodo` keeps the length and applies the callback at every position |
| `Lists.FilterMembership` | src/store/todoStore.ts:48 | an element is in the filtered array exactly when it was in the array and satisfies the callback |
| `Lists.FilterMultiplicity` | src/store/todoStore.ts:48 | the filter keeps every occurrence of an element that satisfies the callback and no occurrence of any other |
| `Lists.FilterIsSubsequence` | src/store/todoStore.ts:48 | the filter keeps the surviving elements in their original order |
| `Lists.FilterUnique` | src/store/todoStore.ts:72 | any order-preserving selection with the filter's multiplicities is the filter itself |
| `Lists.FilterKeepsAll` | src/store/todoStore.ts:48 | a filter whose callback holds of every element returns the array unchanged |
| `Lists.FilterIdempotent` | src/store/todoStore.ts:72 | filtering twice by the same callback equals filtering once |
| `Lists.FilterLength` | src/store/todoStore.ts:78 | `filter(...).length` is the number of elements satisfying the callback |
| `Lists.CountComplement` | src/store/todoStore.ts:83 | the elements satisfying a callback and those satisfying its negation together number the whole array |
| `Text.Trim` | src/store/todoStore.ts:32 | `trim()` is empty exactly when the text is blank; otherwise it neither starts nor ends with white space |
| `Text.TrimIsInfix` | src/store/todoStore.ts:36 | `trim()` is the part of the text between a blank prefix and a blank suffix |
| `Text.TrimUnique` | src/store/todoStore.ts:36 | any blank prefix and suffix whose removal leaves text not starting or ending with white space yields exactly `trim()` |
| `Text.TrimIdempotent` | src/components/AddTodoForm.tsx:19-26 | trimming text the form has already trimmed, as `addTodo` does again, changes nothing |
| `Text.TrimOfTrimmed` | src/store/todoStore.ts:65 | text that neither starts nor ends with white space is its own trim |
| `TodoModel.AddTodo` | src/store/todoStore.ts:31-44 | blank text leaves the list unchanged; otherwise the old list is kept as a prefix and one todo is appended with the given id and time, the trimmed text and `completed` false |
| `TodoModel.ToggleTodo` | src/store/todoStore.ts:52-58 | same length; every todo keeps its id, text and creation time; `completed` is flipped exactly where the id matches |
| `TodoModel.EditTodo` | src/store/todoStore.ts:60-68 | blank text leaves the list unchanged; same length; id, `completed` and creation time kept everywhere; text becomes the trimmed text exactly where the id matches and the text is not blank |
| `TodoModel.DeleteTodo` | src/store/todoStore.ts:46-50 | the result keeps the order of the list, holds no todo with the id, and holds every other todo exactly as often as the list did; no longer than the list |
| `TodoModel.ClearCompleted` | src/store/todoStore.ts:70-74 | the result keeps the order of the list, holds no completed todo, and holds every pending todo exactly as often as the list did; no longer than the list |
| `TodoModel.TodoStats` | src/store/todoStore.ts:76-85 | `total` is the length, `completed` the number of completed todos, `completed + pending == total`, and `pending` is non-negative and equals the number of todos `clearCompleted` would keep |
| `TodoModel.DeleteTodoRemovesExactly` | src/store/todoStore.ts:46-50 | `deleteTodo` drops every todo with the id, keeps every occurrence of every other todo, and keeps their order |
| `TodoModel.DeleteTodoCharacterised` | src/store/todoStore.ts:46-50 | conversely, any order-preserving list holding exactly the other todos is what `deleteTodo` yields |
| `TodoModel.DeleteTodoAbsent` | src/store/todoStore.ts:46-50 | deleting an id that no todo has leaves the list unchanged |
| `TodoModel.ToggleTodoTwice` | src/store/todoStore.ts:52-58 | toggling the same id twice restores the original list |
| `TodoModel.ToggleTodoAbsent` | src/store/todoStore.ts:52-58 | toggling an id that no todo has leaves the list unchanged |
| `TodoModel.EditTodoStoresTrimmed` | src/store/todoStore.ts:60-68 | after an edit with non-blank text, a matching todo's text is the trim of the given text, non-empty, and neither starts nor ends with white space |
| `TodoModel.EditTodoAbsent` | src/store/todoStore.ts:60-68 | editing an id that no todo has leaves the list unchanged |
| `TodoModel.ClearCompletedKeepsPending` | src/store/todoStore.ts:70-74 | `clearCompleted` keeps every occurrence of every pending todo, drops every completed one, and keeps the order |
| `TodoModel.ClearCompletedTwice` | src/store/todoStore.ts:70-74 | clearing completed todos twice equals clearing once |
| `TodoModel.FilterKeepsIds` | src/store/todoStore.ts:46-74 | filtering the list introduces no id and keeps pairwise distinct ids distinct |
| `TodoModel.DeleteTodoKeepsIds` | src/store/todoStore.ts:46-50 | after `deleteTodo` the ids are the old ids minus the deleted one; distinct ids stay distinct |
| `TodoModel.ClearCompletedKeepsIds` | src/store/todoStore.ts:70-74 | `clearCompleted` introduces no id; distinct ids stay distinct |
| `TodoModel.ToggleAndEditKeepIds` | src/store/todoStore.ts:52-68 | `toggleTodo` and `editTodo` keep the set of ids, and ids are distinct after exactly when they were before |
| `TodoModel.AddTodoIdsDistinct` | src/store/todoStore.ts:34-42 | after `addTodo` ids are distinct exactly when they were before and the text is blank or the new id is not in the list yet |
| `TodoModel.AddTodoKeepsTextsTrimmed` | src/store/todoStore.ts:31-44 | if every text is non-empty and trimmed, it stays so after `addTodo` |
| `TodoModel.EditTodoKeepsTextsTrimmed` | src/store/todoStore.ts:60-68 | if every text is non-empty and trimmed, it stays so after `editTodo` |
| `TodoModel.FilterKeepsTextsTrimmed` | src/store/todoStore.ts:46-74 | if every text is non-empty and trimmed, it stays so after `deleteTodo` or `clearCompleted` |
| `TodoModel.Walkthrough` | src/store/todoStore.ts:31-85 | adding "Buy milk" and "Walk dog" with distinct ids and completing the first gives statistics 2/1/1, and clearing completed todos leaves only "Walk dog" |
| `TodoStore.Store.constructor` | src/store/todoStore.ts:29 | a new store holds no todos, so its list is well formed (distinct ids, trimmed non-empty texts) |
| `TodoStore.Store.AddTodo` | src/store/todoStore.ts:31-44 | returns early on blank text, leaving `todos` unchanged; otherwise appends the new todo; the list stays well formed when it was and the given id is fresh |
| `TodoStore.Store.DeleteTodo` | src/store/todoStore.ts:46-50 | the new list is an order-preserving selection holding exactly the old todos with other ids; an absent id is a no-op; well-formedness is kept |
| `TodoStore.Store.ToggleTodo` | src/store/todoStore.ts:52-58 | the new list is the toggled old list; an absent id is a no-op; well-formedness is kept |
| `TodoStore.Store.EditTodo` | src/store/todoStore.ts:60-68 | returns early on blank text; otherwise the new list is the edited old list; an absent id is a no-op; well-formedness is kept |
| `TodoStore.Store.ClearCompleted` | src/store/todoStore.ts:70-74 | the new list keeps every occurrence of each pending todo, no completed one, in order; well-formedness is kept |
| `TodoStore.Store.GetTodoStats` | src/store/todoStore.ts:76-85 | reads the list without changing it; `total` is its length, `completed` the count of completed todos, `completed + pending == total`, `0 <= pending`, and `pending` is what `clearCompleted` would keep |

## Left out

- Persistence (`persist`, `createJSONStorage`, `AsyncStorage`, `partialize`, src/store/todoStore.ts:87-91): a foreign library doing asynchronous I/O. The store starts empty and nothing is loaded or written. No round trip is claimed, since JSON turns `createdAt` into a string.
- The subscription machinery of the state library (`create`, `set`, `get`) and the ordering of asynchronous write-through: `set` is modelled as plain assignment of the field.
- Id and time generation (`Date.now()`, `Math.random()`, `new Date()`): nondeterministic, so they are parameters of `AddTodo`. Nothing guarantees that a generated id is fresh.
- `Date` values are modelled as integer milliseconds; `Stats` counts are unbounded integers, not floating-point numbers (lists never grow large enough to differ).
- Strings are sequences of Unicode code points, not UTF-16 code units. Every white-space code point `trim` removes lies in the Basic Multilingual Plane, so trimming is the same on both.
- The user interface (`App.tsx`, `src/components/*`, `src/styles/colors.ts`): rendering, alert dialogs, local edit buffers and styling. Its own blank-text checks are not assumed by the model.
