# Task list state machine, in Dafny

This project models the core of a single-page task manager: the
`TaskComponent` list controller (`src/components/TaskList.tsx`) and the
`Task` record with its `validateTask` predicate (`src/hooks/Query.ts`).

The component keeps an ordered list of tasks and some editing state: the
create-form draft, the task being edited, the search query, and the
two-phase delete state. Each user action changes this state with one small
list transformation, around at most one awaited call to the remote task
service:

- drag-to-reorder moves one element (`arrayMove`);
- create validates the draft and appends the created task;
- edit and toggle replace elements by id with the service's answer;
- delete records an id, then filters it out;
- search shows an order-preserving selection of the list.

Modules, one per concern:

- `Wrappers` (`wrappers.dfy`): `Option`.
- `Text` (`text.dfy`): the JavaScript string built-ins the code uses.
  These are `trim` (with ECMAScript's whitespace set), `toLowerCase` and
  `includes`.
- `Sequences` (`sequences.dfy`): `Array.prototype.filter`. It is proved to
  keep exactly the selected elements with their multiplicities, as an
  order-preserving subsequence.
- `Sortable` (`sortable.dfy`): the drag-and-drop library's `arrayMove`.
  It has a pointwise characterisation and is proved to be a permutation, to
  be undone by the reverse move, and to be a move and not a swap.
- `Query` (`query.dfy`): `Task`, the draft, the partial task used for
  update requests, and the outcome of a remote call. It also holds
  `ValidateTask`.
- `TaskList` (`task_list.dfy`): the list transformations and their
  properties, and the class `TaskComponent`. The class's fields are the
  component's state, and its methods are the handlers.
- `Scenarios` (`scenarios.dfy`): example runs of the component, checked from
  the handlers' contracts alone. The runs are: drag 1 onto 3 in
  [1,2,3,4], create, a failed and then a successful delete, toggling twice,
  and the "buy" search example.

A remote call (`fetchTasks`, `createTask`, `updateTask`, `deleteTask`) is
modelled by its outcome. The outcome is `Ok(value)` or `Fail` and is passed
to the handler as a parameter. A handler returns the request it sent, or
`None` when it sent none. On `Fail` the awaited call throws, so none of the
handler's later assignments run and the state stays as it was. The
`alert` in the create handler is returned as `Alerted(message)`.

Three behaviours of the code that the model keeps as written:

- A failed delete leaves `taskToDelete` and `isDeleteConfirm` set. The
  rejected `deleteTask` skips the lines that clear them
  (src/components/TaskList.tsx:165-168).
- `handleUpdateTask` matches list elements on the id of the task the service
  returns, not on the id of the edited task
  (src/components/TaskList.tsx:147).
- `handleToggleStatus` replaces every element holding the id with the
  service's answer, whatever id that answer carries
  (src/components/TaskList.tsx:155).

## Model

| member | source | states |
|---|---|---|
| Text.TrimStart | src/hooks/Query.ts:54 | result is a suffix of the input that does not start with whitespace; every dropped character is whitespace |
| Text.TrimEnd | src/hooks/Query.ts:54 | result is a prefix of the input that does not end with whitespace; every dropped character is whitespace |
| Text.Trim | src/hooks/Query.ts:54 | `trim()` result is the infix of the input between an all-whitespace prefix and an all-whitespace suffix; it neither starts nor ends with whitespace, and is empty exactly when the input is all whitespace |
| Text.ToLower | src/components/TaskList.tsx:172 | same length; each character lower-cased (A-Z to a-z) |
| Text.Includes | src/components/TaskList.tsx:172 | `includes` holds iff the query is a prefix of some suffix of the text |
| Text.EmptyIncludedEverywhere | src/components/TaskList.tsx:172 | every string includes the empty query |
| Sequences.Filter | src/components/TaskList.tsx:166 | `filter` keeps exactly the elements satisfying the predicate, with their multiplicities, as an order-preserving subsequence |
| Sequences.FilterKeepsAll | src/components/TaskList.tsx:171-173 | a predicate true of every element keeps the whole list |
| Sortable.ArrayMove | src/components/TaskList.tsx:124 | the move keeps the length and puts the moved element at the target index |
| Sortable.ArrayMoveAt | src/components/TaskList.tsx:121-124 | moved element lands at `to`, the elements between shift one place toward `from`, all others keep their index |
| Sortable.ArrayMovePermutes | src/components/TaskList.tsx:124 | the reordered list is a permutation of the old one |
| Sortable.ArrayMoveUndo | src/components/TaskList.tsx:124 | moving back from `to` to `from` restores the list |
| Sortable.ArrayMoveInPlace | src/components/TaskList.tsx:124 | moving an element onto its own index changes nothing |
| Sortable.MoveIsNotSwap | src/components/TaskList.tsx:121-124 | moving index 0 to index 2 in [A,B,C,D] gives [B,C,A,D] |
| Query.ValidateTask | src/hooks/Query.ts:53-55 | valid iff the title is present and has a character that is not whitespace |
| Query.ValidateExamples | src/hooks/Query.ts:54 | missing, empty and whitespace-only titles are invalid; "Buy milk" is valid |
| Query.ValidateReadsOnlyTitle | src/hooks/Query.ts:53-55 | two partial tasks with the same title get the same verdict, whatever their id, description and status |
| Query.FlipTwice | src/components/TaskList.tsx:154 | the requested status, flipped twice, is the original status |
| TaskList.FindIndex | src/components/TaskList.tsx:121-122 | `findIndex` is -1 iff no task has the id, otherwise the first index holding it |
| TaskList.Find | src/components/TaskList.tsx:152-153 | `find` gives the task at the first index holding the id, and nothing iff the id is absent |
| TaskList.ReplaceById | src/components/TaskList.tsx:147 | same length; elements holding the id become the new task, every other element is unchanged in place |
| TaskList.RemoveById | src/components/TaskList.tsx:166 | no element holds the id; every other element is kept with its multiplicity, in order |
| TaskList.SearchTasks | src/components/TaskList.tsx:171-173 | exactly the tasks whose lower-cased title includes the lower-cased query, with multiplicities, as an order-preserving subsequence |
| TaskList.SearchEmptyQueryShowsAll | src/components/TaskList.tsx:171-173 | an empty query shows the whole list |
| TaskList.ReplaceAbsentId | src/components/TaskList.tsx:155 | replacing an absent id leaves the list unchanged |
| TaskList.RemoveAbsentId | src/components/TaskList.tsx:166 | removing an absent id leaves the list unchanged |
| TaskList.MovePreservesUniqueIds | src/components/TaskList.tsx:124 | a reorder keeps ids pairwise distinct |
| TaskList.ReplacePreservesUniqueIds | src/components/TaskList.tsx:147 | replacing by a task with the same id keeps ids distinct |
| TaskList.AppendPreservesUniqueIds | src/components/TaskList.tsx:136 | appending a task with a fresh id keeps ids distinct |
| TaskList.RemovePreservesUniqueIds | src/components/TaskList.tsx:166 | a delete keeps ids distinct |
| TaskList.SubsequencePreservesUniqueIds | src/components/TaskList.tsx:166 | any order-preserving subsequence of a list with distinct ids has distinct ids |
| TaskList.SubsequenceMembers | src/components/TaskList.tsx:171-173 | every element of a subsequence is an element of the list |
| TaskList.TaskComponent.constructor | src/components/TaskList.tsx:93-99 | empty list, blank PENDING draft, nothing being edited, empty query, no pending delete |
| TaskList.TaskComponent.LoadTasks | src/components/TaskList.tsx:108-114 | the fetched list replaces `tasks` wholesale; a failed fetch leaves it unchanged |
| TaskList.TaskComponent.HandleDragEnd | src/components/TaskList.tsx:116-128 | no `over` or same id: unchanged; otherwise `arrayMove` from the dragged task's index to the target's; always a permutation; distinct ids stay distinct |
| TaskList.TaskComponent.HandleCreateTask | src/components/TaskList.tsx:130-138 | invalid draft: alert, no request, no change; valid: the draft is sent, and on success the created task is appended and the draft reset; on failure no change |
| TaskList.TaskComponent.HandleEditTask | src/components/TaskList.tsx:140-142 | the edit form holds the given task |
| TaskList.TaskComponent.SetNewTaskTitle | src/components/TaskList.tsx:203 | only the draft's title changes |
| TaskList.TaskComponent.SetNewTaskDescription | src/components/TaskList.tsx:209 | only the draft's description changes |
| TaskList.TaskComponent.SetEditTitle | src/components/TaskList.tsx:252 | only the edited task's title changes |
| TaskList.TaskComponent.SetEditDescription | src/components/TaskList.tsx:258 | only the edited task's description changes |
| TaskList.TaskComponent.HandleUpdateTask | src/components/TaskList.tsx:144-149 | nothing edited or invalid title: no request, no change; otherwise the edited task is sent, and on success elements with the returned id are replaced and the form closes; on failure no change |
| TaskList.TaskComponent.HandleToggleStatus | src/components/TaskList.tsx:151-156 | absent id: no request, no change; otherwise requests the flipped status of the first match, and on success replaces that id's elements in place; on failure no change |
| TaskList.TaskComponent.HandleDeleteConfirm | src/components/TaskList.tsx:158-161 | records the id and opens the confirmation |
| TaskList.TaskComponent.CancelDelete | src/components/TaskList.tsx:283 | closes the confirmation only |
| TaskList.TaskComponent.HandleDeleteTask | src/components/TaskList.tsx:163-169 | no recorded id: no request, no change; otherwise the id is sent, and on success its elements are removed and the delete state cleared; on failure nothing changes |
| TaskList.TaskComponent.SetSearchQuery | src/components/TaskList.tsx:194 | the query becomes the typed text |
| TaskList.TaskComponent.FilteredTasks | src/components/TaskList.tsx:171-173 | the shown tasks are exactly the matching ones, each as often as in `tasks`, as a subsequence of `tasks`, and all of `tasks` for an empty query |
| Scenarios.SearchExample | src/components/TaskList.tsx:171-173 | "buy" over "Buy milk", "Walk dog", "Buy eggs" shows the first and the last, in order |
| Scenarios.DraftValidity | src/hooks/Query.ts:54 | the blank draft is invalid, a draft titled "X" is valid |

## Left out

- HTTP: the axios requests and their error logging (src/hooks/Query.ts:13-51). Only the outcome of each call is modelled, passed to the handler.
- Async interleaving: handlers run one at a time. Two overlapping handlers that race on `setTasks` are not modelled.
- Rendering: JSX, CSS classes, the dark-mode flag, `SortableTaskItem`, and the drag sensors and collision detection (src/components/TaskList.tsx:23-90, 96, 101-106, 175-293). The form and search inputs are kept as the small setter methods.
- Text.ToLower: lower-cases only the letters A to Z. JavaScript's full Unicode lower-case mapping, which also changes other letters and can change a string's length, is not modelled.
- Text.IsWhitespace: the space separators are listed by code point (as of Unicode 15). A later Unicode version that adds one is not tracked.
- TaskList.TaskComponent.HandleDragEnd: requires both ids to be in `tasks`. The dragged and target ids come from the rendered items, which are tasks of the list (src/components/TaskList.tsx:226). The path where `findIndex` returns -1, which `arrayMove` would read as "the last index", is not modelled.
