# Task manager front end: a Dafny model of its state and handlers

This project models the client-side core of the task manager web front end:

- the task cache `useTaskStore` and its mutators `setTasks`, `updateStatus`,
  `updateTask`, `createTask` and `deleteTask`;
- the notification queue `useToastStore` with `addToast` and `removeToast`;
- the task list component:
  - the filter-then-sort pipeline that derives the visible list;
  - the completion checkbox and the overflow-menu toggle;
  - the handlers `handleStatusChange` and `handleDeleteTask`;
- the create/edit form: its prefill effect and `handleSubmit`.

Modules, one file each:

| module | file | contents |
|---|---|---|
| `Common` | `common.dfy` | `Option` for null/undefined, and `Field` for a property that is absent or present in an object literal |
| `JsArray` | `js_array.dfy` | `Array.prototype.map`, `filter` and a stable `sort`, with their laws |
| `TaskStore` | `task_store.dfy` | the task type, the spread merge, the cache as a class, the new lists each mutator computes, and the distinct-id invariant |
| `ToastStore` | `toast_store.dfy` | the toast type, clock-based ids, and the queue as a class |
| `TitleOrder` | `title_order.dfy` | the title order used by the sorts |
| `Remote` | `remote.dfy` | the request a handler sends, and the outcome it gets back |
| `TaskList` | `task_list.dfy` | the view, the row controls and the two handlers |
| `TaskModal` | `task_modal.dfy` | the form state, the request body it builds, and the submit handler |

Stores and component state are classes whose fields the operations reassign.
The list each store mutator produces is a pure function of the old list, and the lemmas are about those functions.

Each handler takes as parameters those of these three things it needs:
- the server's answer, as `Outcome` (`Ok` or `Failed`);
- the clock reading `now`, in milliseconds;
- the date conversion `toIso`.

A handler that sends a request returns it. A handler that receives the answer says in its contract how the stores change on each outcome.

A handler call stands for the moment the server's reply arrives.
So `old(store.tasks)` in a handler's contract is the cache as it is at that moment, not when the request was sent.
This matches the source: after the `await`, `setTasks(prev => ...)` and `useTaskStore.getState()` act on the latest list.
Changes made to the cache while the request was in flight are therefore kept.

The form's `handleSubmit` is split at its `await`, because it fixes the request body before the request.
- `Form.HandleSubmit` builds the body from the fields at submission and returns it with the request.
- `SubmitReplied` is the reply half. It takes that body and never reads the form, so edits to the fields while the request is pending do not reach the store.

Where the declared TypeScript types and the code disagree, the model follows the code:

- `descricao` is declared a string, but the form sends `null` for an empty description and the store merges it in. The model lets it be null.
- The cache is meant to hold one task per id, but no mutator checks this.
  - `CreateKeepsDistinctIffFresh` and `UpdateTaskKeepsDistinctIff` state exactly when `createTask` and `updateTask` keep ids distinct.
  - `UpdateTaskCanDuplicateIds` gives a concrete update that breaks the invariant.
  - `RunKeepsDistinct` proves it for any sequence of calls whose arguments respect it.
- Toast ids are the clock reading, so they are not unique.
  - `SameClockCollides` shows that two toasts added in the same millisecond share an id, and that one `removeToast` drops both.

## Model

| member | source | states |
|---|---|---|
| TaskStore.Store.constructor | task-manager-frontend/src/app/store/taskStore.ts:48-49 | the cache starts as the empty list |
| TaskStore.Store.SetTasks | task-manager-frontend/src/app/store/taskStore.ts:50-53 | a list argument replaces the cache; a function argument is applied to the current list |
| TaskStore.Store.UpdateStatus | task-manager-frontend/src/app/store/taskStore.ts:56-61 | the new cache is `WithStatus` of the old one |
| TaskStore.Store.UpdateTask | task-manager-frontend/src/app/store/taskStore.ts:64-69 | the new cache is `WithUpdate` of the old one |
| TaskStore.Store.CreateTask | task-manager-frontend/src/app/store/taskStore.ts:72-75 | the new task is appended at the end, and nothing else changes |
| TaskStore.Store.DeleteTask | task-manager-frontend/src/app/store/taskStore.ts:78-81 | the new cache is `WithoutId` of the old one |
| TaskStore.WithStatus | task-manager-frontend/src/app/store/taskStore.ts:56-61 | same length; every task with the id has the new status and is otherwise unchanged; every other task is unchanged |
| TaskStore.WithUpdate | task-manager-frontend/src/app/store/taskStore.ts:64-69 | same length; every task with the id becomes the merge of the task and the patch; every other task is unchanged |
| TaskStore.Merge | task-manager-frontend/src/app/store/taskStore.ts:67 | `{...task, ...patch}` for one task; it never changes `dataCriacao`, never changes the id when the patch has none, and the empty patch changes nothing |
| TaskStore.MergeTakesPresentFields | task-manager-frontend/src/app/store/taskStore.ts:67 | `{...task, ...patch}` takes each property the patch has, even a null one; it keeps every other property, `dataCriacao` always |
| TaskStore.MergeIdempotent | task-manager-frontend/src/app/store/taskStore.ts:67 | merging a patch twice equals merging it once; merging an empty object changes nothing |
| TaskStore.UpdateStatusChangesOnlyStatus | task-manager-frontend/src/app/store/taskStore.ts:58-60 | each position keeps its id and every field but the status; the status changes only where the id matches |
| TaskStore.UpdateStatusAbsent | task-manager-frontend/src/app/store/taskStore.ts:56-61 | for an unknown id the list is unchanged |
| TaskStore.UpdateStatusKeepsIds | task-manager-frontend/src/app/store/taskStore.ts:56-61 | the ids do not change, and ids are distinct afterwards iff they were before |
| TaskStore.UpdateStatusIdempotent | task-manager-frontend/src/app/store/taskStore.ts:56-61 | applying the same status update twice equals applying it once |
| TaskStore.UpdateTaskAbsent | task-manager-frontend/src/app/store/taskStore.ts:64-69 | for an unknown id the list is unchanged |
| TaskStore.UpdateTaskKeepsIds | task-manager-frontend/src/app/store/taskStore.ts:64-69 | a patch with no id, or with the same id, keeps the ids; ids are distinct afterwards iff they were before |
| TaskStore.UpdateTaskKeepsDistinctIff | task-manager-frontend/src/app/store/taskStore.ts:64-69 | starting from distinct ids, the ids stay distinct iff one of these holds: no task has the id; the patch has no id or the same id; or the patch's id is not in use |
| TaskStore.UpdateTaskCanDuplicateIds | task-manager-frontend/src/app/store/taskStore.ts:64-69 | a patch that carries another task's id makes two tasks share an id |
| TaskStore.UpdateTaskIdempotent | task-manager-frontend/src/app/store/taskStore.ts:64-69 | applying the same update twice equals applying it once, for every patch; a renamed task is not matched the second time |
| TaskStore.CreateKeepsDistinctIffFresh | task-manager-frontend/src/app/store/taskStore.ts:72-75 | starting from distinct ids, the list after appending has distinct ids iff the new id was not already present |
| TaskStore.WithoutId | task-manager-frontend/src/app/store/taskStore.ts:78-81 | the list `deleteTask` leaves: no longer than before, and no remaining task has the id |
| TaskStore.DeleteKeepsExactlyOthers | task-manager-frontend/src/app/store/taskStore.ts:78-81 | a task is in the result iff it was in the list and its id differs |
| TaskStore.DeleteRemovesId | task-manager-frontend/src/app/store/taskStore.ts:78-81 | no task in the result has the deleted id |
| TaskStore.DeleteKeepsOrder | task-manager-frontend/src/app/store/taskStore.ts:80 | deletion distributes over concatenation, so the remaining tasks keep their order |
| TaskStore.DeleteAbsent | task-manager-frontend/src/app/store/taskStore.ts:78-81 | deleting an unknown id changes nothing |
| TaskStore.DeleteIdempotent | task-manager-frontend/src/app/store/taskStore.ts:78-81 | deleting twice equals deleting once |
| TaskStore.DeleteKeepsDistinct | task-manager-frontend/src/app/store/taskStore.ts:78-81 | deleting keeps distinct ids distinct |
| TaskStore.StepKeepsDistinct | task-manager-frontend/src/app/store/taskStore.ts:48-83 | each mutator keeps ids distinct when its argument respects that (a distinct list, a fresh id, a non-renaming patch) |
| TaskStore.RunKeepsDistinct | task-manager-frontend/src/app/store/taskStore.ts:48-83 | any sequence of such mutator calls keeps ids distinct |
| ToastStore.Store.constructor | task-manager-frontend/src/app/store/useToastStore.ts:16-17 | the queue starts empty |
| ToastStore.Store.AddToast | task-manager-frontend/src/app/store/useToastStore.ts:18-21 | the toast is appended at the end, with the clock reading in decimal as its id |
| ToastStore.Store.RemoveToast | task-manager-frontend/src/app/store/useToastStore.ts:22-25 | the new queue is `WithoutToast` of the old one |
| ToastStore.Stamped | task-manager-frontend/src/app/store/useToastStore.ts:20 | `{ id: Date.now().toString(), ...toast }`: the id is the clock reading in decimal, a non-empty digit string, and message, type and duration are the input's |
| ToastStore.WithoutToast | task-manager-frontend/src/app/store/useToastStore.ts:22-25 | the queue `removeToast` leaves: no longer than before, and no remaining toast has the id |
| ToastStore.DecimalString | task-manager-frontend/src/app/store/useToastStore.ts:20 | `Date.now().toString()` is non-empty and all decimal digits, with a leading zero only for 0 |
| ToastStore.DecimalStringInjective | task-manager-frontend/src/app/store/useToastStore.ts:20 | different clock readings give different ids |
| ToastStore.RemoveKeepsExactlyOthers | task-manager-frontend/src/app/store/useToastStore.ts:22-25 | a toast is kept iff it was queued and its id differs |
| ToastStore.RemoveKeepsOrder | task-manager-frontend/src/app/store/useToastStore.ts:24 | removal distributes over concatenation, so order is kept |
| ToastStore.RemoveAbsent | task-manager-frontend/src/app/store/useToastStore.ts:22-25 | removing an unknown id changes nothing |
| ToastStore.RemoveIdempotent | task-manager-frontend/src/app/store/useToastStore.ts:22-25 | removing twice equals removing once |
| ToastStore.AddThenRemoveRestores | task-manager-frontend/src/app/store/useToastStore.ts:18-25 | adding and then removing by the new id restores the queue, when no queued toast had that id |
| ToastStore.SameClockCollides | task-manager-frontend/src/app/store/useToastStore.ts:18-25 | two toasts added at the same clock reading share an id, and one removal drops both |
| ToastStore.EarlierStampsLeaveIdFresh | task-manager-frontend/src/app/store/useToastStore.ts:20 | if every queued id comes from an earlier clock reading, the new id is not in the queue |
| JsArray.Map | task-manager-frontend/src/app/store/taskStore.ts:58-60 | `map` keeps the length and applies the callback at every position |
| JsArray.Filter | task-manager-frontend/src/app/store/taskStore.ts:80 | `filter` never makes a list longer |
| JsArray.FilterMembers | task-manager-frontend/src/app/store/taskStore.ts:80 | an element survives iff it was present and passes the test |
| JsArray.FilterConcat | task-manager-frontend/src/app/store/taskStore.ts:80 | `filter` distributes over concatenation |
| JsArray.FilterKeepsAll | task-manager-frontend/src/app/store/taskStore.ts:80 | if every element passes, the result is the input |
| JsArray.FilterIdempotent | task-manager-frontend/src/app/store/taskStore.ts:80 | filtering twice with the same test equals filtering once |
| JsArray.FilterNarrower | task-manager-frontend/src/app/components/TaskList.tsx:37 | filtering by a wider test and then a narrower one is filtering by the narrower one |
| JsArray.Sort | task-manager-frontend/src/app/components/TaskList.tsx:38-53 | the sorted list is a permutation of the input: same multiset, same length, and every element of the result comes from the input |
| JsArray.SortSorted | task-manager-frontend/src/app/components/TaskList.tsx:38-53 | for a consistent comparator, no element follows one the comparator puts after it |
| JsArray.SortStable | task-manager-frontend/src/app/components/TaskList.tsx:38-53 | elements that compare equal keep their input order (a stable sort) |
| JsArray.SortStableWithin | task-manager-frontend/src/app/components/TaskList.tsx:38-53 | any selection of elements that all tie with one element keeps its input order after the sort |
| JsArray.SortAllTied | task-manager-frontend/src/app/components/TaskList.tsx:52 | a comparator that ties every pair leaves the list as it was |
| TitleOrder.LexCompare | task-manager-frontend/src/app/components/TaskList.tsx:40-42 | stand-in for `localeCompare`: returns -1, 0 or 1; equal titles give 0; titles that give 0 have equal length |
| TitleOrder.LexCompareZeroIffEqual | task-manager-frontend/src/app/components/TaskList.tsx:40-42 | titles compare equal iff they are the same string |
| TitleOrder.LexCompareFlips | task-manager-frontend/src/app/components/TaskList.tsx:40-42 | swapping the two titles flips the sign |
| TitleOrder.LexCompareTransitive | task-manager-frontend/src/app/components/TaskList.tsx:40-42 | "not after" is transitive |
| TaskList.MatchesFilter | task-manager-frontend/src/app/components/TaskList.tsx:37 | the filter callback: "ALL" keeps every task; each status name keeps exactly the tasks with that status; any other value keeps none |
| TaskList.Compare | task-manager-frontend/src/app/components/TaskList.tsx:38-53 | the comparator passed to `sort` (`Comparator` is its closure). It returns a value from -2 to 2. A task compared with itself gives 0, and any other sort value gives 0 |
| TaskList.FilteredTasks | task-manager-frontend/src/app/components/TaskList.tsx:36-53 | `filteredTasks`: no longer than the cache, and every shown task matches the filter |
| TaskList.IndexOf | task-manager-frontend/src/app/components/TaskList.tsx:46 | `indexOf` gives the first position of the value, or -1 iff it is absent |
| TaskList.StatusRanks | task-manager-frontend/src/app/components/TaskList.tsx:45-50 | each status is found in both order arrays, at positions 0, 1 and 2 in the listed order |
| TaskList.ComparatorConsistent | task-manager-frontend/src/app/components/TaskList.tsx:38-53 | every comparator the view can use is antisymmetric in sign and transitive |
| TaskList.FilterAllKeepsEverything | task-manager-frontend/src/app/components/TaskList.tsx:37 | with filter "ALL", every task passes, in cache order |
| TaskList.ViewIsPermutationOfMatching | task-manager-frontend/src/app/components/TaskList.tsx:36-53 | the view is a permutation of the filtered cache; a task is shown iff it is cached and matches the filter |
| TaskList.ViewSorted | task-manager-frontend/src/app/components/TaskList.tsx:36-53 | the view is ordered by the selected comparator |
| TaskList.ViewTitleOrder | task-manager-frontend/src/app/components/TaskList.tsx:39-42 | "asc" lists titles in ascending order; "desc" in descending order |
| TaskList.ViewStatusOrder | task-manager-frontend/src/app/components/TaskList.tsx:43-50 | the two status sorts list the groups as PENDENTE, EM_ANDAMENTO, CONCLUIDO and as EM_ANDAMENTO, PENDENTE, CONCLUIDO |
| TaskList.ViewStatusTiesKeepStoreOrder | task-manager-frontend/src/app/components/TaskList.tsx:36-53 | under a status sort, tasks with the same status keep their cache order |
| TaskList.ViewTitleTiesKeepStoreOrder | task-manager-frontend/src/app/components/TaskList.tsx:36-53 | under a title sort, tasks with the same title keep their cache order |
| TaskList.ViewUnknownSortKeepsOrder | task-manager-frontend/src/app/components/TaskList.tsx:52 | any other sort value shows the filtered cache in its own order |
| TaskList.ToggledStatus | task-manager-frontend/src/app/components/TaskList.tsx:224 | the checkbox sends PENDENTE iff the task is CONCLUIDO, otherwise CONCLUIDO; it never sends EM_ANDAMENTO |
| TaskList.ToggleTwice | task-manager-frontend/src/app/components/TaskList.tsx:224 | toggling twice restores PENDENTE and CONCLUIDO, but turns EM_ANDAMENTO into PENDENTE |
| TaskList.NextDropdown | task-manager-frontend/src/app/components/TaskList.tsx:303-305 | the menu closes iff the clicked task's menu was open; otherwise that task's menu opens |
| TaskList.DropdownClickTwice | task-manager-frontend/src/app/components/TaskList.tsx:303-305 | clicking one button twice returns the menu to where it was, when it was closed or was that task's |
| TaskList.TaskListView.constructor | task-manager-frontend/src/app/components/TaskList.tsx:23-25 | filter "ALL", sort "asc", no menu open |
| TaskList.TaskListView.ToggleDropdown | task-manager-frontend/src/app/components/TaskList.tsx:301-306 | only the open menu changes, to `NextDropdown` |
| TaskList.ApplyFetched | task-manager-frontend/src/app/components/TaskList.tsx:29-31 | fetched data replaces the cache; no data leaves it as it was |
| TaskList.HandleStatusChange | task-manager-frontend/src/app/components/TaskList.tsx:55-89 | sends PUT `{status}`; only on success is the status set on the matching tasks; exactly one toast, success (3000 ms) or error (5000 ms) |
| TaskList.HandleCheckbox | task-manager-frontend/src/app/components/TaskList.tsx:221-225 | a status change to the toggled status, with the same effects |
| TaskList.HandleDeleteTask | task-manager-frontend/src/app/components/TaskList.tsx:91-116 | sends DELETE; only on success is the task removed from the cache; exactly one toast, success or error |
| TaskModal.Prefix | task-manager-frontend/src/app/components/TaskModal.tsx:39 | `substring(0, 10)` is the prefix of length min(10, length of the string) |
| TaskModal.Prefilled | task-manager-frontend/src/app/components/TaskModal.tsx:33-48 | the values the prefill effect writes: all "" with no task; the date field is at most 10 characters |
| TaskModal.PrefillClearsOrCopies | task-manager-frontend/src/app/components/TaskModal.tsx:33-48 | with no task the form is cleared; with a task it takes the title and the description (or ""); a missing or empty date gives "", and any other date gives the first ten characters of its ISO string |
| TaskModal.IsEdit | task-manager-frontend/src/app/components/TaskModal.tsx:72 | `task?.id` is truthy: false with no task; when true, the id is non-empty |
| TaskModal.Draft | task-manager-frontend/src/app/components/TaskModal.tsx:54-62 | `taskData`: it never carries an id, and it sets the title, description, status and date |
| TaskModal.DraftFields | task-manager-frontend/src/app/components/TaskModal.tsx:54-62 | the body has every field but the id. The title is as typed. The status is the task's, or PENDENTE. An empty description or date becomes null. A non-empty description is sent as typed, and a non-empty date as `toIso(date + "T00:00:00")` |
| TaskModal.UntouchedEditKeepsTask | task-manager-frontend/src/app/components/TaskModal.tsx:33-62 | saving an untouched edit form keeps id, title, status and creation date; an empty description becomes null |
| TaskModal.SavedEditShowsForm | task-manager-frontend/src/app/components/TaskModal.tsx:72-77 | after a saved edit, the edited task shows the form's title, its description (null when empty), its converted date and the task's status. It keeps its id and creation date. Other tasks are unchanged |
| TaskModal.EditKeepsIdsDistinct | task-manager-frontend/src/app/components/TaskModal.tsx:72-77 | a saved edit keeps cache ids distinct |
| TaskModal.Form.constructor | task-manager-frontend/src/app/components/TaskModal.tsx:24-26 | all three fields start as "" |
| TaskModal.Form.Prefill | task-manager-frontend/src/app/components/TaskModal.tsx:33-48 | the fields become `Prefilled(task)` |
| TaskModal.Form.HandleSubmit | task-manager-frontend/src/app/components/TaskModal.tsx:51-80 | the body is `Draft` of the fields at submission; it is sent with PUT exactly when the task has a non-empty id, and with POST otherwise; nothing changes yet |
| TaskModal.SubmitReplied | task-manager-frontend/src/app/components/TaskModal.tsx:71-113 | with the body fixed at submission: on success the cache is updated (merge of that body by id, or append of the server's task), a success toast is added and the form closes; on failure only an error toast is added and the form stays open |

## Left out

- Data fetching with SWR (`useSWR`, revalidation, and `mutate` after saving) is not modelled.
  - `ApplyFetched` takes the fetched list as an argument.
  - The loading and error screens are markup.
  - `mutate` is called with a key other than the one the list is fetched under. It is left out as I/O, and so is a rejection from it, which would add an error toast after the success toast.
- The HTTP wrappers in `taskService.ts` and the axios calls become the `Request` a handler returns and the `Outcome` it is given. The URL and the response payloads other than the created task are not modelled.
- The `alert` and `console` calls, the modal open/close state other than `closed`, and all JSX markup are left out because they only display.
- The toast component's auto-dismiss timers are left out: they are timing, and call `removeToast`, which is modelled.
- The date handling is the parameter `toIso`, because `new Date(...).toISOString()` depends on the time zone.
  - The day shown in the form can therefore differ from the day saved.
  - An invalid date makes the conversion throw before the request is sent. This is not modelled, because `toIso` is total.
- TitleOrder.LexCompare: `localeCompare` is replaced by lexicographic comparison of characters, because collation depends on the browser's locale data. The lexicographic order ties only equal titles (`LexCompareZeroIffEqual`); `localeCompare` also ties canonically equivalent strings, such as "é" written as one code point or as "e" plus a combining accent. The view lemmas do not depend on that difference: they use only that the order is consistent and that equal titles tie, which both orders provide.
- JsArray.Sort: modelled as one stable insertion sort. The engine's algorithm is not modelled, but any stable sort with a consistent comparator returns the same list.
- TaskList.HandleStatusChange: `novoStatus` is a `Status`, although the source types it as a string; both of its callers, the completion checkbox and the status select (whose options are the three statuses), pass one of the three.
- ToastStore.DecimalString: valid for clock readings below 10^21; above that JavaScript switches to exponent notation.
- The unused `TaskStore` interface and `toggleTaskStatus`, which nothing implements, are not modelled.
- The detail modal is not modelled, and neither is the CORS configuration of the back end.
