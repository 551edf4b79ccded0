# Admin back-office list and state handling, modelled in Dafny

This project models the client-side state handling in the admin area of an esports
company's marketing site. It covers three pages:

- **The contact inbox** (`ContactInbox`, in `contact_inbox.dfy`). It holds the list of
  contact-form submissions and a search box with status tabs (all / new / read / replied).
  It shows an "N New" badge. A row's status can be marked: clicking a `new` row marks it
  `read`, and a toggle switches between `replied` and `read`. Deletion is deferred: a
  deleted row leaves the list at once and waits in a single undo slot. A grace timer later
  deletes it in the database. Undo puts it back in date order. A second delete while one
  is waiting forces the first one through.
- **The project form** (`ProjectEditor`, in `project_editor.dfy`). It loads a project with
  defaults for missing fields. Two list editors add trimmed, non-blank entries and remove
  an entry by index. The banner can be removed. Saving updates the project when editing
  and inserts it otherwise.
- **The project list** (`ProjectCatalog`, in `project_catalog.dfy`). It has a
  case-insensitive search over title and sponsor, a delete that needs confirmation, and
  a reload.

Shared pieces:

- `Text`: JavaScript's `trim`, `toLowerCase` (ASCII letters only) and `includes`.
- `Lists`: `filter` by value and by index, and the order-preserving subsequence relation.
- `Wrappers`: `Option`.

Each page whose fields change in place is a class with those fields. Each handler is a
method whose `modifies` names the fields it may change and whose `ensures` give the new
value of each of them. The list operations are functions, and their properties are lemmas.

The hosted database is never called. Each remote call is handled like this:

- Its outcome is a parameter of the handler that issues it: a success flag, or a query
  result that is rows or an error.
- Every delete and status update sent is appended to a ghost log (`remoteDeletes`,
  `remoteUpdates`, `writes`). This lets contracts say which call was sent, and when none
  was.
- Its response is applied right after the synchronous part of the handler that issued it.

Timers are explicit events:

- `TimerFires` is the 5-second grace timer.
- `SuccessToastExpires` is the 3-second toast timer.

A grace timer is outstanding exactly while the undo slot is occupied. `handleDelete` sets
both together, and undo, forced finalize and timer expiry clear both together. So
`TimerFires` with an empty slot does nothing. Timestamps (`created_at`) are integers.

Two invariants of the inbox are stated as ghost predicates:

- `Accounted`: every delete request was sent to the database exactly once, was undone,
  or is the one in the slot. Every handler that changes the slot or the logs states that
  it preserves it; the others leave those fields out of their `modifies` clauses.
- `Coherent`: ids in the list are unique, and the row in the slot is not in the list.
  `FetchSubmissions` takes the database's rows as they are and has no coherence
  guarantee. `TimerFires`, `FinalizeDelete` and the corrected `HandleDeleteKeepingPending`
  keep it provided the database returns rows with unique ids. The as-written
  `HandleDelete` and `FinalizeResponse` keep it except when a failed delete re-fetched the
  list (the case described under Findings). Every other handler keeps it.

Where the code and the design description differ, the model follows the code:

- **Selecting a `new` row.** The list entry becomes `read`, but the selected snapshot stays
  `new` unless the row was already selected. The status update reads the selection captured
  when the page last rendered, which is the one from before the click
  (pages/admin/ContactSubmissions.tsx:62, :236-237).
- **Status updates.** They are not optimistic. The local list changes only after the
  database reports success, so there is nothing to roll back
  (pages/admin/ContactSubmissions.tsx:60-67).
- **The "N New" badge.** It counts only rows whose status is `new`
  (pages/admin/ContactSubmissions.tsx:195). It is not a count of missing-or-new statuses
  from a live subscription.

## Model

| member | source | states |
|---|---|---|
| `Text.IsWhitespace` | pages/admin/Projects/ProjectForm.tsx:54 | space, tab, newline and carriage return count as whitespace, and no ASCII letter or digit does |
| `Text.TrimStart` | pages/admin/Projects/ProjectForm.tsx:54 | the result is a suffix of the input, everything dropped is whitespace, and it does not start with whitespace |
| `Text.TrimEnd` | pages/admin/Projects/ProjectForm.tsx:54 | the result is a prefix of the input, everything dropped is whitespace, and it does not end with whitespace |
| `Text.Trim` | pages/admin/Projects/ProjectForm.tsx:54 | `trim()` is a contiguous run of the input with only whitespace before and after it and none at either of its own ends; it is empty exactly when the input is all whitespace, so `if (x.trim())` tests for a non-whitespace character |
| `Text.TrimIdempotent` | pages/admin/Projects/ProjectForm.tsx:55 | trimming a trimmed entry changes nothing |
| `Text.LowerChar` | pages/admin/ContactSubmissions.tsx:143 | the result is never an ASCII capital; capitals move to their small letter; other characters are kept |
| `Text.Lower` | pages/admin/Projects/ProjectList.tsx:55 | `toLowerCase` keeps the length and lower-cases each character |
| `Text.LowerIdempotent` | pages/admin/Projects/ProjectList.tsx:55 | lower-casing twice equals lower-casing once |
| `Text.IsSubstring` | pages/admin/ContactSubmissions.tsx:143-145 | `includes` succeeding implies the needle is no longer than the haystack; `IsSubstringIff` gives the exact condition |
| `Text.IsSubstringIff` | pages/admin/ContactSubmissions.tsx:143-145 | the left-to-right `includes` scan succeeds exactly when the needle occurs at some position of the haystack |
| `Text.EmptyIsSubstring` | pages/admin/Projects/ProjectList.tsx:54-57 | the empty search term occurs in every string |
| `Lists.Filter` | pages/admin/ContactSubmissions.tsx:141-150 | `filter` returns an order-preserving subsequence, no longer than its input, holding exactly the elements that satisfy the predicate, each as many times as it occurs in the input |
| `Lists.FilterKeepsAll` | pages/admin/Projects/ProjectList.tsx:54-57 | a filter whose predicate holds for every element returns its input unchanged |
| `Lists.FilterAgrees` | pages/admin/Projects/ProjectList.tsx:54-57 | predicates that agree on every element give equal filters |
| `Lists.RemoveIndex` | pages/admin/Projects/ProjectForm.tsx:60-62 | filtering out index `i` yields `s[..i] + s[i+1..]` when `0 <= i < \|s\|`, and `s` unchanged for any other index |
| `ContactInbox.FindById` | pages/admin/ContactSubmissions.tsx:73-74 | `find` returns nothing exactly when no row has the id; otherwise it returns the first row with that id, and with unique ids it is the only one |
| `ContactInbox.Rows` | pages/admin/ContactSubmissions.tsx:48 | `data \|\| []`: the fetched rows, or the empty list when the query returned none |
| `ContactInbox.MatchesSearch` | pages/admin/ContactSubmissions.tsx:142-145 | the empty term matches every submission |
| `ContactInbox.MatchesFilter` | pages/admin/ContactSubmissions.tsx:147 | a row passes the tab exactly when the tab is "all" or names its status |
| `ContactInbox.FilteredSubmissions` | pages/admin/ContactSubmissions.tsx:141-150 | the inbox view is an order-preserving subsequence; a row is kept iff the lower-cased term occurs in its lower-cased name, email or subject (missing reads as `""`) and the tab is "all" or equals its status; every copy of a kept row stays |
| `ContactInbox.UnfilteredViewIsWhole` | pages/admin/ContactSubmissions.tsx:141-150 | an empty search on the "all" tab shows the whole list |
| `ContactInbox.NewCount` | pages/admin/ContactSubmissions.tsx:195 | the badge is at most the list length, and is zero exactly when no row is `new` |
| `ContactInbox.NewCountIsFilter` | pages/admin/ContactSubmissions.tsx:195 | the badge equals the length of the list filtered to `new` rows |
| `ContactInbox.SetStatus` | pages/admin/ContactSubmissions.tsx:61 | the mapped list has the same length; rows with the id differ only in their status, which becomes the new status; every other row is unchanged |
| `ContactInbox.SetStatusAbsent` | pages/admin/ContactSubmissions.tsx:61 | marking an id that no row carries leaves the list unchanged |
| `ContactInbox.SetStatusKeepsIds` | pages/admin/ContactSubmissions.tsx:61 | marking keeps the set of ids and their uniqueness |
| `ContactInbox.SetStatusNewCount` | pages/admin/ContactSubmissions.tsx:195 | with unique ids, marking one row moves the badge down by one when it leaves `new`, up by one when it enters `new`, and not at all otherwise |
| `ContactInbox.InsertionPoint` | pages/admin/ContactSubmissions.tsx:131 | the restored row's place: every row before it is strictly newer, and the row at it is not newer |
| `ContactInbox.InsertByDateSplit` | pages/admin/ContactSubmissions.tsx:131 | one stable-sort step puts the row at its insertion point, with the rows before and after it unchanged and in order |
| `ContactInbox.InsertKeepsBound` | pages/admin/ContactSubmissions.tsx:131 | inserting a row no newer than a bound into rows no newer than it gives rows no newer than it |
| `ContactInbox.InsertKeepsSorted` | pages/admin/ContactSubmissions.tsx:131 | inserting into a newest-first list keeps it newest first |
| `ContactInbox.InsertMultiset` | pages/admin/ContactSubmissions.tsx:130-131 | inserting adds exactly the inserted row |
| `ContactInbox.SortByDateDesc` | pages/admin/ContactSubmissions.tsx:131 | the sort by `b.created_at - a.created_at` is newest first and keeps the length |
| `ContactInbox.SortIsPermutation` | pages/admin/ContactSubmissions.tsx:131 | the sort is a permutation of its input |
| `ContactInbox.SortedIsFixed` | pages/admin/ContactSubmissions.tsx:131 | sorting a newest-first list returns it unchanged |
| `ContactInbox.UndoPosition` | pages/admin/ContactSubmissions.tsx:129-132 | on a newest-first list, undo places the restored row at its date position, and the other rows keep their order |
| `ContactInbox.InsertKeepsIdAbsent` | pages/admin/ContactSubmissions.tsx:130-131 | inserting a row without an id into rows without it gives rows without it |
| `ContactInbox.InsertKeepsIds` | pages/admin/ContactSubmissions.tsx:130-131 | inserting a row whose id is absent keeps ids unique |
| `ContactInbox.PermutationKeepsIds` | pages/admin/ContactSubmissions.tsx:131 | a permutation has the same set of ids |
| `ContactInbox.SortKeepsIds` | pages/admin/ContactSubmissions.tsx:131 | sorting keeps the set of ids and their uniqueness |
| `ContactInbox.RemoveById` | pages/admin/ContactSubmissions.tsx:83 | no remaining row carries the id |
| `ContactInbox.RemoveByIdIsFilter` | pages/admin/ContactSubmissions.tsx:83 | the optimistic removal equals `filter(s => s.id !== id)` |
| `ContactInbox.RemoveByIdSpec` | pages/admin/ContactSubmissions.tsx:83 | the optimistic removal leaves no row with the id, keeps every other row in order and as many times as before, removes exactly that id from the id set, and keeps ids unique |
| `ContactInbox.SubsequenceKeepsUnique` | pages/admin/ContactSubmissions.tsx:83 | leaving rows out cannot create a duplicate id or a new row |
| `ContactInbox.ResyncedRows` | pages/admin/ContactSubmissions.tsx:110 | corrected re-sync: a subsequence of the re-fetched rows that drops only rows with the undo slot's id and keeps every other row as many times as fetched; ids stay unique |
| `ContactInbox.UndoKeepsCoherent` | pages/admin/ContactSubmissions.tsx:129-132 | putting the held row back into a list that lacks its id, and sorting, gives a list with unique ids |
| `ContactInbox.HoldKeepsCoherent` | pages/admin/ContactSubmissions.tsx:83-84 | removing the row from a list with unique ids leaves a list with unique ids that lacks the held row's id |
| `ContactInbox.Inbox.constructor` | pages/admin/ContactSubmissions.tsx:18-26 | empty list, empty search, "all" tab, no selection, empty slot, no toast, empty logs; both invariants hold |
| `ContactInbox.Inbox.Visible` | pages/admin/ContactSubmissions.tsx:141-150 | the displayed list is an order-preserving subsequence of the page's list; every shown row matches the search and the tab, and every matching row is shown as many times as it is in the list |
| `ContactInbox.Inbox.SetSearchTerm` | pages/admin/ContactSubmissions.tsx:204 | the search box sets the term |
| `ContactInbox.Inbox.SetFilter` | pages/admin/ContactSubmissions.tsx:213 | a tab sets the status filter |
| `ContactInbox.Inbox.FetchSubmissions` | pages/admin/ContactSubmissions.tsx:38-51 | success replaces the list with the rows (`[]` for none); an error keeps it |
| `ContactInbox.Inbox.ApplyMarkAs` | pages/admin/ContactSubmissions.tsx:53-69 | one status update is always sent; on success only the rows with the id change, and only their status; the selection follows only if the captured selection was that row; on error the list and selection are unchanged; coherence is kept |
| `ContactInbox.Inbox.MarkAs` | pages/admin/ContactSubmissions.tsx:53-69 | `handleMarkAs` from the current render: as above, with the captured selection being the current one |
| `ContactInbox.Inbox.Select` | pages/admin/ContactSubmissions.tsx:235-238 | clicking selects the row; a `new` row gets exactly one update to `read`; on success it is marked `read` in the list, and the selection follows only if it was already that row; other rows send nothing |
| `ContactInbox.Inbox.ToggleReplied` | pages/admin/ContactSubmissions.tsx:286 | the detail toggle sends `read` for a `replied` row and `replied` otherwise; on success the list and the selection carry the new status |
| `ContactInbox.Inbox.IssueFinalize` | pages/admin/ContactSubmissions.tsx:97-104 | finalize clears the slot and sends exactly one delete, for that id; accounting is kept when the id is the slot's, and coherence when the list's ids are unique |
| `ContactInbox.Inbox.FinalizeResponse` | pages/admin/ContactSubmissions.tsx:106-118 | success raises the "Permanently deleted" toast and leaves the list; failure, as error or exception, re-fetches the list and leaves the toast; coherence is kept unless the list was re-fetched |
| `ContactInbox.Inbox.FinalizeDelete` | pages/admin/ContactSubmissions.tsx:97-119 | the slot is cleared, exactly one delete for the id is sent, then the response is applied as above; accounting is kept when the id is the slot's, and coherence when the ids, re-fetched or not, are unique |
| `ContactInbox.Inbox.TimerFires` | pages/admin/ContactSubmissions.tsx:89-91 | with an empty slot nothing changes; otherwise the slot's row is finalized (one delete, slot cleared, response applied); accounting is kept, and coherence too when re-fetched rows have unique ids |
| `ContactInbox.Inbox.SuccessToastExpires` | pages/admin/ContactSubmissions.tsx:113 | the toast is hidden |
| `ContactInbox.Inbox.Park` | pages/admin/ContactSubmissions.tsx:88-94 | the slot holds the row, its delete request is recorded and the toast is reset; accounting is kept when the slot was empty |
| `ContactInbox.Inbox.HoldForUndo` | pages/admin/ContactSubmissions.tsx:83-94 | the row leaves the list; the selection is cleared iff it was that row; the slot holds the row; the toast is reset; accounting is kept when the slot was empty, and coherence when the list's ids were unique |
| `ContactInbox.Inbox.ForceAndHold` | pages/admin/ContactSubmissions.tsx:77-94 | the earlier slot's delete is sent, then the found row leaves the list and waits in the slot; both invariants are kept |
| `ContactInbox.Inbox.ForceThenHold` | pages/admin/ContactSubmissions.tsx:77-118 | as above, then the forced delete's response: the toast is raised iff it succeeded, and a failure replaces the list with the re-fetched rows; accounting is kept, and coherence unless the list was re-fetched |
| `ContactInbox.Inbox.DeleteFound` | pages/admin/ContactSubmissions.tsx:76-94 | a waiting delete is sent first; the found row is held; the toast ends up raised only when a forced delete succeeded; a failed forced delete re-fetches after the removal; no delete for the new row is sent; accounting is kept |
| `ContactInbox.Inbox.HandleDelete` | pages/admin/ContactSubmissions.tsx:71-95 | an unknown id changes nothing and sends nothing; otherwise the slot holds exactly the found row, only the earlier slot's id is sent, the row is gone with the others in order, the selection is cleared iff it was that row, accounting is kept and coherence too unless a failed forced delete re-fetched |
| `ContactInbox.Inbox.HandleDeleteKeepingPending` | pages/admin/ContactSubmissions.tsx:71-119 | corrected `handleDelete`: as `HandleDelete`, except that a failed forced delete replaces the list with the re-fetched rows minus the row in the slot; it keeps accounting, and coherence whenever re-fetched rows have unique ids |
| `ContactInbox.Inbox.DeleteFoundKeepingPending` | pages/admin/ContactSubmissions.tsx:76-119 | as `DeleteFound`, with the corrected re-sync after a failed forced delete; coherence is kept whenever re-fetched rows have unique ids |
| `ContactInbox.Inbox.ForceThenHoldKeepingPending` | pages/admin/ContactSubmissions.tsx:77-119 | as `ForceThenHold`, with the corrected re-sync; the toast is raised iff the forced delete succeeded |
| `ContactInbox.Inbox.FinalizeResponseKeepingPending` | pages/admin/ContactSubmissions.tsx:106-118 | corrected response: success raises the toast and keeps the list; failure keeps the toast and replaces the list with the re-fetched rows minus the row in the slot; coherence is kept when those rows have unique ids |
| `ContactInbox.Inbox.Undo` | pages/admin/ContactSubmissions.tsx:121-139 | with an empty slot nothing changes; otherwise the list becomes the newest-first sort of the held row plus the old list, the slot is cleared, no delete is sent, and both invariants are kept |
| `ContactInbox.ResyncResurrectsPending` | pages/admin/ContactSubmissions.tsx:106-110 | as written: delete `a`, delete `b`, the forced delete of `a` fails and the re-fetch returns both rows; undo then shows `b` twice |
| `ContactInbox.ResyncKeepsPendingOut` | pages/admin/ContactSubmissions.tsx:106-110 | with the corrected re-sync the same steps show `b` then `a`, once each |
| `ProjectEditor.WithDefaults` | pages/admin/Projects/ProjectForm.tsx:43-48 | a loaded row keeps its title; missing sponsor, banner and summary become `""` and missing services and results become `[]`; every present value is kept |
| `ProjectEditor.LoadAfterSave` | pages/admin/Projects/ProjectForm.tsx:137-144 | loading back what a save stored reproduces the form's fields |
| `ProjectEditor.AddEntry` | pages/admin/Projects/ProjectForm.tsx:53-58 | an input with a non-whitespace character is appended trimmed and the input is cleared; a blank input leaves list and input unchanged |
| `ProjectEditor.AddedEntryIsTrimmed` | pages/admin/Projects/ProjectForm.tsx:55 | an appended entry is non-empty, has no surrounding whitespace, and trimming it again changes nothing |
| `ProjectEditor.RemoveUndoesAdd` | pages/admin/Projects/ProjectForm.tsx:55-61 | removing the last index after an add restores the list |
| `ProjectEditor.IsEditingId` | pages/admin/Projects/ProjectForm.tsx:9 | `!!id`: editing exactly when the route has a non-empty id |
| `ProjectEditor.ProjectFormPage.constructor` | pages/admin/Projects/ProjectForm.tsx:14-22 | the form starts with every field empty, nothing sent and on the form page |
| `ProjectEditor.ProjectFormPage.FetchProject` | pages/admin/Projects/ProjectForm.tsx:31-51 | an error leaves the form and keeps the fields; a row sets the fields to its defaulted values; no row changes nothing |
| `ProjectEditor.ProjectFormPage.SetNewService` | pages/admin/Projects/ProjectForm.tsx:304 | the new-service input holds what was typed |
| `ProjectEditor.ProjectFormPage.SetNewResult` | pages/admin/Projects/ProjectForm.tsx:342 | the new-result input holds what was typed |
| `ProjectEditor.ProjectFormPage.AddService` | pages/admin/Projects/ProjectForm.tsx:53-58 | services and the new-service input follow the add-entry rule |
| `ProjectEditor.ProjectFormPage.RemoveService` | pages/admin/Projects/ProjectForm.tsx:60-62 | exactly the entry at the index is dropped when it exists; otherwise services are unchanged |
| `ProjectEditor.ProjectFormPage.AddResult` | pages/admin/Projects/ProjectForm.tsx:64-69 | results and the new-result input follow the add-entry rule |
| `ProjectEditor.ProjectFormPage.RemoveResult` | pages/admin/Projects/ProjectForm.tsx:71-73 | exactly the entry at the index is dropped when it exists; otherwise results are unchanged |
| `ProjectEditor.ProjectFormPage.RemoveImage` | pages/admin/Projects/ProjectForm.tsx:128-131 | the banner becomes `""` and no other field changes |
| `ProjectEditor.ProjectFormPage.Submit` | pages/admin/Projects/ProjectForm.tsx:133-167 | one write is sent: an update of the routed id when editing, an insert otherwise, carrying the title, sponsor, banner, summary, services and results as they are; the page leaves the form only when the write reports no error |
| `ProjectCatalog.ProjectMatches` | pages/admin/Projects/ProjectList.tsx:55-56 | the empty term matches every project |
| `ProjectCatalog.FilteredProjects` | pages/admin/Projects/ProjectList.tsx:54-57 | the shown projects are an order-preserving subsequence; a project is kept iff the lower-cased term occurs in its lower-cased title, or in its lower-cased sponsor when present; every copy of a kept project stays |
| `ProjectCatalog.EmptySearchShowsAll` | pages/admin/Projects/ProjectList.tsx:54-57 | with an empty term every project is shown |
| `ProjectCatalog.SearchIgnoresCase` | pages/admin/Projects/ProjectList.tsx:55-56 | a term and its lower-cased form show the same projects |
| `ProjectCatalog.RemoveProject` | pages/admin/Projects/ProjectList.tsx:50 | no project with the id remains, and every other project is kept in order and as many times as before |
| `ProjectCatalog.ProjectListPage.constructor` | pages/admin/Projects/ProjectList.tsx:15-17 | an empty list and search, nothing sent |
| `ProjectCatalog.ProjectListPage.Visible` | pages/admin/Projects/ProjectList.tsx:54-57 | the shown rows are an order-preserving subsequence of the list; every shown row matches the term, and every matching row is shown as many times as it is in the list |
| `ProjectCatalog.ProjectListPage.SetSearchTerm` | pages/admin/Projects/ProjectList.tsx:86 | the search box sets the term |
| `ProjectCatalog.ProjectListPage.FetchProjects` | pages/admin/Projects/ProjectList.tsx:23-36 | success replaces the list with the rows (`[]` for none); an error keeps it |
| `ProjectCatalog.ProjectListPage.HandleDelete` | pages/admin/Projects/ProjectList.tsx:38-52 | a declined confirmation sends nothing and keeps the list; a confirmed delete sends one delete for the id, then removes exactly the rows with that id on success and keeps the list on error |

## Findings

| source | as written | input that shows it | evidently intended | confidence | as-written member | corrected member |
|---|---|---|---|---|---|---|
| pages/admin/ContactSubmissions.tsx:77-80, :106-110 | When a forced delete fails, the re-sync fetches the whole list. It puts back the row that `handleDelete` has just moved to the undo slot, because that row's delete has not been sent yet. | Rows `b` (newer) and `a`. Delete `a`, then delete `b` before `a`'s timer ends. The forced delete of `a` fails and the re-fetch returns `[b, a]`. `b` is now shown and waiting in the slot at once, and Undo shows `b` twice. | The re-sync should leave out the row still waiting in the undo slot. | medium; not executed | `ContactInbox.ResyncResurrectsPending` | `ContactInbox.Inbox.HandleDeleteKeepingPending` |

`ContactInbox.Inbox.HandleDelete` models the code as written. Its coherence guarantee
therefore leaves out the failed-forced-delete case. `HandleDeleteKeepingPending` applies
the correction through `ResyncedRows` and keeps coherence in every case where the
database returns rows with unique ids.

## Left out

- Remote calls are not executed. Their outcomes are parameters, and the calls are ghost
  logs.
- Interleavings are not modelled. The model does not cover another user event arriving
  between a remote call and its response, or two outstanding responses arriving out of
  order.
- The 5 s and 3 s timer durations, React's batching of state updates, and the unmount
  cleanup are not modelled. The cleanup captures the initial empty slot, so it never
  cancels a timer.
- Loading and uploading flags, `alert`s and console logging are not modelled. They only
  affect what is displayed.
- Image upload, file selection and drag-and-drop in the project form are not modelled.
  They use the storage API and a random file name.
- The title, sponsor, summary and other plain input bindings are not modelled. They are
  direct field assignments. The mobile "close" button of the detail pane is also left out.
- Status colours, date formatting and other rendering are not modelled.
- `Text.Lower`: only ASCII capitals are lower-cased, whereas `toLowerCase` folds all of
  Unicode.
- `ContactInbox.SortByDateDesc`: `created_at` is an integer. Date-string parsing, and the
  `NaN` a malformed date would give the comparator, are not modelled.
- `ContactInbox.Submission`: `status` is always one of the three values. A missing status
  stored in the database is not modelled.
- `ProjectEditor.WithDefaults`: a stored row is assumed to have a title, because the code
  takes `data.title` without a default.
- `ProjectEditor.ProjectFormPage.Submit`: the browser's own check of the required title
  is a precondition. The disabled-while-loading submit button is not modelled.
- The realtime unread-count subscription, the dashboard, login and session handling of
  the admin layout, the public pages, and the database client are not part of this model.
