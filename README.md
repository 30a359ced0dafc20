# Habit tracker: store, lifecycle, form and page, modelled in Dafny

This project models the core of a small browser habit tracker. The user creates
habits, ticks off the days on which they kept them, and marks each habit as
completed or archived. All habit data lives in one `localStorage` slot.

The model has one module per source file, plus one for the shared sequence facts:

- `Seqs` (`seqs.dfy`): two of the array methods the application uses,
  `filter` and `findIndex`, as functions on sequences (`map`, `find`,
  `includes` and `push` appear directly as sequence operations), with the facts the rest
  uses about them.
- `Habits` (`habits.dfy`): the record shapes of `src/types/habit.ts`
  (`HabitStatus` at line 1, `Habit` at lines 3-12, `HabitFormData` at lines
  14-18), and the id lookup and id removal that the store and the page share.
- `Storage` (`storage.dfy`): `src/utils/storage.ts`, the class `HabitStore`.
  - Its field `slot` is the parsed content of the storage slot: nothing, an
    array of records, or an unparseable `Invalid` payload.
  - Its constant `available` says whether a browser window exists.
  - A record read back carries the only version marker the code has: whether
    it has an `isCompleted` property. `Current` records have it;
    `Unversioned` ones do not.
  - `Loaded()` is the list `getHabits` would return in the current state.
  - Every mutation is specified as the slot it leaves, written in terms of
    `Loaded()`.
- `Page` (`page.dfy`): `src/app/page.tsx`.
  - The class `Home` holds the in-memory list and the status filter.
  - Alongside it are the counts, the filter, and the add, update and delete
    reducers.
  - The predicate `InSync()` says that the page's list is the store's list.
- `Lifecycle` (`lifecycle.dfy`): `src/components/HabitList.tsx`.
  - Progress percentage (with `Math.round` done exactly on integers).
  - The date toggle and its "target reached" signal.
  - The guards that decide what each status offers.
  - The class `HabitList`, with the expanded habit, the pending confirmation
    and the handlers. The handlers write to the store and call back into the
    page.
  - Each handler states what the store's list, the page's list and the
    confirmation become. It also proves that a page in sync with the store,
    with unique ids, stays so. For completing and archiving this holds when
    the id is among the listed habits: the handlers look the record up in
    the filtered list the page passes down.
- `Form` (`form.dfy`): `src/components/HabitForm.tsx`.
  - The ECMAScript `trim`.
  - The default form data and the presets.
  - The slider's range.
  - The class `HabitForm`, whose `HandleSubmit` builds the new record, stores
    it, appends it to the page and resets the form.

Where the code is weaker than a reader of its design might assume, the model
follows the code. Lemmas state each gap:

- Migration never repairs `isCompleted`. Any record that already carries the
  flag passes through as it is, so a record can be read back with a status
  that disagrees with its flag (`MigrateHabit`, `MigrateTwice`).
- `completedDates` is a list, not a set. Toggling a present date removes every
  copy of it, and toggling it again appends it at the end. So a double toggle
  restores the set of dates but not always the list (`ToggleTwice`,
  `ToggleTwiceReorders`).
- `archiveHabit` does not clear `isCompleted`. Archiving a completed habit
  leaves a record whose flag says completed and whose status says archived
  (`ArchivingCompletedBreaksConsistency`).
- The page's update reducer replaces every record with the id. The store
  replaces only the first. They agree whenever ids are unique; when the
  updated record's id is repeated they can differ
  (`ReplaceByIdAgreesWithStore`, `DuplicateIdsDiverge`).

## Model

| member | source | states |
|---|---|---|
| Seqs.Filter | src/utils/storage.ts:61 | `filter`: never longer, and an element is kept exactly when it is in the input and passes the test |
| Seqs.FindIndex | src/utils/storage.ts:52 | `findIndex`: -1 exactly when no element passes, otherwise the first index whose element passes |
| Habits.IndexOfId | src/utils/storage.ts:52 | `findIndex` by id: -1 exactly when no record has the id, otherwise the first index whose record has it |
| Habits.WithoutId | src/utils/storage.ts:61 | removing an id keeps exactly the records with another id and nothing else, never growing the list |
| Habits.WithoutIdAppend | src/utils/storage.ts:59-63 | removal keeps the remaining records in their order (distributes over concatenation) |
| Habits.WithoutAbsentId | src/utils/storage.ts:59-63 | removing an id no record has leaves the list unchanged |
| Habits.WithoutIdIdempotent | src/app/page.tsx:140-142 | deleting the same id twice is deleting it once |
| Habits.WithoutIdNotFound | src/utils/storage.ts:59-63 | after a removal no record has the id |
| Habits.WithoutIdKeeps | src/utils/storage.ts:59-63 | removal preserves unique ids and the consistency of every record |
| Habits.AppendFreshKeepsUniqueIds | src/app/page.tsx:95 | appending a record with an unused id keeps ids unique |
| Storage.TargetOrDefault | src/utils/storage.ts:17 | the default `target or 21`: an absent or zero target becomes 21, any other target is kept, the result is never zero |
| Storage.MigrateHabit | src/utils/storage.ts:7-20 | a record with `isCompleted` passes unchanged; an older one keeps id, title, description, dates and timestamp, gets `isCompleted == (status == completed)`, has status 'new' made active and every other status kept, and has an absent or zero target made 21 and every other target kept |
| Storage.LegacyNewRecordMigrates | src/utils/storage.ts:14-20 | a legacy record with status 'new', no dates and no target becomes active, not completed, with target 21 |
| Storage.MigrateHabits | src/utils/storage.ts:6-22 | migration keeps the length and order and migrates each record on its own |
| Storage.Serialized | src/utils/storage.ts:41 | what `JSON.stringify` of a list reads back as: the same records in the same order, each carrying `isCompleted` and so read back as current |
| Storage.SaveThenLoad | src/utils/storage.ts:39-42 | what `saveHabits` writes reads back through `getHabits` as the same list |
| Storage.MigrateTwice | src/utils/storage.ts:9-11 | migrating, saving and migrating again equals migrating once |
| Storage.UnversionedMigratesConsistent | src/utils/storage.ts:14-20 | a payload written entirely by the older schema migrates to records whose flag agrees with their status |
| Storage.MarkCompleted | src/utils/storage.ts:70-74 | sets status completed and `isCompleted` true, and changes no other field |
| Storage.MarkArchived | src/utils/storage.ts:84-87 | sets status archived, leaves `isCompleted` and every other field as it was; the result is consistent exactly when the flag was false |
| Storage.AtFirstId | src/utils/storage.ts:52-55 | only the first record with the id is changed and the length is kept; with no such record nothing changes |
| Storage.AtFirstIdKeepsIds | src/utils/storage.ts:50-57 | a change that keeps the id keeps every id of the list, so unique ids stay unique |
| Storage.AtFirstIdKeepsConsistent | src/utils/storage.ts:65-77 | a change that yields a consistent record keeps a consistent list consistent |
| Storage.DeletionIsFinal | src/utils/storage.ts:59-90 | after a delete, updating, completing or archiving the same id changes nothing |
| Storage.ArchivingCompletedBreaksConsistency | src/utils/storage.ts:84-87 | archiving a consistent completed record leaves its flag disagreeing with its status |
| Storage.HabitStore.Loaded | src/utils/storage.ts:24-37 | the list `getHabits` returns in the current state: empty without a window, for an empty slot or an unparseable one, otherwise one habit per stored record |
| Storage.HabitStore.Saved | src/utils/storage.ts:39-42 | the slot after `saveHabits`: without a window the old slot; with one a list of records that migrates back to exactly the saved list |
| Storage.HabitStore.GetHabits | src/utils/storage.ts:24-37 | empty without a window, for an empty slot and for an unparseable payload; otherwise the migrated records, same length and order |
| Storage.HabitStore.SaveHabits | src/utils/storage.ts:39-42 | with a window the slot holds exactly the given list, which is what is then loaded; without one nothing changes |
| Storage.HabitStore.AddHabit | src/utils/storage.ts:44-48 | the slot holds the loaded list followed by the new record, one longer; without a window nothing changes |
| Storage.HabitStore.UpdateHabit | src/utils/storage.ts:50-57 | the first record with the id is replaced and saved; with none the slot is not written |
| Storage.HabitStore.DeleteHabit | src/utils/storage.ts:59-63 | with a window, the slot receives the list without the id, even when nothing matched; without one it is unchanged; the id is then absent |
| Storage.HabitStore.CompleteHabit | src/utils/storage.ts:65-77 | the first record with the id is marked completed and saved; with none the slot is not written |
| Storage.HabitStore.ArchiveHabit | src/utils/storage.ts:79-90 | the first record with the id is marked archived and saved; with none the slot is not written |
| Page.WithStatus | src/app/page.tsx:48-50 | the records of one status: exactly those of the list that have it |
| Page.FilteredHabits | src/app/page.tsx:53-56 | 'all' keeps the list; any other filter keeps exactly the records of that status |
| Page.FilteredAppend | src/app/page.tsx:53-56 | filtering keeps the original order |
| Page.CountsOf | src/app/page.tsx:46-51 | `all` is the list length and no status count exceeds it |
| Page.CountsMatchFilters | src/app/page.tsx:46-51 | each count equals the length of the list its filter shows |
| Page.CountsAddUp | src/app/page.tsx:46-51 | when every status is one of the three, the three counts sum to `all` |
| Page.StatusesPartition | src/app/page.tsx:48-50 | the three status filters together take every record of a list without other statuses exactly once |
| Page.ReplaceById | src/app/page.tsx:136-138 | the update reducer keeps length and ids, puts the update at every matching id and leaves every other record alone |
| Page.ReplaceByIdIdempotent | src/app/page.tsx:135-139 | applying the same update twice is applying it once |
| Page.ReplaceByIdAgreesWithStore | src/app/page.tsx:135-139 | with unique ids the page's reducer gives the same list as the store's `updateHabit` |
| Page.ReplaceListedAgreesWithStore | src/app/page.tsx:135-139 | with unique ids, replacing a listed record by a changed copy agrees with the store changing that id |
| Page.DuplicateIdsDiverge | src/app/page.tsx:136-138 | with a repeated id the page replaces both records while the store replaces only the first |
| Page.ReducersKeepUniqueIds | src/app/page.tsx:135-142 | the update and delete reducers keep ids unique |
| Page.ShowsForm | src/app/page.tsx:93 | the creation form is rendered only under the filters 'all' and 'active' |
| Page.AddedHabitShown | src/app/page.tsx:93-95 | under the filters that show the form an appended active habit appears at the end of the visible list; under the others it is not shown |
| Page.Home.constructor | src/app/page.tsx:11-12 | the page starts with no habits and the 'all' filter |
| Page.Home.Load | src/app/page.tsx:16-17 | the mount effect puts the page's list in sync with the store |
| Page.Home.SetFilter | src/app/page.tsx:12 | changing the filter leaves the list alone |
| Page.Home.OnHabitAdded | src/app/page.tsx:95 | the new habit is appended at the end |
| Page.Home.OnHabitUpdate | src/app/page.tsx:135-139 | the list becomes the update reducer's result |
| Page.Home.OnHabitDelete | src/app/page.tsx:140-142 | the list becomes the list without the id |
| Lifecycle.RoundHalfUp | src/components/HabitList.tsx:24 | `Math.round` of an exact quotient: the integer r with r <= num/den + 1/2 < r + 1 |
| Lifecycle.HasTarget | src/components/HabitList.tsx:23 | a target counts when it is present and not zero |
| Lifecycle.CappedPercent | src/components/HabitList.tsx:24 | for a positive target the capped percentage lies in [0,100], is 100 once the dates reach it and the rounded ratio before; for a negative target it is the rounded ratio, never above 0 |
| Lifecycle.CompletionPercentage | src/components/HabitList.tsx:22-25 | 0 without a target or with target 0; for a positive target between 0 and 100, exactly 100 once `n >= target` and the rounded `100n/target` below it; for a negative target (which migration keeps) the rounded `100n/target`, never above 0 |
| Lifecycle.ProgressBounds | src/components/HabitList.tsx:24 | for a positive target, the rounded ratio is non-negative, at least 100 from the target on and at most 100 below it |
| Lifecycle.NegativeTargetBound | src/components/HabitList.tsx:24 | with a negative target the rounded ratio is never positive |
| Lifecycle.NoDatesNoProgress | src/components/HabitList.tsx:22-25 | a habit without dates reads 0% whatever its target |
| Lifecycle.NegativeTargetExample | src/components/HabitList.tsx:22-25 | a stored target of -1 with one date reads -100% |
| Lifecycle.ProgressMonotone | src/components/HabitList.tsx:22-25 | with the same positive target, more dates never show less progress |
| Lifecycle.FullProgressBeforeTarget | src/components/HabitList.tsx:24 | with target 200, 199 dates already read 100% while the target is not reached |
| Lifecycle.IsCompletedOn | src/components/HabitList.tsx:52 | `completedDates.includes(date)` |
| Lifecycle.WithoutDate | src/components/HabitList.tsx:53 | dropping a date removes every copy of it and keeps every other date with its number of repeats |
| Lifecycle.WithoutDateAppend | src/components/HabitList.tsx:53 | dropping a date keeps the other dates in their order (distributes over concatenation) |
| Lifecycle.ToggleDate | src/components/HabitList.tsx:49-56 | only the dates change; an absent date is appended at the end; a present one is dropped with every copy while the other dates keep their order and repeats, so the list gets shorter; afterwards a date is present exactly when its presence flipped |
| Lifecycle.TargetReached | src/components/HabitList.tsx:59 | the signal's test: a target is set and the dates reach it |
| Lifecycle.ReachedMeansFull | src/components/HabitList.tsx:38 | a reached positive target shows as 100% |
| Lifecycle.ToggleTwice | src/components/HabitList.tsx:52-56 | toggling a date twice restores the set of dates, and the exact record when the date was absent |
| Lifecycle.ToggleTwiceReorders | src/components/HabitList.tsx:52-56 | toggling the first of two present dates twice moves it to the end |
| Lifecycle.ToggleKeepsNoDuplicates | src/components/HabitList.tsx:49-56 | on a list without repeats the toggle keeps it without repeats and changes its length by exactly one |
| Lifecycle.TargetSignalOnSecondDate | src/components/HabitList.tsx:58-64 | from target 2 and no dates the first new date does not raise the signal and the second does |
| Lifecycle.OffersTodayToggle | src/components/HabitList.tsx:190 | the today button exists unless the habit is completed or archived |
| Lifecycle.OffersArchive | src/components/HabitList.tsx:259 | the archive button exists only for active habits |
| Lifecycle.ShowsProgress | src/components/HabitList.tsx:312 | the progress bar shows for active habits with a target |
| Lifecycle.OffersCalendar | src/components/HabitList.tsx:351 | the calendar shows for an expanded habit unless it is archived |
| Lifecycle.OfferedByStatus | src/components/HabitList.tsx:190 | active habits offer the today toggle, archiving and the calendar; completed ones only the calendar; archived ones none (guards at lines 190, 259 and 351) |
| Lifecycle.NoReturnToActive | src/components/HabitList.tsx:70-87 | nothing offered brings a completed or archived habit back to active: toggles keep the status, completing sets completed, archiving is not offered |
| Lifecycle.CompletedHabitsStillGainDates | src/components/HabitList.tsx:351 | a completed habit has no today toggle but keeps the calendar, through which it gains dates and stays completed |
| Lifecycle.NextExpanded | src/components/HabitList.tsx:102-108 | the expanded id collapses to none; any other id becomes the expanded one |
| Lifecycle.HabitList.constructor | src/components/HabitList.tsx:15-19 | nothing expanded and no pending confirmation |
| Lifecycle.HabitList.Toggled | src/components/HabitList.tsx:49-68 | the outcome both toggles share: the 'complete' confirmation exactly when the toggled record reaches its target, the store and the page receive the toggled record, filter and expanded habit kept, sync and unique ids kept |
| Lifecycle.HabitList.SaveToggled | src/components/HabitList.tsx:58-67 | a pending 'complete' is raised exactly when the toggled record reaches its target; store and page receive the toggled record; sync and unique ids are kept |
| Lifecycle.HabitList.HandleToggleDate | src/components/HabitList.tsx:49-68 | reached only through the calendar of an expanded, unarchived habit; a pending 'complete' is raised exactly when the toggled record reaches its target; store and page receive the toggled record; sync and unique ids are kept |
| Lifecycle.HabitList.ToggleHabitStatus | src/components/HabitList.tsx:27-47 | reached only through the today button of a habit neither completed nor archived; the same outcome as the date toggle, for today's date |
| Lifecycle.HabitList.HandleComplete | src/components/HabitList.tsx:70-78 | the store marks the id completed, the page receives the listed record marked completed, the confirmation clears; when the id is among the listed habits, sync and unique ids are kept |
| Lifecycle.HabitList.HandleArchive | src/components/HabitList.tsx:80-87 | the store marks the id archived, the page receives the listed record marked archived, the confirmation clears; when the id is among the listed habits, sync and unique ids are kept |
| Lifecycle.HabitList.HandleDelete | src/components/HabitList.tsx:89-94 | only records a pending delete; store and page are untouched |
| Lifecycle.HabitList.ConfirmDelete | src/components/HabitList.tsx:96-100 | store and page both drop the id and the confirmation clears; sync and unique ids are kept |
| Lifecycle.HabitList.RequestArchive | src/components/HabitList.tsx:259-261 | the archive button, present only for an active habit, only records a pending archive |
| Lifecycle.HabitList.Cancel | src/components/HabitList.tsx:140 | the dialog's Cancel clears the pending action and nothing else |
| Lifecycle.HabitList.Confirm | src/components/HabitList.tsx:145-166 | the dialog, rendered only while some habit is listed, runs the handler its kind names, with that handler's full outcome for the store's slot and list, the page's list and sync; the filter is kept and then no action is pending; with none pending nothing changes |
| Lifecycle.HabitList.ToggleExpand | src/components/HabitList.tsx:102-108 | the expanded id becomes `NextExpanded` of the old one |
| Form.IsWhitespace | src/components/HabitForm.tsx:22 | the white space and line terminator characters that `trim` removes |
| Form.Blank | src/components/HabitForm.tsx:22 | a string made only of those characters |
| Form.Lead | src/components/HabitForm.tsx:22 | the number of leading white space characters: all of them white space, the next one not |
| Form.Trail | src/components/HabitForm.tsx:22 | where the trailing white space begins: everything after it white space, the character before it not |
| Form.Trim | src/components/HabitForm.tsx:22 | `trim` is empty exactly for an all-white-space string; otherwise it is the contiguous middle starting and ending with a non-white-space character, with only white space cut away |
| Form.TrimIdempotent | src/components/HabitForm.tsx:26 | trimming twice is trimming once |
| Form.TrimOfTrimmed | src/components/HabitForm.tsx:26 | a string without surrounding white space is its own trim |
| Form.FormConstants | src/components/HabitForm.tsx:12-16 | the initial form data is empty texts with target 21, and the four presets (lines 41-46) have targets 30, 30, 21 and 21 |
| Form.TargetInRange | src/components/HabitForm.tsx:133-134 | a target the slider can produce: present and from 1 to 100 |
| Form.StartingTargetsInRange | src/components/HabitForm.tsx:12-16 | the default target and those of every preset (lines 41-46) lie in the slider's range 1..100 |
| Form.SliderValue | src/components/HabitForm.tsx:135 | the slider shows the target when it is present and non-zero, 21 otherwise |
| Form.NewHabit | src/components/HabitForm.tsx:24-33 | the new record has the given id and timestamp, the trimmed title and description, status active, no dates, `isCompleted` false (so it is consistent) and the form's target |
| Form.NewHabitStartsFresh | src/components/HabitForm.tsx:24-33 | a habit created with a slider target starts at 0%, has not reached its target, and offers the today toggle, archiving, progress and the calendar |
| Form.HabitForm.constructor | src/components/HabitForm.tsx:12-17 | empty title and description, target 21, closed |
| Form.HabitForm.Open | src/components/HabitForm.tsx:56 | opens the form and keeps its fields |
| Form.HabitForm.Close | src/components/HabitForm.tsx:69 | closes the form and keeps its fields |
| Form.HabitForm.SelectPreset | src/components/HabitForm.tsx:48-50 | a preset replaces all three fields |
| Form.HabitForm.EditTitle | src/components/HabitForm.tsx:104 | only the title changes |
| Form.HabitForm.EditDescription | src/components/HabitForm.tsx:118 | only the description changes |
| Form.HabitForm.SlideTarget | src/components/HabitForm.tsx:133-136 | the target becomes the slider's value, in 1..100, and the slider shows it |
| Form.HabitForm.HandleSubmit | src/components/HabitForm.tsx:19-39 | submitted only from the open form under 'all' or 'active'; a blank title changes nothing; otherwise the store and the page both receive the new record at the end, which the visible list shows last, and the form resets to its defaults and closes; sync (with a window) and unique ids (for a fresh id) are kept; a form whose target came from the slider creates a habit that starts at 0% with its progress bar shown |

## Left out

- Reading and writing the text of the slot (`JSON.parse`, `JSON.stringify`, `localStorage.getItem`/`setItem`) is not modelled as text. The slot holds the parsed payload. A record written by `saveHabits` reads back as a `Current` record.
- Payload items that are not objects are folded into the unparseable `Invalid` payload. This covers `null`, numbers, and containers that are not arrays. On some of these the source throws; on others (a number) it builds a malformed record.
- Values the type allows but the model does not: non-integer, `NaN` and non-numeric targets, and non-string statuses or dates.
- `console.error` in the read path is not modelled.
- Exceptions from storage itself are not modelled: `localStorage.getItem` (outside the `try`) and `setItem` (for example when the quota is full) can throw. The model's reads and writes always succeed.
- `typeof window === 'undefined'` is the store's constant `available`.
- `crypto.randomUUID()`, `new Date().toISOString()` and today's date are parameters of the methods that use them.
- CompletionPercentage: `Math.round` is applied to the exact ratio `100n/target`. The source uses floating point, which can differ from exact rounding when the ratio is within rounding error of a half.
- The `HabitCalendar` component, which builds the last seven dates with `Date` and locale formatting, is not modelled. The date it passes to the toggle is a parameter.
- Other parts left out:
  - the chat widget and its webhook;
  - the API route;
  - the layout;
  - dark mode;
  - every piece of JSX rendering and styling, including the filter bar.
- React mechanics are not modelled: batching, stale closures over `habits`, re-renders, and mounting and unmounting. The form's state is in particular not reset when a filter change removes it from the page.
- HandleComplete, HandleArchive: when `habits.find` misses, the source spreads `undefined` into a record with no id. The page's reducer then replaces nothing. The model states that outcome directly as "the page's list is unchanged".
- Form.HabitForm.SlideTarget: the browser keeps a range input's value within `min` and `max`. The model takes that as the method's precondition.

- Lifecycle.HabitList.HandleToggleDate, Lifecycle.HabitList.ToggleHabitStatus, Lifecycle.HabitList.RequestArchive: each precondition is the guard under which the control that calls it is rendered (`OffersCalendar`, `OffersTodayToggle`, `OffersArchive`). The handlers themselves do not check them.
- Lifecycle.HabitList.Confirm: requires a non-empty listed list, since the component returns its empty message before the dialog when no habit is listed. The handler itself does not check it.
- Form.HabitForm.HandleSubmit: requires the form to be open and the filter to be 'all' or 'active', the conditions under which the page and the component render the form. The handler itself does not check them.
