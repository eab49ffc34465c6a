# Ivy Lee task list — a Dafny model of its core

The application is a single-page daily planner built on the Ivy Lee method:
adding a task is refused once six tasks are due today, tasks are filed into buckets, and
incomplete tasks roll over to the next day while a streak counts the days
on which everything was finished. Everything is persisted in the browser's
local storage under four keys (`ivylee:buckets`, `ivylee:tasks`,
`ivylee:streak`, `ivylee:lastDate`).

This project models the logic behind that:

- `wrappers.dfy` (`Wrappers`): `Option`, the rendering of a missing key, a JSON `null` or an absent property. `GetOr` is `readJSON`'s fallback.
- `seqs.dfy` (`Seqs`): order-preserving `Filter`, `Map`, `Subsequence` and `FirstIndex` (the first position of an element), and the facts about them the rest of the model uses.
- `task.dfy` (`Model`): the `Task` and `Bucket` records, the `Partial<Task>` update object (`TaskPatch`) and the object spread that applies it.
- `date.dfy` (`Dates`): `toDateString`, `isBeforeDate` (JavaScript `<` on strings, modelled as lexicographic order on characters) and `isSameDate`. Its main theorem: on valid dates the `YYYY-MM-DD` key orders exactly as the calendar does.
- `storage.dfy` (`Storage`): the local-storage adapter.
  - The store is a record with one optional field per key.
  - Each adapter method is a function from the store before the call to the store after it, plus the return value.
  - It covers legacy-task migration, upsert by id, update, delete, the day rollover with its streak, and the streak and last-date accessors.
- `mention.dfy` (`Mentions`): the `@bucket` mention in the task input, the suggestion list, and how picking a suggestion rewrites the input.
- `calendar.dfy` (`Calendar`): the month grid, the per-day done/total tally and the day colour.
- `bucket_groups.dfy` (`BucketGroups`): the bucket panel's insertion-ordered grouping of tasks, its "Unknown" label, and the multi-selection toggle.
- `today_list.dfy` (`TodayList`): the today list. Its state is a `View` record and each handler is a function from view to view. It covers the six-task cap, add, toggle, delete, the double-tap "complete the bucket" effect, bucket cycling, j/k selection, `Escape`, row clicks, the long-press rename or delete, and the header colour.

Clock reads and id generation are parameters rather than effects:

- `Env.today` is today's date key and `Env.now` is the ISO timestamp.
- `Env.newId(i)` is the id given to the legacy element at index `i`.
- `toDateString` takes the (year, 0-based month, day) fields that `getFullYear`/`getMonth`/`getDate` return.
- `getMonthGrid` takes the weekday of the month's first day and the month's length.

Where the application's documentation and its code disagree, the model follows the code:

- `writeJSON` has no `try`/`catch`, so a failing write is not swallowed. The model has no failing writes at all.
- `readJSON` does fall back on any read or parse failure. This is a `None` field read with `GetOr`.
- `resetDay` looks only at tasks due exactly on the last active date, however many days have passed since then.

## Model

| member | source | states |
|---|---|---|
| Storage.GetStreak | lib/storage.ts:159-161 | a stored streak reads back as stored; a key that is missing or does not parse reads as the fallback 0 |
| Storage.Migrate | lib/storage.ts:45-63 | the migrated array keeps length and order. Elements that have `id` and `title` pass through unchanged. A legacy element at index i gets id `newId(i)`, its name or "" as title, its completion flag, the Inbox bucket, the current timestamp, today as due date and `rolledOver` false |
| Storage.FromLegacy | lib/storage.ts:52-61 | field by field, the current-shape task a legacy `{ name, completed }` record becomes |
| Storage.MigrateStoredIsIdentity | lib/storage.ts:47-50 | migrating an array already in the current shape returns it unchanged, whatever the clock and id supply |
| Storage.MigrateIdempotent | lib/storage.ts:80-86 | migrating what `getTasks` persisted gives back the same tasks: the migration is idempotent |
| Storage.MigrateIdsDistinct | lib/storage.ts:45-63 | when the current-shape elements have pairwise different ids, and the id supply is injective on the legacy indices and avoids those ids, every task of the migrated list has its own id |
| Storage.GetBuckets | lib/storage.ts:66-78 | the result is never empty. Stored non-empty buckets come back unchanged and nothing is written. Otherwise exactly the Inbox bucket is returned and persisted. No other key changes |
| Storage.GetBucketsStable | lib/storage.ts:66-78 | a second `getBuckets` returns what the first returned and writes nothing |
| Storage.GetBucketsOnEmptyStore | lib/storage.ts:69-75 | on an empty store the buckets are `[{ id: "inbox", name: "Inbox", createdAt: now }]` |
| Storage.GetTasks | lib/storage.ts:80-86 | returns the migration of the stored array and persists it, so a later read migrates nothing. No other key changes |
| Storage.Upsert | lib/storage.ts:90-96 | an element with the new value's key is replaced in place; otherwise the value is appended |
| Storage.UpsertProperties | lib/storage.ts:99-108 | after an upsert the value is present and the key set is the old one plus its key. Repeating the upsert changes nothing |
| Storage.SaveBucket | lib/storage.ts:88-97 | relative to what `getBuckets` returns: a bucket with the same id is replaced position by position, or the bucket is appended. Tasks, streak and last date are untouched |
| Storage.SaveTask | lib/storage.ts:99-108 | relative to what `getTasks` returns: tasks with the same id are replaced in place, or the task is appended. The array is written in the current shape, and other keys are untouched |
| Storage.UpdateTask | lib/storage.ts:110-114 | the length is kept. Tasks with the id become themselves overridden by the update object; every other task is unchanged; an absent id changes nothing. The array is written in the current shape |
| Model.ApplyPatch | lib/storage.ts:112 | the object spread `{ ...t, ...updates }`: each field the update carries wins, each other field keeps its old value |
| Model.EmptyPatchIsIdentity | lib/storage.ts:112 | spreading an empty update object leaves the task as it was |
| Storage.DeleteTask | lib/storage.ts:116-119 | afterwards no task has the id. Every other task keeps its multiplicity and its relative order. An absent id changes nothing. The array is written in the current shape, and other keys are untouched |
| Model.RemoveIdFacts | lib/storage.ts:118 | filtering by `t.id !== taskId` removes exactly the tasks with that id and keeps the rest in order |
| Storage.SetStreak | lib/storage.ts:163-165 | the streak then reads back as the value written; nothing else changes |
| Storage.GetLastActiveDate | lib/storage.ts:167-169 | a stored date reads back as stored; a missing key reads as null |
| Storage.SetLastActiveDate | lib/storage.ts:171-173 | the date then reads back as written; nothing else changes |
| Storage.Rollover | lib/storage.ts:146-151 | exactly the incomplete tasks due on the last date get today's date and `rolledOver`; every other task is unchanged |
| Storage.ResetDay | lib/storage.ts:121-156 | a missing or empty last date just records today; a last date not before today changes nothing. Otherwise the streak is untouched when no task was due on the last date, becomes the old streak + 1 when all were completed, and 0 when one was not. Exactly the incomplete tasks due then roll over, the array is written in the current shape, today is recorded, and the buckets are untouched |
| Storage.ResetDayIdempotent | lib/storage.ts:121-156 | a second `resetDay` on the same day changes nothing |
| Storage.RolloverClearsStaleDay | lib/storage.ts:145-152 | after a day transition every task still due on the old date is completed |
| Dates.ToDateString | lib/date.ts:1-7 | for a valid date the key is ten characters: digits, with dashes at positions 4 and 7 |
| Dates.ToDateStringFields | lib/date.ts:3-6 | the first four characters are the year. Characters 5-6 are the 1-based month padded to two digits, and 8-9 are the padded day |
| Dates.ToDateStringOrder | lib/date.ts:1-12 | for valid dates, `isBeforeDate` on the keys holds exactly when the first date is earlier in the calendar |
| Dates.ToDateStringInjective | lib/date.ts:1-7 | different valid dates have different keys |
| Dates.StrLessIrreflexive | lib/date.ts:9-12 | no key is before itself |
| Dates.StrLessTransitive | lib/date.ts:9-12 | `isBeforeDate` is transitive |
| Dates.StrLessTrichotomy | lib/date.ts:9-12 | two keys differ exactly when exactly one is before the other |
| Dates.StrLessAppend | lib/date.ts:9-12 | with prefixes of equal length, the comparison is decided by the prefixes, and by the rest only when the prefixes are equal |
| Dates.IsSameDateIsEquivalence | lib/date.ts:14-16 | `isSameDate` is reflexive, symmetric and transitive |
| Dates.PadStart2 | lib/date.ts:4-5 | `padStart(2, "0")`: strings of two or more characters are unchanged; shorter ones get leading zeros up to length two and keep their characters at the end |
| Mentions.LastIndexOf | components/sections/TaskInput.tsx:25 | -1 exactly when the character is absent; otherwise a position holding it with no occurrence after it |
| Mentions.Mention | components/sections/TaskInput.tsx:24-31 | no `@` gives ""; a mention never contains `@` or whitespace |
| Mentions.MentionAfterLastAt | components/sections/TaskInput.tsx:24-31 | for `pre + "@" + after` with no `@` in `after`: "" when `after` holds whitespace, otherwise `after` lower-cased |
| Mentions.LowerKeepsMarks | components/sections/TaskInput.tsx:29-30 | lower-casing neither creates nor removes an `@` or whitespace |
| Mentions.LowerChar | components/sections/TaskInput.tsx:30 | an ASCII capital becomes its own small letter (code point + 32); every other character is unchanged |
| Mentions.Lower | components/sections/TaskInput.tsx:30 | length kept, each character lowered as `LowerChar` states |
| Mentions.Contains | components/sections/TaskInput.tsx:35 | `includes`: the empty string occurs in every name, a prefix or suffix occurs, and nothing longer than the name does |
| Mentions.Suggestions | components/sections/TaskInput.tsx:33-36 | an empty mention suggests nothing. Otherwise a bucket is suggested exactly when its lower-cased name contains the mention, with its multiplicity in the bucket list |
| Mentions.SuggestionsKeepOrder | components/sections/TaskInput.tsx:35 | suggestions follow bucket order: those of a concatenation are those of each part, concatenated |
| Mentions.ApplySuggestion | components/sections/TaskInput.tsx:38-42 | without an `@` the value is unchanged; otherwise the result ends with a space |
| Mentions.ApplySuggestionReplacesMention | components/sections/TaskInput.tsx:38-42 | on `pre + "@" + after` the result is `pre + "@" + name + " "`: exactly the text after the last `@` is replaced |
| Mentions.ApplySuggestionEndsMention | components/sections/TaskInput.tsx:24-42 | after a suggestion is applied there is no mention and no suggestion |
| Calendar.MonthGrid | components/sections/CalendarPanel.tsx:7-17 | the grid is whole weeks and less than a week longer than the blanks plus the days. It holds `startWeekday` blanks, then days 1..daysInMonth in order, then blanks |
| Calendar.ByDate | components/sections/CalendarPanel.tsx:30-41 | a key is present exactly when it is non-empty and some task is due on it; its record is the number due then and the number of those completed |
| Calendar.DoneAtMostTotal | components/sections/CalendarPanel.tsx:35-37 | a day never counts more completed tasks than tasks |
| Calendar.DoneReachesTotal | components/sections/CalendarPanel.tsx:47 | the done count reaches the total exactly when every task due that day is completed |
| Calendar.ColorForDate | components/sections/CalendarPanel.tsx:43-50 | no entry gives the neutral class; emerald exactly when the entry has tasks and its done count reaches its total; red exactly when the done count is below the total |
| Calendar.DayColorMeaning | components/sections/CalendarPanel.tsx:43-50 | a day is emerald exactly when it has tasks and all are completed, red exactly when one of its tasks is incomplete, and neutral exactly when it has none |
| BucketGroups.SetGroup | components/sections/BucketListPanel.tsx:44 | `Map.set`: an existing key keeps its place and gets the new list; a new key is appended; other entries are unchanged |
| BucketGroups.Lookup | components/sections/BucketListPanel.tsx:42 | `Map.get`: nothing exactly when the key is absent, otherwise the list stored under it |
| BucketGroups.Grouped | components/sections/BucketListPanel.tsx:38-47 | the groups have pairwise different ids, each holds exactly the tasks filed under its id in input order, and every task's bucket id has a group |
| BucketGroups.GroupedKeys | components/sections/BucketListPanel.tsx:38-47 | one group per distinct id, covering every bucket id and every task's bucket id and nothing else. Bucket ids come first in bucket order; unknown ids follow in order of first appearance among the tasks |
| BucketGroups.GroupedContents | components/sections/BucketListPanel.tsx:41-45 | each group holds exactly the tasks filed under its id, in input order, so every task is in the one group keyed by its bucket id |
| BucketGroups.GroupedTotal | components/sections/BucketListPanel.tsx:41-46 | the group sizes add up to the number of tasks |
| BucketGroups.GroupedWithoutTasks | components/sections/BucketListPanel.tsx:40 | with no tasks every group is empty |
| BucketGroups.GroupLabel | components/sections/BucketListPanel.tsx:69-84 | the name of the first bucket with the id, or "Unknown" when no bucket has it |
| BucketGroups.ToggleSelect | components/sections/BucketListPanel.tsx:49-56 | the id becomes selected exactly when it was not; every other id keeps its state |
| BucketGroups.ToggleSelectTwice | components/sections/BucketListPanel.tsx:49-56 | toggling the same id twice restores the selection |
| TodayList.TodaysAll | components/sections/TaskList.tsx:39 | exactly the tasks due today, in list order, one entry for each position of the task list that holds a task due today |
| TodayList.TodaysAllMultiplicity | components/sections/TaskList.tsx:39 | a task due today occurs in `todaysAll` as often as in the task list; any other task does not occur |
| TodayList.TodaysForBucket | components/sections/TaskList.tsx:40-43 | exactly the tasks due today in the selected bucket, in the order of today's list |
| TodayList.TodaysForBucketMultiplicity | components/sections/TaskList.tsx:39-43 | a task due today in the selected bucket occurs among the rows as often as in the task list; any other task does not occur |
| TodayList.CanAdd | components/sections/TaskList.tsx:45 | adding is allowed exactly when fewer than six positions of the task list hold a task due today |
| TodayList.AddTask | components/sections/TaskList.tsx:69-83 | refused with six or more tasks due today. Otherwise exactly one task is appended: the given title and id, incomplete, not rolled over, due today, in the selected bucket, created now. The selection changes and nothing else does |
| TodayList.AddTaskSelectsNewTask | components/sections/TaskList.tsx:80-82 | the day's list grows by the new task at its end, and the selected row is the new task |
| TodayList.AddTaskKeepsLimit | components/sections/TaskList.tsx:45 | a day with at most six tasks still has at most six after any add |
| TodayList.ToggleTaskById | components/sections/TaskList.tsx:85-88 | tasks with the id get `completed` flipped and nothing else; all other tasks are unchanged; the length is kept |
| TodayList.ToggleTaskByIdTwice | components/sections/TaskList.tsx:86 | toggling the same id twice restores the list |
| TodayList.ToggleTask | components/sections/TaskList.tsx:85-88 | on the view, the whole task list is toggled by id (hidden tasks included), the rows of the today list stay in place and those with the id flip completion; nothing but the tasks changes |
| TodayList.ToggleSelected | components/sections/TaskList.tsx:135-139 | `x` with a selection on a row is `toggleTaskById` on that row's id: the row flips and rows with other ids are unchanged; with no selection, or one past the list, nothing changes |
| TodayList.CompleteBucketToday | components/sections/TaskList.tsx:199-200 | the double-tap effect: exactly the tasks due today in the selected bucket become completed |
| TodayList.CompleteBucketTodayFinishesRows | components/sections/TaskList.tsx:196-202 | after the double tap the list shows the same number of rows, all completed |
| TodayList.DeleteTask | components/sections/TaskList.tsx:90-96 | no task with the id is left. The others keep their multiplicity and order, the selection is cleared, and nothing else changes |
| TodayList.BucketIndex | components/sections/TaskList.tsx:100 | `findIndex`: -1 exactly when no bucket has the id, otherwise the first position holding it |
| TodayList.Wrap | components/sections/TaskList.tsx:101 | the next index is in [0, n): +1 wraps from the last to the first, -1 from the first to the last |
| TodayList.CurrentBucket | components/sections/TaskList.tsx:100 | the first position holding the selected bucket id (no earlier bucket has it), or 0 when the id is unknown |
| TodayList.CycleBucket | components/sections/TaskList.tsx:98-104 | with no buckets nothing changes. Otherwise the bucket one step round from the current one (the first for an unknown id) is selected and the row selection is cleared |
| TodayList.CycleBucketRoundTrip | components/sections/TaskList.tsx:98-104 | with distinct bucket ids and a known selection, a step one way and then back returns to the original bucket |
| TodayList.SelectNext | components/sections/TaskList.tsx:121-127 | an empty list changes nothing. From no selection `j` picks row 0; from row p it goes to p + 1, or stays at the last row; it always lands on a row |
| TodayList.SelectPrev | components/sections/TaskList.tsx:128-134 | an empty list changes nothing. From no selection `k` picks the last row; from p it goes to p - 1, or stays at row 0; from a row of the list it lands on a row |
| TodayList.HandlersKeepSelectionValid | components/sections/TaskList.tsx:69-143 | add, toggle, `x`, delete, cycle, `j`, `k` and the corrected bucket choice all keep the selection empty or on a row of the list |
| TodayList.ClearSelection | components/sections/TaskList.tsx:140-142 | `Escape` clears the row selection and changes nothing else |
| TodayList.ClickRow | components/sections/TaskList.tsx:251 | a click on a row selects exactly that row, which is a row of the list; nothing else changes |
| TodayList.ClickThenToggle | components/sections/TaskList.tsx:135-142 | clicking row i and pressing `x` toggles row i's task; after `Escape`, `x` changes nothing |
| TodayList.Trim | components/sections/TaskList.tsx:165 | `trim()`: empty exactly when the input is all whitespace; otherwise it neither starts nor ends with whitespace |
| TodayList.TrimStripsPadding | components/sections/TaskList.tsx:165 | whitespace padding on both sides of a string that neither starts nor ends with whitespace is removed and nothing else is |
| TodayList.TrimIdempotent | components/sections/TaskList.tsx:165 | trimming twice is trimming once |
| TodayList.RenameTask | components/sections/TaskList.tsx:171-172 | the tasks with the id take the new title and nothing else of theirs changes; other tasks, the length and the row positions are kept |
| TodayList.RenameMatchesStore | components/sections/TaskList.tsx:171-173 | the view's rename and `updateTask(taskId, { title })` on a store holding the same tasks leave the same task list |
| TodayList.LongPressEdit | components/sections/TaskList.tsx:159-175 | an unknown id or a cancelled prompt changes nothing; a blank reply deletes the task when confirmed and otherwise changes nothing; any other reply renames to the trimmed reply, so every new task in the list carries the id and a non-blank, already trimmed title |
| TodayList.LongPressKeepsSelectionValid | components/sections/TaskList.tsx:159-175 | the long-press edit keeps the selection empty or on a row of the list |
| TodayList.SelectBucket | components/sections/TaskList.tsx:239 | the bucket selector's `onSelect` as written: the bucket becomes selected and the row index is kept |
| TodayList.AddBucket | components/sections/TaskList.tsx:61-67 | `addBucket` as written: the new bucket is appended and selected, and the row index is kept |
| TodayList.SelectBucketStrandsSelection | components/sections/TaskList.tsx:239 | a valid row selection becomes one past the new bucket's list, and `k` leaves it past the end |
| TodayList.AddBucketStrandsSelection | components/sections/TaskList.tsx:61-67 | after adding a bucket no task is filed under, any row selection points past its empty list |
| TodayList.ChooseBucket | components/sections/TaskList.tsx:239 | the corrected `onSelect`: select the bucket and clear the row selection, as `cycleBucket` does |
| TodayList.AddAndChooseBucket | components/sections/TaskList.tsx:61-67 | the corrected `addBucket`: append and select the bucket and clear the row selection |
| TodayList.AllDone | components/sections/TaskList.tsx:44 | `allDone` holds exactly when some task is due today and every task due today is completed |
| TodayList.ColorOf | components/sections/TaskList.tsx:47-53 | emerald or green exactly when all is done, emerald only from a streak of 3 and green only below it; muted exactly when nothing is due today |
| TodayList.HeaderColorMeaning | components/sections/TaskList.tsx:44-53 | the header is emerald when today has tasks, all completed, and the streak is at least 3; green for the same with a streak below 3; sky when one of today's tasks is incomplete; muted when none is due today |
| TodayList.AllDoneMatchesCalendar | components/sections/TaskList.tsx:44 | `allDone` holds exactly when today's calendar cell is emerald |

## Left out

- Local storage and JSON serialisation: the store is a record of optional fields. A key that is missing, fails to read or does not parse is `None`. Values stored with the wrong JSON type are not modelled.
- `uid()`, `Date.now()` and `new Date()` are parameters (`Env`, the `id` and `now` arguments). The real `createdAt` may differ between the legacy elements of one migration; the model gives them one timestamp.
- `toDateString`'s local-time field extraction from a `Date` is left out. The fields are inputs, and the order and shape theorems assume years 1000-9999. A year outside that range renders with another number of digits and would not compare correctly.
- `getMonthGrid`: the month length and first weekday come from `Date` arithmetic, so they are inputs. Each day cell holds its day number instead of a `Date`.
- A `null` element in the stored task array (the source would throw at `legacy.name`) is excluded: a raw element is either a current-shape task or a legacy record.
- An object with `id` and `title` but other fields missing or mistyped is passed through unchanged by the source. The model treats every such element as a complete task.
- Dates.StrLess: JavaScript compares strings by UTF-16 code units; the model compares characters. The two agree on the ASCII date keys the application stores.
- Mentions.Lower: only ASCII letters are lower-cased; `toLowerCase` beyond ASCII is not modelled.
- Mentions.IsSpace: lists the code points the `\s` class matches; the regex engine itself is not modelled.
- `persistTasks`, which re-saves every task through `saveTask` after a toggle or an add, is not modelled. Neither is the storage write that accompanies `deleteTaskById`. The view's task list and the adapter's effect on the store are modelled separately.
- React state, effects and memoisation are left out, as are the keyboard listener wiring and the gesture timing (the 600 ms long press, the double-tap window, swipe thresholds). The browser's `prompt` and `confirm` answers are parameters of `TodayList.LongPressEdit`.
- Swipes are modelled through the handlers they call: left and right are `TodayList.CycleBucket`, and down is the same toggle as `TodayList.ToggleSelected`. Swipe up only focuses the input and is not modelled.
- The `saveBucket` write made by `addBucket` is not part of the view model; `Storage.SaveBucket` models that write on its own.
- The bucket panel's collapse, edit and bulk-action controls are not part of this model.
- Model.ApplyPatch: a `Partial<Task>` with a property explicitly set to `undefined` overwrites that field in the spread. `TaskPatch` only has absent or present fields, so it cannot express this.
- BucketGroups.ToggleSelect: the selection is a `set`, which drops the insertion order of the JavaScript `Set`. `Array.from(selected)` passes that order on to `onImportSelected`.
- TodayList.HandlersKeepSelectionValid: it covers bucket choice only in the corrected form (`ChooseBucket`, `AddAndChooseBucket`). `SelectBucket` and `AddBucket`, as written, can leave the row selection past the end of the list (see Findings).
- Presentation-only components (logo, header, panel container, card, help button, settings modal), the settings and toast providers, and the add-task and bucket-selector components are not part of this model.
- Concurrent writers (several tabs sharing one store) are not modelled.

## Findings

| source | as written | input that shows it | evidently intended | confidence | as-written member | corrected member |
|---|---|---|---|---|---|---|
| components/sections/TaskList.tsx:239 | the bucket selector's `onSelect` sets `selectedBucketId` and keeps `selectedIndex` | three tasks due today in bucket A with the third (index 2) selected, and one task due today in bucket B. Choosing B leaves index 2 on a one-row list, and `k` then gives 1, still past the end. With a shorter stale index, a row of the new bucket is highlighted and `x` toggles it although it was never chosen | clear the row selection on a bucket change, as `cycleBucket` does at line 103 | medium; not executed | TodayList.SelectBucketStrandsSelection | TodayList.ChooseBucket |
| components/sections/TaskList.tsx:61-67 | `addBucket` selects the new bucket and keeps `selectedIndex` | any selected row, then a new bucket: the new bucket has no tasks, so the index points past its empty list | clear the row selection, as `cycleBucket` does at line 103 | medium; not executed | TodayList.AddBucketStrandsSelection | TodayList.AddAndChooseBucket |
