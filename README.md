# Bullet journal: a verified model of the task lifecycle and review logic

This project models the logic of a React bullet-journal app. Its entries are tasks, events and notes, each with a date, a state, signifiers (priority, inspiration, explore) and a migration count. The model covers how those entries move through their lifecycle and how the journal's views derive lists from them. There is no separate migration engine: each component updates the entry rows of one list held in `App`. The model follows the components one file at a time.

- `entries.dfy`: the entry record and the partial-update merge (`updateEntry`). `store.dfy`: the journal state held in `App`, holding entries and collections, with the add/update/delete operations and the daily, monthly and future views.
- `bullet_entry.dfy`: the per-entry handlers. These are the task click, migrate to the next day, reschedule, the signifier toggle, the event-state click, swipe-to-cancel and the 24-hour to 12-hour time label.
- `daily_log.dfy`: the stale-task scan, the search and state filters and their toggles. `daily_migration.dfy`: the catch-up dialog, a state machine over sorted tasks and the set of processed ids.
- `migration_wizard.dfy`: the monthly wizard, covering the candidate window, the statistics, the suggestions, selection and the next-month target. `monthly_log.dfy`: month navigation, the 42-cell calendar grid, the status groups and the bulk apply.
- `habits.dfy`: the last seven days, completion on a day, the streak and the completion rate. `iso_dates.dfy`: the `toISOString` day key they rely on.
- `future_log.dfy`: six-month paging, the month cards and the past/current month tests.
- `index_navigation.dfy`: search, recent entries, priority entries, grouping by day, tags, bookmarks and per-tag counts. `grouping.dfy` and `sorting.dfy`: the `Map` grouping and the stable sort it builds on.
- `data_sync_backup.dfy`: the Markdown export and the shape check of the JSON import.
- `password_rules.dfy`, `register_form.dfy`, `server.dfy`: the five password rules, the sign-up form's validation order and the server's sign-up guards and bearer-token parsing.
- `add_event_dialog.dfy`: the 500-character guard, the remaining-characters counter and what a submit passes on.
- `common.dfy`, `text.dfy`, `dates.dfy`: the JavaScript library behaviour the components use. This covers array `filter`/`map`/`slice`, `Set` in insertion order, `trim`, `toLowerCase`, `includes`, `split`, `join`, `padStart`, `parseInt` and `%`. It also covers `Date` as milliseconds since the epoch, with a proleptic Gregorian calendar and JavaScript's normalisation of month and day in `new Date(y, m, d)`, `setMonth`, `setDate` and `setHours`.

Modelling conventions:
- The local time zone is taken to be UTC.
- "Now" and "today" are parameters.
- An optional field is an `Option`, and a partial update is a `Patch` whose fields are `Keep` or `Put(v)`.
- A JavaScript `Set` is a sequence without duplicates, in insertion order.
- A component's state is a `class` whose methods update its fields. Each callback the component invokes (`onUpdate`, `onMigrate`, ...) is appended to a ghost log of calls, so a method's contract states exactly which calls it makes.

Where the code does not do what it evidently means to do, the model states the behaviour as written, proves the discrepancy on a concrete input, and uses the corrected behaviour elsewhere; see "## Findings".

## Model

| member | source | states |
|---|---|---|
| Entries.ApplyNoChange | src/App.tsx:189 | spreading an empty update gives the entry back |
| Entries.ApplyMerge | src/App.tsx:189 | spreading two updates in turn is spreading their merge, the later field winning |
| Entries.ApplyIdempotent | src/App.tsx:189 | spreading the same update twice is spreading it once |
| Store.NewEntry | src/App.tsx:149-157 | the new row carries the given id, content, kind and date, is incomplete, never migrated and without signifiers |
| Store.NewEvent | src/App.tsx:161-184 | the new event carries the given fields, is incomplete and upcoming |
| Store.UpdateEntries | src/App.tsx:188-190 | same length; rows with the id get the update spread over them and every other row is unchanged |
| Store.UpdateUnknownId | src/App.tsx:188-190 | an unknown id changes nothing |
| Store.UpdateTwice | src/App.tsx:188-190 | two updates of one id are one update with the merged fields |
| Store.UpdateIdempotent | src/App.tsx:188-190 | repeating an update changes nothing more |
| Store.RemoveEntries | src/App.tsx:192-194 | exactly the rows with another id remain, and together with the removed rows they are the old rows |
| Store.RemoveEntriesAppend | src/App.tsx:192-194 | removing an id splits over concatenation: the remaining rows keep their order |
| Store.RemoveEntriesSingle | src/App.tsx:192-194 | a single row survives exactly when its id is another |
| Store.RemoveUnknownId | src/App.tsx:192-194 | deleting an unknown id changes nothing |
| Store.RemoveIdempotent | src/App.tsx:192-194 | deleting twice is deleting once |
| Store.RemoveAfterAppend | src/App.tsx:192-194 | deleting a freshly added row gives the old list back |
| Store.DailyEntries | src/App.tsx:196-201 | exactly the entries on the viewed calendar day |
| Store.MonthlyEntries | src/App.tsx:203-211 | exactly the entries of the viewed month and year |
| Store.FutureEntries | src/App.tsx:213-218 | exactly the entries of the viewed year |
| Store.ViewsNest | src/App.tsx:196-218 | the day view of the month view is the day view, and the month view of the year view is the month view |
| Store.DailyAfterAppend | src/App.tsx:196-201 | a new entry shows in the daily view exactly when it is on the viewed day, after the earlier ones |
| Store.AddCollection | src/App.tsx:241-248 | the old collections, then one new empty collection |
| Store.DeleteCollection | src/App.tsx:250-252 | exactly the collections with another id remain |
| Store.DeleteCollectionAppend | src/App.tsx:250-252 | deleting a collection splits over concatenation: the other collections keep their order |
| Store.DeleteAfterAddCollection | src/App.tsx:241-252 | deleting a freshly added collection gives the old list back |
| Store.AddCollectionItem | src/App.tsx:254-268 | only the matching collection changes, by one unchecked item at its end |
| Store.ToggleCollectionItem | src/App.tsx:270-283 | only the matching item of the matching collection flips `checked`; ids, texts and everything else stay |
| Store.ToggleCollectionItemTwice | src/App.tsx:270-283 | toggling twice gives the collections back |
| Store.DeleteCollectionItem | src/App.tsx:285-293 | only the matching collection loses exactly its items with that id |
| Store.DeleteAfterAddItem | src/App.tsx:285-293 | deleting a freshly added item gives the collections back |
| Store.Journal.constructor | src/App.tsx:25-26 | the store starts empty |
| Store.Journal.AddEntry | src/App.tsx:149-159 | one new entry is appended, earlier ones and collections kept |
| Store.Journal.AddEvent | src/App.tsx:161-186 | one new event is appended, earlier ones and collections kept |
| Store.Journal.UpdateEntry | src/App.tsx:188-190 | the entries become the updated list; collections kept |
| Store.Journal.DeleteEntry | src/App.tsx:192-194 | the entries lose the rows with the id; collections kept |
| Store.Journal.AddCollectionTo | src/App.tsx:241-248 | a collection is appended; entries kept |
| Store.Journal.DeleteCollectionFrom | src/App.tsx:250-252 | the matching collections go; entries kept |
| Store.Journal.AddItem | src/App.tsx:254-268 | the item is added; entries kept |
| Store.Journal.ToggleItem | src/App.tsx:270-283 | the item is toggled; entries kept |
| Store.Journal.DeleteItem | src/App.tsx:285-293 | the item is deleted; entries kept |
| BulletEntry.TaskClick | src/components/BulletEntry.tsx:107-113 | an update is produced exactly for a task that is incomplete or complete |
| BulletEntry.TaskClickFlips | src/components/BulletEntry.tsx:107-113 | the click swaps incomplete and complete, changes no other property, and a second click gives the entry back |
| BulletEntry.EventInstantOfClock | src/components/BulletEntry.tsx:53-61 | for an "HH:MM" time the start instant is that hour and minute on the entry's own day |
| BulletEntry.EventInstantOfParts | src/components/BulletEntry.tsx:57-59 | when the two colon-separated parts parse, the start is `setHours(h, m)` of the date |
| BulletEntry.ClockParse | src/components/BulletEntry.tsx:150-151 | "HH:MM" splits at the colon into the hour and minute digits, which parse to their values |
| BulletEntry.EventClick | src/components/BulletEntry.tsx:115-128 | an update is produced exactly for a past event; it sets upcoming when the event was attended and attended otherwise |
| BulletEntry.EventClickTwice | src/components/BulletEntry.tsx:115-128 | a click changes only the event state and keeps the event past, so a second click returns attended to attended and anything else to upcoming |
| BulletEntry.DisplayHourRange | src/components/BulletEntry.tsx:153 | `hour % 12 \|\| 12` lies in 1..12 and agrees with the hour modulo 12 |
| BulletEntry.FormatEventTime | src/components/BulletEntry.tsx:147-166 | a time is shown exactly when the event has one |
| BulletEntry.FormatEventTimeOfClocks | src/components/BulletEntry.tsx:147-166 | for "HH:MM" times the label is the start as "h:MM AM" or "h:MM PM" (the hour `h % 12 || 12`, the minutes copied, PM from 12 on), followed by " - " and the end in the same form when there is an end time |
| BulletEntry.TwelveHourOfClock | src/components/BulletEntry.tsx:150-155 | an "HH:MM" time shows as hour 1..12, the minutes copied, AM exactly before noon |
| BulletEntry.TwelveHourOfParts | src/components/BulletEntry.tsx:150-155 | the shown text is the display hour, ":", the minute part as given, and AM or PM |
| BulletEntry.MigrateToNextDay | src/components/BulletEntry.tsx:168-181 | the same row moves one day on at the same time of day, becomes incomplete and counts one more migration (absent read as 0); nothing else changes |
| BulletEntry.MigrateDate | src/components/BulletEntry.tsx:170-172 | `setDate(getDate() + 1)` adds exactly one day of milliseconds |
| BulletEntry.SignifierToggles | src/components/BulletEntry.tsx:183-192 | the signifier flips, others keep their membership, nothing but the signifiers changes, and a second toggle restores membership (the list itself when the signifier was absent) |
| BulletEntry.ReschedulePatch | src/components/BulletEntry.tsx:194-201 | the entry becomes scheduled on the chosen date with one more migration; nothing else changes |
| BulletEntry.EventReschedulePatch | src/components/BulletEntry.tsx:203-208 | only the date and the event state (migrated) change |
| BulletEntry.SwipeDelete | src/components/BulletEntry.tsx:229-238 | a note is deleted; a task or event is cancelled, its event state cancelled for an event and cleared for a task, with nothing else changed |
| BulletEntry.MenuCancel | src/components/BulletEntry.tsx:336 | the cancel menu item changes only the state, to cancelled |
| BulletEntry.MenuEventState | src/components/BulletEntry.tsx:349-360 | the event menu items change only the event state |
| DailyMigration.SortedTasks | src/components/DailyMigrationDialog.tsx:49-53 | the presented list is a permutation of the incomplete tasks, oldest date first |
| DailyMigration.SortedTasksStable | src/components/DailyMigrationDialog.tsx:49-53 | tasks of equal date keep their input order (the sort is stable) |
| DailyMigration.FirstUnprocessed | src/components/DailyMigrationDialog.tsx:58 | the index `find` stops at: every earlier task is processed, the one found is not, or it is past the end |
| DailyMigration.CurrentTask | src/components/DailyMigrationDialog.tsx:56-59 | the selected task when set; otherwise an unprocessed task of the list, and none exactly when every task is processed |
| DailyMigration.CurrentIsFirstUnprocessed | src/components/DailyMigrationDialog.tsx:58 | the current task is the first unprocessed one in sorted order |
| DailyMigration.LurkerThreshold | src/components/DailyMigrationDialog.tsx:62-64 | a count of 2 is not a lurker, 3 is, and an absent count is read as 0 |
| DailyMigration.MigrationMakesLurker | src/components/DailyMigrationDialog.tsx:62-64 | after one more migration a task is a lurker exactly when it had been migrated at least twice |
| DailyMigration.DaysSince | src/components/DailyMigrationDialog.tsx:67-73 | the day count is never negative |
| DailyMigration.DaysSinceIsCeiling | src/components/DailyMigrationDialog.tsx:67-73 | the count is the ceiling of the absolute distance in days, and 0 exactly when the two instants coincide |
| DailyMigration.Ids | src/components/DailyMigrationDialog.tsx:58 | the ids of the tasks, one per task |
| DailyMigration.DailyMigrationDialog.constructor | src/components/DailyMigrationDialog.tsx:43-46 | nothing selected, picker hidden, no schedule date, nothing processed |
| DailyMigration.DailyMigrationDialog.Remaining | src/components/DailyMigrationDialog.tsx:105 | `remainingCount` as written: the list length minus the Set size, never above the list length (its lower bound is `RemainingCountBound`'s) |
| DailyMigration.DailyMigrationDialog.SetProps | src/components/DailyLog.tsx:83-85 | a non-empty scan hands the dialog a new task list and the viewed date; the list is sorted again, and the processed Set, selection and picker are kept |
| DailyMigration.DailyMigrationDialog.Dismiss | src/components/DailyMigrationDialog.tsx:119 | Escape, a click outside or the corner X log `onOpenChange(false)` and change nothing else, so the processed Set survives |
| DailyMigration.ProcessCurrent | src/components/DailyMigrationDialog.tsx:100-103 | adding the current task's id grows the Set by one, lowers the count as written by one and strictly shrinks the list still to review |
| DailyMigration.DailyMigrationDialog.MarkProcessed | src/components/DailyMigrationDialog.tsx:100-103 | the id joins the processed set, remaining drops by exactly one, the selection is cleared |
| DailyMigration.DailyMigrationDialog.HandleMigrate | src/components/DailyMigrationDialog.tsx:75-79 | with no current task nothing happens; otherwise `onMigrate(id, currentDate)` is logged and the task counts as processed |
| DailyMigration.DailyMigrationDialog.HandleSchedule | src/components/DailyMigrationDialog.tsx:81-87 | without a current task or a date nothing happens; otherwise `onSchedule(id, date)` is logged, the task is processed, the picker hidden and the date cleared |
| DailyMigration.DailyMigrationDialog.HandleCancel | src/components/DailyMigrationDialog.tsx:89-93 | `onCancel(id)` is logged and the task is processed; nothing happens without a current task |
| DailyMigration.DailyMigrationDialog.HandleSkip | src/components/DailyMigrationDialog.tsx:95-98 | the task is processed and no callback is made |
| DailyMigration.DailyMigrationDialog.OpenSchedulePicker | src/components/DailyMigrationDialog.tsx:269 | the picker opens and nothing else changes |
| DailyMigration.DailyMigrationDialog.PickScheduleDate | src/components/DailyMigrationDialog.tsx:223-224 | a pick at an instant before the current instant is refused (so an earlier time of the current day is refused too); any other pick, or clearing the pick, becomes the schedule date |
| DailyMigration.DailyMigrationDialog.CancelSchedulePicker | src/components/DailyMigrationDialog.tsx:231-234 | the picker closes and the date is cleared |
| DailyMigration.DailyMigrationDialog.AutoClose | src/components/DailyMigrationDialog.tsx:110-116 | when no task of a non-empty list is left to review (the corrected count), `onOpenChange(false)` is logged and the processed Set is reset; otherwise nothing changes |
| DailyMigration.DailyMigrationDialog.Close | src/components/DailyMigrationDialog.tsx:308-312 | `onOpenChange(false)` is logged, processed and selection are reset |
| DailyMigration.AllProcessedNoneRemain | src/components/DailyMigrationDialog.tsx:105 | once as many distinct ids are processed as there are (distinct) tasks, no task is current |
| DailyMigration.RemainingCount | src/components/DailyMigrationDialog.tsx:105 | the count as written never exceeds the number of listed tasks |
| DailyMigration.RemainingCountBound | src/components/DailyMigrationDialog.tsx:105 | the count as written is never negative while every processed id belongs to the list |
| DailyMigration.Unreviewed | src/components/DailyMigrationDialog.tsx:58 | the ids still to review: every listed task's id that is not processed, and no processed id |
| DailyMigration.UnreviewedIffNoCurrent | src/components/DailyMigrationDialog.tsx:56-59 | nothing is left to review exactly when, with nothing selected, there is no current task |
| DailyMigration.UnreviewedStep | src/components/DailyMigrationDialog.tsx:100-103 | processing the current task lowers the number still to review |
| DailyMigration.RemainingCountAgrees | src/components/DailyMigrationDialog.tsx:105 | with distinct ids and every processed id in the list, the count as written equals the number still to review |
| DailyMigration.RemainingUndercounts | src/components/DailyMigrationDialog.tsx:105 | a Set holding only an id of an earlier list gives `remainingCount` 0 for the one-task list [c], while c is current and still to review |
| DailyLog.StaleTasks | src/components/DailyLog.tsx:65-81 | exactly the incomplete tasks whose calendar day is before the viewed day |
| DailyLog.StaleTasksIgnoreTimeOfDay | src/components/DailyLog.tsx:67-80 | the time of day of the viewed date does not change the scan |
| DailyLog.FilteredEntries | src/components/DailyLog.tsx:155-179 | kept entries come from the input, match the lowercased query, and pass the task and event filters on their own kind (a missing event state read as upcoming); every entry that passes is kept |
| DailyLog.NoFiltersKeepAll | src/components/DailyLog.tsx:157-159 | with no query and no filters every entry is shown, in order |
| DailyLog.NotesOnlySearched | src/components/DailyLog.tsx:162-176 | a note is hidden only by the search, never by a status filter |
| DailyLog.SearchIgnoresQueryCase | src/components/DailyLog.tsx:157 | lowercasing the query first changes nothing |
| DailyLog.KindsPartition | src/components/DailyLog.tsx:181-183 | tasks, events and notes split the filtered list: the sizes add up and the multisets recombine |
| DailyLog.DailyLogState.constructor | src/components/DailyLog.tsx:57-62 | empty query and filters, dialog closed, no tasks |
| DailyLog.DailyLogState.CheckIncompleteTasks | src/components/DailyLog.tsx:64-90 | a non-empty scan replaces the task list and opens the dialog; an empty scan leaves both as they were |
| DailyLog.DailyLogState.SetSearchQuery | src/components/DailyLog.tsx:236 | the query is set and nothing else changes |
| DailyLog.DailyLogState.ToggleFilterState | src/components/DailyLog.tsx:185-189 | the state leaves the filter list if present and joins it otherwise; the list stays free of duplicates |
| DailyLog.DailyLogState.ToggleFilterEventState | src/components/DailyLog.tsx:191-195 | the same toggle on the event-state list |
| DailyLog.DailyLogState.ClearFilters | src/components/DailyLog.tsx:197-201 | both lists and the query are emptied, after which every entry is visible |
| MigrationWizard.CandidateIffSameMonth | src/components/MigrationWizard.tsx:31-42 | with the intended window, a candidate is exactly an open task (neither complete nor cancelled) of the shown month and year |
| MigrationWizard.AsWrittenDropsLastDay | src/components/MigrationWizard.tsx:32-40 | the window as written admits exactly the intended candidates minus the last-day tasks stamped after midnight |
| MigrationWizard.LastDayMorningTaskMissed | src/components/MigrationWizard.tsx:33-40 | a task at 10:00 on the last day of the month is in the month but outside the window as written |
| MigrationWizard.Candidates | src/components/MigrationWizard.tsx:35-41 | the candidates are exactly the entries inside the window |
| MigrationWizard.MigrationStats | src/components/MigrationWizard.tsx:45-65 | each counter is the number of candidates of its class (absent count read as 0); the three count classes add up to the number of candidates and the priority count is at most that |
| MigrationWizard.StatsTotal | src/components/MigrationWizard.tsx:45-65 | the never, once and multiple counts of the statistics partition the candidates: they add up to their number |
| MigrationWizard.StatsStep | src/components/MigrationWizard.tsx:53-62 | each counter grows by one exactly when the next task is of its class |
| MigrationWizard.SuggestionSet | src/components/MigrationWizard.tsx:68-83 | the suggestions hold no duplicate and are exactly the ids of tasks migrated twice or more or marked priority |
| MigrationWizard.SuggestionStep | src/components/MigrationWizard.tsx:71-80 | one more task adds its id to the set exactly when it is suggested |
| MigrationWizard.Suggestions | src/components/MigrationWizard.tsx:68-83 | the loop's Set is the suggestion set |
| MigrationWizard.SuggestionsAreCandidates | src/components/MigrationWizard.tsx:68-83 | every suggestion is the id of a candidate |
| MigrationWizard.NextMonthFirstIsNextMonth | src/components/MigrationWizard.tsx:107-110 | going to the 1st before moving the month lands on the 1st of the following month, at the same time of day |
| MigrationWizard.NextMonthAsWrittenSkips | src/components/MigrationWizard.tsx:108-110 | as written, October 31 goes to December 1 |
| MigrationWizard.Wizard.constructor | src/components/MigrationWizard.tsx:27-28 | nothing selected, step "review", no callback made |
| MigrationWizard.Wizard.ToggleEntry | src/components/MigrationWizard.tsx:85-93 | exactly the one id changes membership and the selection stays free of duplicates |
| MigrationWizard.Wizard.SelectAll | src/components/MigrationWizard.tsx:95-97 | the selection is the Set of the candidates' ids in candidate order, so its members are exactly those ids |
| MigrationWizard.Wizard.DeselectAll | src/components/MigrationWizard.tsx:99-101 | the selection is empty |
| MigrationWizard.Wizard.ApplySuggestions | src/components/MigrationWizard.tsx:103-105 | the selection is exactly the suggestion set |
| MigrationWizard.Wizard.SetStep | src/components/MigrationWizard.tsx:143 | the tab changes and nothing else |
| MigrationWizard.Wizard.HandleMigrate | src/components/MigrationWizard.tsx:107-116 | `onMigrate(selection, "migrate", first of next month)` then `onOpenChange(false)` are logged; the selection empties and the step returns to review |
| MigrationWizard.Wizard.HandleCancel | src/components/MigrationWizard.tsx:118-123 | `onMigrate(selection, "cancel")` without a date, then `onOpenChange(false)`; the selection empties and the step returns to review |
| MigrationWizard.Wizard.Close | src/components/MigrationWizard.tsx:327 | the footer's Close logs `onOpenChange(false)` and keeps the selection and the tab |
| MonthlyLog.NavigationSteps | src/components/MonthlyLog.tsx:39-49 | from a day every month has, the arrows move exactly one month back or on, carrying into the year, and keep the day and the time of day |
| MonthlyLog.NextThenPrevious | src/components/MonthlyLog.tsx:39-49 | forward then back gives the shown date again |
| MonthlyLog.PreviousThenNext | src/components/MonthlyLog.tsx:39-49 | back then forward gives the shown date again |
| MonthlyLog.NextMonthFromJanuary31 | src/components/MonthlyLog.tsx:45-47 | from January 31, "next month" lands in March, as many days in as day 31 runs past February's end |
| MonthlyLog.DaysInMonthIsLastDate | src/components/MonthlyLog.tsx:64-65 | day 0 of the next month is the last day of the shown month, so `daysInMonth` is the month's length |
| MonthlyLog.PrevMonthLastDayIsDayZero | src/components/MonthlyLog.tsx:71 | day 0 of the shown month is the last day of the previous month |
| MonthlyLog.Grid | src/components/MonthlyLog.tsx:72-100 | any grid built this way has 42 cells |
| MonthlyLog.CalendarDays | src/components/MonthlyLog.tsx:59-101 | the grid always has 42 cells |
| MonthlyLog.CalendarArgs | src/components/MonthlyLog.tsx:60-71 | the leading count is the weekday of the 1st, the month length and the previous month's last day are the calendar's |
| MonthlyLog.GridLayout | src/components/MonthlyLog.tsx:72-100 | `start` previous-month cells, then days 1..n flagged current and in order, then next-month days numbered from 1 |
| MonthlyLog.CalendarLayout | src/components/MonthlyLog.tsx:59-101 | the leading count lies in 0..6, the month has 28..31 days, the trailing count is never negative, and the cells follow the three-part layout |
| MonthlyLog.GridAt | src/components/MonthlyLog.tsx:72-100 | cell k is the previous-month, current or next-month cell its position says |
| MonthlyLog.GridDates | src/components/MonthlyLog.tsx:78-97 | cell k's date is midnight, k days after the Sunday that starts the grid |
| MonthlyLog.CalendarDates | src/components/MonthlyLog.tsx:78-97 | the shown grid counts one day per cell from the Sunday on or before the 1st |
| MonthlyLog.GridWeekdays | src/components/MonthlyLog.tsx:68-100 | cell k falls on weekday k mod 7 |
| MonthlyLog.CalendarWeekdays | src/components/MonthlyLog.tsx:68-100 | the shown grid's columns follow Sunday..Saturday |
| MonthlyLog.GridDayNumbers | src/components/MonthlyLog.tsx:75-97 | each cell shows the day of the month of its date, and it is flagged current exactly when that date is in the shown month |
| MonthlyLog.CalendarDayNumbers | src/components/MonthlyLog.tsx:59-101 | the same for the shown grid |
| MonthlyLog.PrevCellCivil | src/components/MonthlyLog.tsx:75-78 | a leading cell shows its date's day of the month, in another month |
| MonthlyLog.CurrentCellCivil | src/components/MonthlyLog.tsx:83-87 | a current-month cell shows its date's day, in the shown month |
| MonthlyLog.NextCellCivil | src/components/MonthlyLog.tsx:93-97 | a trailing cell shows its date's day, in another month |
| MonthlyLog.EntriesForDay | src/components/MonthlyLog.tsx:103-105 | exactly the entries on the cell's calendar day |
| MonthlyLog.DatedCellsEntry | src/components/MonthlyLog.tsx:103-105 | in cells dated one day apart, an entry of the month lies under exactly one current-month cell |
| MonthlyLog.EntryInOneCell | src/components/MonthlyLog.tsx:59-105 | an entry of the shown month appears under exactly one cell of the grid, a current-month one |
| MonthlyLog.MonthlyTasks | src/components/MonthlyLog.tsx:107-109 | exactly the task entries |
| MonthlyLog.StatusGroups | src/components/MonthlyLog.tsx:269-271 | at most five headings, each non-empty and holding exactly the tasks of its state |
| MonthlyLog.FiveStates | src/components/MonthlyLog.tsx:269-270 | the five state filters' sizes add up to the number of tasks |
| MonthlyLog.StatusGroupsSize | src/components/MonthlyLog.tsx:269-271 | the headings' sizes add up to the number of tasks |
| MonthlyLog.StatusGroupsPartition | src/components/MonthlyLog.tsx:269-271 | every task is listed under the heading of its own state and under no other |
| MonthlyLog.Find | src/components/MonthlyLog.tsx:317 | the first entry with the id, found exactly when one exists |
| MonthlyLog.BulkPatch | src/components/MonthlyLog.tsx:320-336 | migrate with a date: incomplete, that date, one more migration; cancel: only the state becomes cancelled; schedule with a date: scheduled, that date, one more migration; migrate or schedule without a date: no update |
| MonthlyLog.BulkUpdates | src/components/MonthlyLog.tsx:316-318 | at most one call per selected id, each for an id found among the shown entries and never changing an id; a selection without repeats (a Set's) gives calls with distinct ids |
| MonthlyLog.ApplyUpdates | src/App.tsx:188-190 | the calls applied in turn keep the number of entries |
| MonthlyLog.TwoCancels | src/components/MonthlyLog.tsx:316-328 | a bulk cancel of two entries issues two cancel calls, in order |
| MonthlyLog.TwoUpdates | src/App.tsx:188-190 | two calls applied in turn are two `updateEntry` steps |
| MonthlyLog.AsWrittenKeepsOnlyLast | src/App.tsx:189 | as written, cancelling two tasks leaves the first one unchanged, while the intended fold cancels both |
| MonthlyLog.BulkApplyEffect | src/components/MonthlyLog.tsx:315-338 | for a journal and a shown sub-list (the month's entries, as App passes them) with distinct ids: every selected shown entry gets its action's change, and every other journal entry, shown or not, stays as it was; ids not found among the shown entries are skipped |
| MonthlyLog.FindUnique | src/components/MonthlyLog.tsx:317 | with distinct ids, `find` returns the entry with that id |
| MonthlyLog.OnMigrate | src/components/MonthlyLog.tsx:315-338 | the loop leaves the store holding the folded bulk apply, collections untouched |
| Habits.ShiftDaysIsSetDate | src/components/HabitsTracker.tsx:51-52 | moving `setDate` by k days is adding k days of milliseconds |
| Habits.ShiftDaysParts | src/components/HabitsTracker.tsx:51-52 | the shifted date is k days on, at the same time of day |
| Habits.Last7Days | src/components/HabitsTracker.tsx:48-56 | seven dates, on consecutive days in ascending order, the last one the current date, all at its time of day |
| Habits.IsCompletedOnDate | src/components/HabitsTracker.tsx:60-65 | true exactly when some completion carries the date's ISO day key and is marked completed |
| Habits.UncompletedIgnored | src/components/HabitsTracker.tsx:73-75 | a completion marked not completed adds nothing to the completed days |
| Habits.IsoDayIsInjective | src/components/HabitsTracker.tsx:61 | distinct days have distinct ISO keys, for the years the key format covers |
| Habits.CurrentStreak | src/components/HabitsTracker.tsx:67-109 | 0 exactly when neither today nor yesterday is completed; otherwise the streak is the run of completed days ending today if today is completed, else yesterday, the day before the run is not completed, and the streak is at most the number of completed dates |
| Habits.StartDay | src/components/HabitsTracker.tsx:77-95 | a start is found exactly when today or yesterday is completed; it is today when today is, else yesterday |
| Habits.CountBack | src/components/HabitsTracker.tsx:97-106 | the loop stops after a run of completed days ending at the start, at the first day not completed, and counts no more than the completed dates |
| Habits.RoundRatio | src/components/HabitsTracker.tsx:115 | the nearest whole number to n / d, halves rounded up, as `Math.round` does |
| Habits.RoundRatioAtLeast | src/components/HabitsTracker.tsx:115 | the rounded ratio reaches m exactly when 2n + d is at least 2md |
| Habits.CompletionRate | src/components/HabitsTracker.tsx:111-116 | 0 for no days, never above 100 |
| Habits.PercentAtMost100 | src/components/HabitsTracker.tsx:115 | a share of at most all days rounds to at most 100 |
| Habits.PercentExtremes | src/components/HabitsTracker.tsx:115 | for fewer than 200 days, the percentage is 100 exactly when all are completed and 0 exactly when none is |
| Habits.CompletionRateExtremes | src/components/HabitsTracker.tsx:111-116 | for fewer than 200 days, the rate is 100 exactly when every day is completed and 0 exactly when none is |
| FutureLog.OrdinalDetermines | src/components/FutureLog.tsx:59-77 | a month ordinal names one (month, year) pair with the month in 0..11 |
| FutureLog.FutureLogView.constructor | src/components/FutureLog.tsx:33-34 | six-month view starting at the clock's month, in the year passed in |
| FutureLog.FutureLogView.SetView | src/components/FutureLog.tsx:33 | only the view changes |
| FutureLog.FutureLogView.GoToPreviousYear | src/components/FutureLog.tsx:51-53 | the year goes back by one, nothing else changes |
| FutureLog.FutureLogView.GoToNextYear | src/components/FutureLog.tsx:55-57 | the year goes on by one, nothing else changes |
| FutureLog.FutureLogView.GoToPrevious6Months | src/components/FutureLog.tsx:59-67 | the (year, month) pair moves back exactly six months, borrowing from the year; the start month stays in 0..11 |
| FutureLog.FutureLogView.GoToNext6Months | src/components/FutureLog.tsx:69-77 | the pair moves on exactly six months, carrying into the year; the start month stays in 0..11 |
| FutureLog.FutureLogView.NextThenPrevious | src/components/FutureLog.tsx:59-77 | forward then back restores the start month and year |
| FutureLog.FutureLogView.PreviousThenNext | src/components/FutureLog.tsx:59-77 | back then forward restores the start month and year |
| FutureLog.FutureLogView.MonthsToShow | src/components/FutureLog.tsx:89-101 | the full-year view lists the twelve months of the year in order; the six-month view lists six consecutive months from the start month, named after their index, wrapping into the next year |
| FutureLog.EntriesForMonth | src/components/FutureLog.tsx:79-87 | exactly the given entries of month m of year y |
| FutureLog.EntriesForMonthIsMonthly | src/components/FutureLog.tsx:79-87 | it picks the same entries as the monthly view of a date in that month |
| FutureLog.MonthStatsOf | src/components/FutureLog.tsx:105-113 | tasks + events + notes equals the total, which is the number of the month's entries (the per-kind counts are pinned by `FutureLog.MonthStatsEmpty` and `FutureLog.MonthStatsSnoc`) |
| FutureLog.MonthStatsEmpty | src/components/FutureLog.tsx:105-113 | with no entries every counter of every card is 0 |
| FutureLog.MonthStatsSnoc | src/components/FutureLog.tsx:105-113 | one more entry of the card's month adds one to the total and to the counter of its own kind only; an entry of another month changes no counter |
| FutureLog.NextYearCardsEmptyAsWritten | src/App.tsx:213-218 | the year filter applied before the cards means every card of the following year is empty |
| FutureLog.NextYearEntryMissed | src/components/FutureLog.tsx:93-99 | a January entry of the following year is missing from its card as written, and shown by the corrected card |
| FutureLog.ShownEntries | src/components/FutureLog.tsx:79-87 | the corrected card: exactly the journal's entries of that month and year |
| FutureLog.ShownEntriesAgreeInYear | src/components/FutureLog.tsx:79-91 | for months of the viewed year the corrected card shows what the code shows |
| FutureLog.MonthStartOrder | src/components/FutureLog.tsx:120-124 | firsts of months are ordered as their (year, month) pairs |
| FutureLog.LocalMonthOrder | src/components/FutureLog.tsx:122-123 | `new Date(y, m)` values are ordered as their (year, month) pairs, years 0..99 read as 19yy |
| FutureLog.LocalFirst | src/components/FutureLog.tsx:122 | `new Date(y, m)` is midnight of the 1st |
| FutureLog.PastMonthIff | src/components/FutureLog.tsx:120-124 | a month is past exactly when its (year, month) pair comes before the clock's |
| FutureLog.CurrentIsNotPast | src/components/FutureLog.tsx:115-124 | the current month is never past |
| IndexNavigation.SearchResults | src/components/IndexNavigation.tsx:39-46 | nothing for a blank query; otherwise the first twenty (or all, if fewer) entries, in input order, whose lowercased content contains the lowercased query |
| IndexNavigation.LowerTwice | src/components/IndexNavigation.tsx:42-44 | lowercasing twice is lowercasing once |
| IndexNavigation.LowerBlank | src/components/IndexNavigation.tsx:40-42 | a query is blank exactly when its lowercase form is |
| IndexNavigation.SearchIgnoresCase | src/components/IndexNavigation.tsx:39-46 | searching for the lowercased query gives the same results |
| IndexNavigation.RecentEntries | src/components/IndexNavigation.tsx:49-53 | ten entries (or all, if fewer), taken from the entries, newest first |
| IndexNavigation.RecentAreNewest | src/components/IndexNavigation.tsx:49-53 | an entry left out is no newer than any entry shown |
| IndexNavigation.PriorityEntries | src/components/IndexNavigation.tsx:56-58 | exactly the entries carrying the priority signifier, no entry more often than in the input |
| IndexNavigation.SortedGroupsStrict | src/components/IndexNavigation.tsx:70-71 | sorting the day groups newest first keeps the groups and puts their days in strictly decreasing order |
| IndexNavigation.DistinctDays | src/components/IndexNavigation.tsx:62-69 | two distinct groups drawn from the Map have distinct days |
| IndexNavigation.CutGroups | src/components/IndexNavigation.tsx:72 | a group cut off by `slice(0, 30)` is older than the thirtieth group shown |
| IndexNavigation.NewestGroups | src/components/IndexNavigation.tsx:70-72 | the groups shown are the newest ones, strictly newest first, and every other group is older than all of them |
| IndexNavigation.EntriesByDate | src/components/IndexNavigation.tsx:61-73 | at most 30 groups, each a non-empty list of exactly the entries of its day in input order, newest day first; every entry's day is shown unless 30 newer days are |
| IndexNavigation.ShownGroups | src/components/IndexNavigation.tsx:61-73 | the sorted, cut groups of a complete Map have the properties `EntriesByDate` promises |
| IndexNavigation.ShownGroupsWhole | src/components/IndexNavigation.tsx:62-69 | each shown group holds exactly the entries of its day |
| IndexNavigation.ShownGroupsCover | src/components/IndexNavigation.tsx:70-72 | every entry's day is shown or older than the oldest group shown |
| IndexNavigation.PairsOf | src/components/IndexNavigation.tsx:70 | `Array.from(grouped.entries())` lists each key of the Map once, with its list |
| IndexNavigation.PairsOfKeys | src/components/IndexNavigation.tsx:70 | pairs built from the distinct keys are distinct, keyed by their day, and cover the Map |
| IndexNavigation.WordRun | src/components/IndexNavigation.tsx:79 | the run of `\w` characters from a position is maximal |
| IndexNavigation.TagMatchesFrom | src/components/IndexNavigation.tsx:79 | every match is a `#` followed by word characters, found in the content |
| IndexNavigation.TagMatchesComplete | src/components/IndexNavigation.tsx:79 | every `#` followed by a word character starts a match that runs to the end of the word |
| IndexNavigation.TagMatchesSound | src/components/IndexNavigation.tsx:79 | every match is the maximal word run taken at some `#` that a word character follows, so with the row above the matches are exactly those tokens |
| IndexNavigation.Tags | src/components/IndexNavigation.tsx:76-85 | the Set's order: every lowercased match of every entry, once, in order of first occurrence |
| IndexNavigation.TagStep | src/components/IndexNavigation.tsx:81 | adding one more match adds it to the Set |
| IndexNavigation.AllTagsSnoc | src/components/IndexNavigation.tsx:78-83 | the matches of one more entry come after the earlier ones |
| IndexNavigation.MatchCounted | src/components/IndexNavigation.tsx:284-286 | the entry a match comes from contains the lowercased match |
| IndexNavigation.TagCounted | src/components/IndexNavigation.tsx:284-286 | every tag listed is counted for at least one entry |
| IndexNavigation.TagsListed | src/components/IndexNavigation.tsx:76-85 | the tags are distinct, each a `#` word token, each with a count of at least one |
| IndexNavigation.AllTagsShape | src/components/IndexNavigation.tsx:79-81 | every lowercased match is still a `#` word token |
| IndexNavigation.IndexPage.constructor | src/components/IndexNavigation.tsx:35-36 | empty query, no bookmarks |
| IndexNavigation.IndexPage.SetSearchQuery | src/components/IndexNavigation.tsx:121 | the query is set, the bookmarks kept |
| IndexNavigation.IndexPage.ToggleBookmark | src/components/IndexNavigation.tsx:87-91 | the date leaves the bookmarks if present and joins them otherwise |
| IndexNavigation.IndexPage.ToggleBookmarkTwice | src/components/IndexNavigation.tsx:87-91 | two toggles restore membership, and the list itself when the date was not bookmarked |
| DataSyncBackup.MonthField | src/components/DataSyncBackup.tsx:84 | the padded month is two digits whose value is the month number 1..12 |
| DataSyncBackup.MonthHeadingOfKey | src/components/DataSyncBackup.tsx:95-99 | for a year without a sign, the key splits into year and month, which read back as `new Date(y, m - 1)`: the first of the entry's month for years of 100 and above, and of year 1900 + y for years 0..99 |
| DataSyncBackup.NegativeYearHeading | src/components/DataSyncBackup.tsx:95-99 | a negative year's key splits at its leading "-", so the heading is "Invalid Date" |
| DataSyncBackup.DigitsLe | src/components/DataSyncBackup.tsx:92 | for digit strings of one length, string order is numeric order |
| DataSyncBackup.StrLeAppend | src/components/DataSyncBackup.tsx:92 | strings sharing a same-length prefix compare by the rest; otherwise by the prefixes |
| DataSyncBackup.MonthKeyOrder | src/components/DataSyncBackup.tsx:84-92 | for four-digit years, the keys' string order is the order of the months, and equal keys mean the same month |
| DataSyncBackup.FourDigitKey | src/components/DataSyncBackup.tsx:84 | a four-digit year gives a four-character year field that reads back as the year |
| DataSyncBackup.SortedKeys | src/components/DataSyncBackup.tsx:91-92 | `sort()` keeps the distinct keys and puts them in ascending string order |
| DataSyncBackup.ReverseDescends | src/components/DataSyncBackup.tsx:93 | reversing the sorted keys puts them in strictly descending order |
| DataSyncBackup.ReverseSortedDescends | src/components/DataSyncBackup.tsx:91-93 | sort then reverse keeps the distinct keys, strictly descending |
| DataSyncBackup.KeyOrderShape | src/components/DataSyncBackup.tsx:82-93 | the section order holds each key of the grouping once, strictly descending |
| DataSyncBackup.MonthOrderShape | src/components/DataSyncBackup.tsx:82-93 | the month order holds each entry's month key once, strictly descending |
| DataSyncBackup.NewestMonthFirst | src/components/DataSyncBackup.tsx:91-94 | for four-digit years, an earlier section is a later month |
| DataSyncBackup.OneSectionEach | src/components/DataSyncBackup.tsx:82-104 | every entry appears in exactly one section, that of its key |
| DataSyncBackup.EachEntryOneSection | src/components/DataSyncBackup.tsx:82-104 | every entry appears in exactly one month section, that of its month |
| DataSyncBackup.SectionEntries | src/components/DataSyncBackup.tsx:103-104 | a section lists the entries of its key, no more and no fewer, oldest first |
| DataSyncBackup.Mark | src/components/DataSyncBackup.tsx:118-122 | each mark is non-empty, without a space or a newline |
| DataSyncBackup.MarkInjective | src/components/DataSyncBackup.tsx:118-122 | distinct signifiers get distinct marks |
| DataSyncBackup.MapMarkInjective | src/components/DataSyncBackup.tsx:118-122 | the list of marks determines the list of signifiers |
| DataSyncBackup.JoinChars | src/components/DataSyncBackup.tsx:123 | joining pieces and separator without a character gives a text without it |
| DataSyncBackup.SignifierTextRecovers | src/components/DataSyncBackup.tsx:118-123 | the marks are "" exactly when there are no signifiers, and otherwise split at spaces back into one mark per signifier |
| DataSyncBackup.SignifiersDetermined | src/components/DataSyncBackup.tsx:118-123 | the marks text determines the signifiers |
| DataSyncBackup.SignifierTextStart | src/components/DataSyncBackup.tsx:118-123 | the marks text is empty or starts with the first character of a mark |
| DataSyncBackup.EntryLineBox | src/components/DataSyncBackup.tsx:111-125 | a line starts with a checkbox exactly for a task, ticked exactly when the task is complete |
| DataSyncBackup.EntryLineSingle | src/components/DataSyncBackup.tsx:125 | for content and date without a newline, each entry is exactly one line |
| DataSyncBackup.ItemLineBox | src/components/DataSyncBackup.tsx:137 | an item line starts "- [x] " exactly when checked and "- [ ] " exactly when not |
| DataSyncBackup.CollectionsOnlyWhenAny | src/components/DataSyncBackup.tsx:131-141 | the collections add their section after the months and change nothing else, and that section is empty exactly when there is no collection |
| DataSyncBackup.DocumentCollections | src/components/DataSyncBackup.tsx:131-141 | the same for any month grouping |
| DataSyncBackup.CollectionsPartEmpty | src/components/DataSyncBackup.tsx:132 | the section is empty exactly when there is no collection |
| DataSyncBackup.AppendEach | src/components/DataSyncBackup.tsx:105-126 | a `forEach` that appends one piece per element appends their concatenation |
| DataSyncBackup.AppendMonth | src/components/DataSyncBackup.tsx:95-128 | one month's pass appends its section: heading, entries oldest first, a blank line |
| DataSyncBackup.AppendCollection | src/components/DataSyncBackup.tsx:135-139 | one collection's pass appends its title, its item lines and a blank line |
| DataSyncBackup.AppendCollections | src/components/DataSyncBackup.tsx:134-140 | the collections loop appends every collection's block in order |
| DataSyncBackup.AppendSections | src/components/DataSyncBackup.tsx:94-129 | the months loop appends every section in the given order |
| DataSyncBackup.AppendMonths | src/components/DataSyncBackup.tsx:82-129 | the reduce and the months loop append the sections in section order |
| DataSyncBackup.BuildDocument | src/components/DataSyncBackup.tsx:77-141 | the accumulated text is the header, the sections newest first, and the collections part |
| DataSyncBackup.ExportToMarkdown | src/components/DataSyncBackup.tsx:77-141 | the accumulated text is the document grouped by "YYYY-MM" |
| DataSyncBackup.ImportAccepts | src/components/DataSyncBackup.tsx:165-182 | a backup is accepted exactly when it parses to an object whose `entries` is an array; it is imported only when confirmed, with its own entries |
| DataSyncBackup.ImportCollectionsDefault | src/components/DataSyncBackup.tsx:179 | a missing or falsy `collections` is imported as [] |
| DataSyncBackup.ExportImportRoundTrip | src/components/DataSyncBackup.tsx:165-179 | importing a JSON backup, confirmed, hands back its entries and collections |
| Grouping.KeysStep | src/components/IndexNavigation.tsx:63-69 | one more element adds its key to the insertion-ordered keys if it is new |
| Grouping.GroupStep | src/components/DataSyncBackup.tsx:85-86 | pushing the next element onto its key's list keeps every list equal to the elements of its key so far |
| Grouping.ListsStep | src/components/IndexNavigation.tsx:65-68 | the map update after one element keeps every list complete |
| Grouping.CoversStep | src/components/IndexNavigation.tsx:65-68 | the map update after one element keeps every element seen so far keyed |
| Grouping.KeysAgreeStep | src/components/IndexNavigation.tsx:65-66 | a key is appended exactly when the Map did not have it, so keys and Map agree |
| Grouping.GroupByKey | src/components/IndexNavigation.tsx:62-69 | the keys are the distinct keys in first-occurrence order, each with the non-empty list of exactly its elements in input order, and every element's key is present |
| Sorting.Insert | src/components/DailyMigrationDialog.tsx:49-53 | inserting adds exactly the one element |
| Sorting.SortBy | src/components/DataSyncBackup.tsx:92 | sorting is a permutation |
| Sorting.InsertSorted | src/components/DataSyncBackup.tsx:92 | inserting into a sorted list keeps it sorted |
| Sorting.SortBySorted | src/components/DataSyncBackup.tsx:92 | for a total preorder, the result is sorted |
| Sorting.KeyLeTotalPreorder | src/components/IndexNavigation.tsx:51 | comparing by a numeric key is a total preorder |
| Sorting.SortByKey | src/components/DataSyncBackup.tsx:103-104 | sorting by a numeric key gives a permutation in ascending key order |
| Sorting.InsertStable | src/components/DailyMigrationDialog.tsx:49-53 | insertion keeps the input order among elements of equal key |
| Sorting.SortByKeyStable | src/components/DailyMigrationDialog.tsx:49-53 | the sort is stable: elements of equal key keep their input order |
| Sorting.SortedFirst | src/components/DailyMigrationDialog.tsx:49-53 | the first element after sorting has the least key |
| Sorting.StrLeTotal | src/components/DataSyncBackup.tsx:92 | any two strings compare one way or the other |
| Sorting.StrLeTrans | src/components/DataSyncBackup.tsx:92 | string order is transitive |
| Sorting.StrLeAntisym | src/components/DataSyncBackup.tsx:92 | strings that compare both ways are equal |
| Sorting.StrCmp | src/components/DataSyncBackup.tsx:92 | the default string order is a total preorder |
| Sorting.Reverse | src/components/DataSyncBackup.tsx:93 | element i of the reversed list is element n - 1 - i of the list |
| IsoDates.PaddedValue | src/components/DataSyncBackup.tsx:84 | a zero-padded numeral is all digits and reads back as its number |
| IsoDates.YearFieldShape | src/components/HabitsTracker.tsx:61 | the year field starts with a digit exactly for years 0..9999 |
| IsoDates.YearFieldInjective | src/components/HabitsTracker.tsx:61 | distinct years have distinct year fields |
| IsoDates.CivilFieldParts | src/components/HabitsTracker.tsx:61 | the key splits back into the year field, the month number and the day |
| IsoDates.CivilFieldInjective | src/components/HabitsTracker.tsx:61 | distinct calendar dates have distinct keys |
| IsoDates.IsoDayInjective | src/components/HabitsTracker.tsx:61 | distinct days have distinct `toISOString().split("T")[0]` keys |
| PasswordRules.FirstBroken | src/components/auth/RegisterForm.tsx:23-40 | none exactly when every rule holds; otherwise a broken rule that every earlier rule lets through |
| PasswordRules.NoneBrokenIffStrong | src/components/auth/RegisterForm.tsx:23-40 | no rule is broken exactly when the password has 8 characters, a special character, an upper-case letter, a lower-case letter and a digit |
| PasswordRules.ShortReportsLength | src/components/auth/RegisterForm.tsx:24-26 | a short password breaks the length rule first |
| PasswordRules.FirstBrokenCons | src/components/auth/RegisterForm.tsx:24-39 | the first broken rule is the head when it breaks, else the first broken rule of the rest |
| PasswordRules.FirstBrokenChain | src/components/auth/RegisterForm.tsx:24-39 | the first broken rule is the one the `if` chain reaches first |
| RegisterForm.ValidatePasswordRules | src/components/auth/RegisterForm.tsx:23-40 | null exactly for a strong password; otherwise the message of the first rule broken |
| RegisterForm.ClientMessageInjective | src/components/auth/RegisterForm.tsx:25-37 | the five messages are distinct, so a message names its rule |
| RegisterForm.ShortPasswordMessage | src/components/auth/RegisterForm.tsx:24-26 | a short password always reports the length rule |
| RegisterForm.SubmitOrder | src/components/auth/RegisterForm.tsx:48-62 | a blank name is reported before any password rule, a password rule before the mismatch, and submit goes ahead exactly when all three checks pass |
| RegisterForm.MismatchLast | src/components/auth/RegisterForm.tsx:59-62 | a mismatch is reported only for a named user with a strong password |
| RegisterForm.RegisterFormState.constructor | src/components/auth/RegisterForm.tsx:15-21 | empty fields, no error, no success, not loading |
| RegisterForm.RegisterFormState.Validate | src/components/auth/RegisterForm.tsx:48-62 | the checks in order return the first failure's message |
| RegisterForm.RegisterFormState.HandleSubmit | src/components/auth/RegisterForm.tsx:42-78 | a failed check shows its message and changes nothing else; otherwise `onRegister` is called once, success clears the four fields and sets success, a rejection shows its message or the fallback, and loading ends false |
| Server.SignupGuards | src/supabase/functions/server/index.tsx:66-87 | a refusal is always a 400; going on carries the three fields of the body |
| Server.MissingFieldRejected | src/supabase/functions/server/index.tsx:68-70 | the "required" error is given exactly when a field is missing or empty |
| Server.ServerAgreesWithClient | src/supabase/functions/server/index.tsx:73-87 | with all fields given, the endpoint goes on exactly when the client's `validatePassword` returns null, and otherwise both report the same first broken rule |
| Server.BearerToken | src/supabase/functions/server/index.tsx:41-46 | an error exactly when the header is absent or does not start with "Bearer ", with the one message |
| Server.SplitAfterPrefix | src/supabase/functions/server/index.tsx:46 | a header with the prefix splits into at least two fields, the first "Bearer" |
| Server.TokenIsSecondField | src/supabase/functions/server/index.tsx:46 | the token is the second space-separated field; "Bearer " + t gives t |
| Server.SplitPrefix | src/supabase/functions/server/index.tsx:46 | splitting at the first separator gives the part before it, then the split of the rest |
| AddEventDialog.CharsRemaining | src/components/AddEventDialog.tsx:43 | 500 minus the length, in 0..500 for a description the guard let through |
| AddEventDialog.NearLimitFrom451 | src/components/AddEventDialog.tsx:44 | the counter turns red exactly past 450 characters |
| AddEventDialog.SubmitCallShape | src/components/AddEventDialog.tsx:49-57 | all-day passes no times, otherwise both; a pattern exactly when recurring; the content untrimmed |
| AddEventDialog.StoredEventShape | src/components/AddEventDialog.tsx:49-57 | the stored event is an incomplete, upcoming event; an all-day one has no times, a one-off one no pattern |
| AddEventDialog.AddEventDialogState.constructor | src/components/AddEventDialog.tsx:33-41 | empty description, 09:00 to 10:00, not all-day, "other", not recurring, "weekly", the default date or now, closed |
| AddEventDialog.AddEventDialogState.OnContentChange | src/components/AddEventDialog.tsx:97-101 | a value of at most 500 characters is taken whole, a longer one refused, so the description never exceeds 500 |
| AddEventDialog.AddEventDialogState.HandleSubmit | src/components/AddEventDialog.tsx:46-68 | a blank description changes nothing; otherwise `onAdd` is logged with the form's values, the fields reset and the dialog closes |
| AddEventDialog.AddEventDialogState.OnKeyDown | src/components/AddEventDialog.tsx:104-108 | Enter with Cmd or Ctrl behaves exactly as `handleSubmit`: with a non-blank description the call is logged and every field resets (the date to the default date or now) and the dialog closes; any other key, or a blank description, leaves all ten fields and the log unchanged |
| Common.Filter | src/App.tsx:193 | `filter` keeps exactly the elements that pass, every kept element passes, and no more of them than there were (order is stated by `Common.FilterAppend` and `Common.FilterCons`) |
| Common.FilterAppend | src/App.tsx:193 | `filter` splits over concatenation, so the kept elements stay in their original order |
| Common.FilterCons | src/App.tsx:193 | the first element is kept exactly when it passes, ahead of the filtered rest |
| Common.FilterPartition3 | src/components/MigrationWizard.tsx:54-57 | three disjoint, covering tests split a list: the sizes add up and the parts recombine to the list |
| Common.FilterFull | src/components/HabitsTracker.tsx:114 | the filter keeps every element exactly when every element passes |
| Common.FilterEmpty | src/components/HabitsTracker.tsx:114 | the filter keeps nothing exactly when no element passes |
| Common.FilterComplement | src/App.tsx:193 | a test and its complement split a list |
| Common.Take | src/components/IndexNavigation.tsx:45 | `slice(0, n)` is a prefix of length min(n, length) |
| Common.Map | src/components/MigrationWizard.tsx:96 | `map` applies the function at every position |
| Common.SetAdd | src/components/MigrationWizard.tsx:74-78 | `Set.add` keeps the Set free of duplicates and adds exactly x, at the end when new |
| Common.Dedup | src/components/MigrationWizard.tsx:96-104 | `new Set(list)` holds each element of the list once |
| Common.DedupSnoc | src/components/IndexNavigation.tsx:81 | the Set of a list with one more element is the Set with that element added |
| Common.DedupOfNoDup | src/components/MigrationWizard.tsx:104 | a Set built from a duplicate-free list is that list |
| Common.Toggle | src/components/DailyLog.tsx:185-189 | the element changes membership and no other element does |
| Common.ToggleNoDup | src/components/DailyLog.tsx:185-195 | toggling keeps a list free of duplicates |
| Common.ToggleTwice | src/components/BulletEntry.tsx:183-192 | toggling twice restores membership, and the list itself when the element was absent |
| Text.TrimStart | src/components/auth/RegisterForm.tsx:48 | the white space removed at the front is all white space, and what is left starts with another character |
| Text.TrimEnd | src/components/auth/RegisterForm.tsx:48 | the same at the end |
| Text.TrimEmptyIffBlank | src/components/AddEventDialog.tsx:47 | `trim()` gives "" exactly for a string of white space only |
| Text.Lower | src/components/IndexNavigation.tsx:42-44 | same length, each ASCII capital lowered |
| Text.LowerSlice | src/components/IndexNavigation.tsx:44 | lowercasing commutes with taking a slice |
| Text.Contains | src/components/IndexNavigation.tsx:44 | `includes` holds exactly when the text occurs at some position |
| Text.ContainsEmpty | src/components/DailyLog.tsx:158-160 | every string includes "" |
| Text.Split | src/supabase/functions/server/index.tsx:46 | `split` gives at least one piece, none holding the separator |
| Text.SplitJoin | src/components/DataSyncBackup.tsx:95 | joining the pieces of a split gives the string back |
| Text.JoinSplit | src/components/DataSyncBackup.tsx:123 | splitting pieces without the separator after joining them gives the pieces back |
| Text.SplitOnce | src/components/BulletEntry.tsx:150 | a string with one separator splits into its two sides |
| Text.SplitAt | src/components/BulletEntry.tsx:150 | a string whose only separator is at k splits into the parts before and after k |
| Text.NatToString | src/components/DataSyncBackup.tsx:84 | a numeral is a non-empty digit string |
| Text.NatToStringValue | src/components/DataSyncBackup.tsx:84 | the numeral reads back as the number |
| Text.PadStart2 | src/components/DataSyncBackup.tsx:84 | `padStart(2, "0")` gives at least two characters |
| Text.PadZerosValue | src/components/DataSyncBackup.tsx:84 | padding with zeros keeps the value and the all-digit shape |
| Text.ParseTwoDigits | src/components/BulletEntry.tsx:151 | `parseInt` of two digits is their value |
| Text.ParseDigits | src/components/DataSyncBackup.tsx:96 | `parseInt` of a digit string is its decimal value |
| Text.ParseNumeral | src/components/DataSyncBackup.tsx:96 | `parseInt` reads a numeral back as its number |
| Text.JsRem | src/components/BulletEntry.tsx:153 | JavaScript's `%` takes the sign of the dividend: Euclidean for non-negative operands, in -b+1..0 for negative ones |
| Dates.MonthLength | src/components/MonthlyLog.tsx:64-65 | every month has 28 to 31 days |
| Dates.DaysBeforeMonthStep | src/components/MonthlyLog.tsx:64-65 | month starts add up month by month to the year's length |
| Dates.YearStartStep | src/components/MonthlyLog.tsx:60-61 | consecutive years start a year's length apart |
| Dates.CivilFromDays | src/components/MonthlyLog.tsx:60-61 | every day number has a valid calendar date that maps back to it |
| Dates.CivilInjective | src/components/MonthlyLog.tsx:60-61 | distinct valid dates have distinct day numbers |
| Dates.CivilRoundTrip | src/components/MonthlyLog.tsx:60-61 | a valid date maps to its day number and back |
| Dates.TimeInDay | src/components/BulletEntry.tsx:59 | the time of day is in 0..one day |
| Dates.StartOfDay | src/components/HabitsTracker.tsx:70 | `setHours(0, 0, 0, 0)` stays on the day, at midnight, not later than the instant |
| Dates.WeekDay | src/components/MonthlyLog.tsx:68 | `getDay` is in 0..6 |
| Dates.LocalDate | src/components/MonthlyLog.tsx:63 | `new Date(y, m, d)` is at midnight |
| Dates.MakeDayInMonth | src/components/MonthlyLog.tsx:87 | a day inside the month names that calendar date |
| Dates.MakeDayInAnyMonth | src/components/MonthlyLog.tsx:78-97 | a month index outside 0..11 carries into the year |
| Dates.DayZero | src/components/MonthlyLog.tsx:64-71 | day 0 of a month is the last day of the month before |
| Dates.SetDateShift | src/components/BulletEntry.tsx:172 | `setDate(getDate() + k)` adds exactly k days of milliseconds |
| Dates.SetHoursSameDay | src/components/BulletEntry.tsx:59 | `setHours(h, m)` within the clock stays on the same day and keeps seconds and milliseconds |
| Dates.InMonthIff | src/App.tsx:206-209 | a day lies in a month's run of day numbers exactly when its year and month are that month's |
| Dates.MidnightCompare | src/components/MigrationWizard.tsx:40 | comparing an instant with a midnight is comparing day numbers |
| Dates.MonthWindow | src/components/MigrationWizard.tsx:32-40 | the instants from the 1st to the next month's 1st are exactly those of the month |
| Dates.SetDateFirst | src/components/MigrationWizard.tsx:110 | `setDate(1)` goes to the 1st of the same month at the same time |
| Dates.SetMonthFromFirst | src/components/MigrationWizard.tsx:108-110 | from the 1st, `setMonth(m)` lands on the 1st of month m, carrying into the year |
| Dates.SetMonthLanding | src/components/MonthlyLog.tsx:41-47 | from a day every month has, `setMonth(m)` keeps the day and lands in month m, carrying into the year |
| Dates.SetMonthFromJanuary31 | src/components/MonthlyLog.tsx:47 | January 31 moved to February runs into March |
| Dates.LocalFirstWeekDay | src/components/MonthlyLog.tsx:63-68 | the weekday of the 1st counts from the Thursday of day 0 |
| Dates.LocalLastDay | src/components/MonthlyLog.tsx:64-65 | day 0 of the next month shows as the month's length |
| Dates.LocalDayZero | src/components/MonthlyLog.tsx:71 | day 0 of a month shows as the previous month's length |
| Dates.LocalDateCivil | src/components/MonthlyLog.tsx:78-97 | `new Date(y, m, d)` within the month length names that date, the month carrying into the year |
| Dates.FebruaryThirtyFirst | src/components/MonthlyLog.tsx:47 | day 31 of February is in March |

## Left out

- Time zones and daylight saving: the local zone is UTC, so a local midnight is a multiple of a day's milliseconds and every day is 24 hours long.
- The clock: `new Date()` and "today" are parameters of the members that read them.
- Locale formatting: `toLocaleDateString` (the long month heading, the short entry date, the export date) and `toDateString` are function parameters. Groups keyed by `toDateString` are keyed by the day number, which determines that string.
- Floating point: `Math.round(completed / days * 100)` is computed exactly on integers (`Habits.RoundRatio`), and the `toFixed` displays of percentages and sizes are left out.
- `toISOString` throwing a `RangeError` for an instant outside its range is not modelled; the key is defined for every instant.
- `toLowerCase` lowers ASCII capitals only; strings are sequences of code points, so a `length` counts code points rather than UTF-16 units.
- The explore mark and the event bullet of the Markdown export are the characters the source file holds, which are a mis-encoded eye emoji and circle.
- The unreachable `return ""` of the signifier map (src/components/DataSyncBackup.tsx:122) is dropped: `Signifier` has only the three values, so `Mark` is total without it. A signifier string outside the three, which only an unchecked import could bring in, is not modelled.
- Persistence: localStorage, the file download and upload (Blob, URL, FileReader), the simulated backup delay and the inactivity timer. The JSON text is taken as already parsed into a `Json` value whose numbers are integers.
- `DataSyncBackup.ImportBackup`: the check tests only that `entries` is an array, as the code does. A truthy `collections` value that is not an array is passed on unchanged.
- The sign-up request body is taken to be a JSON object whose fields are strings or absent (`Server.SignupGuards` over `Option<string>`). A truthy non-string field is not modelled: a numeric password has no `length`, so the length guard is skipped and the pattern tests read its string form. A body that does not parse, which the route answers with status 500 from its `catch`, is not modelled either.
- The network and authentication: the auth-service calls in the server's sign-up route after the guards, and the user lookup in `verifyAuth` after the token is taken. The client's `onRegister` promise is an outcome parameter.
- `window.confirm` in the import is a parameter, and so are the answer of the native date picker and dialog open/close events coming from the UI toolkit.
- Rendering: JSX, icons, colour classes, keyboard shortcuts other than Cmd/Ctrl+Enter in the event form, gestures other than the swipe outcome, the theme customiser and the navigation bars.
- The other entry dialogs and the collection and habit forms: they hold only a trimmed-non-empty check and a length cap, which the event form's model covers. The event form's setters other than the description are plain assignments and are not modelled one by one.
- `AddEventDialogState.OnContentChange` follows the code, which refuses a description longer than 500 characters. The component's test file expects the text to be cut to 500 characters instead.
- The auto-close of the catch-up dialog runs after a `setTimeout`; it is modelled as closing at once.
- DailyMigration.DailyMigrationDialog.AutoClose: closes on the corrected count, the tasks of the current list not yet processed (`Unreviewed`), not on `remainingCount` as written; `RemainingCountAgrees` shows the two agree while every processed id belongs to the list, and `RemainingUndercounts` shows where they part.
- DailyLog's `allEntries` and its catch-up callbacks (`onMigrateTask`, `onScheduleTask`, `onCancelTask`): `App` passes none of them (src/App.tsx:376-384). `allEntries` is destructured without a default (src/components/DailyLog.tsx:52), so `allEntries.filter` in the mount effect (src/components/DailyLog.tsx:70) throws a TypeError when the daily tab mounts, and the scan for unprocessed tasks never runs in the app as written. The model assumes that `App` passes the full entry list as `allEntries`, and it models the three callbacks as abstract, logged calls.
- The database wrappers, the migration helpers mocked in the task tests and any migration ledger are not part of this model; the components update the entry row in place.
- Years 0 to 99: `new Date(y, m, d)` reads such a year as 1900 + y, as the model does. `MigrationWizard.CandidateIffSameMonth` and `MonthlyLog.EntryInOneCell` therefore require the shown year to be outside 0..99. The export writes such a year unpadded ("50-03"), so `DataSyncBackup.MonthHeadingOfKey` reads it back as a month of 1950, as the app does.
- `MonthlyLog.NavigationSteps`, `MonthlyLog.NextThenPrevious` and `MonthlyLog.PreviousThenNext` require a day of the month of at most 28. From the 29th to the 31st, `setMonth` can run into the month after; `MonthlyLog.NextMonthFromJanuary31` states that case.
- `Dates.SetMonthLanding` requires a day of at most 28 for the same reason, and `Dates.SetMonthFromFirst` starts from the 1st.
- `DataSyncBackup.MonthKeyOrder` and `DataSyncBackup.NewestMonthFirst` hold for four-digit years. Shorter years are not padded, so their keys do not sort as the months do. A negative year makes the heading "Invalid Date" (`DataSyncBackup.NegativeYearHeading`).
- `DataSyncBackup.MonthHeadingOfKey` is stated for years of 0 and above; the negative case is the lemma above.
- `Habits.PercentExtremes` and `Habits.CompletionRateExtremes` require fewer than 200 days; the tracker computes the rate over 7. With 200 days or more, one missed day can still round to 100%.
- Years outside 0..9999: the `toISOString` day key is then written with a sign and six digits, as ECMAScript prescribes, so the habit keys of distinct days stay distinct (`Habits.IsoDayIsInjective` holds for every day).

## Findings

| source | as written | input that shows it | evidently intended | confidence | as-written member | corrected member |
|---|---|---|---|---|---|---|
| src/components/MonthlyLog.tsx:316-337 with src/App.tsx:189 | each `onUpdateEntry` call maps the same `entries` snapshot, so in one handler only the last call's change survives | cancel two open tasks a, b at once: a stays open and only b is cancelled | every selected entry is updated, one call after the other | not executed | MonthlyLog.AsWrittenKeepsOnlyLast | MonthlyLog.BulkApplyEffect |
| src/components/MigrationWizard.tsx:32-40 | the month window ends at 00:00 of the last day | an open task at 10:00 on the last day of the shown month is not offered for migration | every open task of the shown month is a candidate | not executed | MigrationWizard.LastDayMorningTaskMissed | MigrationWizard.CandidateIffSameMonth |
| src/components/MigrationWizard.tsx:108-110 | `setMonth(getMonth() + 1)` runs before `setDate(1)`, so from the 29th to the 31st it can run past the next month | shown month viewed from October 31: the target is December 1 | the 1st of the following month | not executed | MigrationWizard.NextMonthAsWrittenSkips | MigrationWizard.NextMonthFirstIsNextMonth |
| src/App.tsx:213-218 with src/components/FutureLog.tsx:79-87,93-99 | the future log gets only the entries of its year, yet its six-month view shows cards of the following year | a January entry of next year: its card in the six-month view is empty | each card shows the entries of its own month and year | not executed | FutureLog.NextYearEntryMissed | FutureLog.ShownEntriesAgreeInYear |
| src/components/DailyMigrationDialog.tsx:105 with src/components/DailyLog.tsx:83-85 | `remainingCount` subtracts the size of the processed Set, which keeps ids of tasks that are no longer in the list | skip task a of [a, b], press Escape (the Set is not reset), then a scan for another day finds only c: the count is 1 − 1 = 0 and the dialog closes before c is shown; likewise, migrating a out of [a, b] and rescanning gives [b] with 0 remaining | the dialog closes once every task of the current list has been processed | not executed | DailyMigration.RemainingUndercounts | DailyMigration.UnreviewedIffNoCurrent |
