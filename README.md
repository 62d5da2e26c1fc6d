# DailyNote alarm engine in Dafny

This project models the alarm-scheduling core of `NoteApplication` in
`DailyNote.py`, a GTK desk-calendar application. The core consists of:

- **The tick.** `check_alarms` runs once a second. It opens an alarm window for
  every note whose alarm row is set for today at the current `"HH:MM"`. It then
  opens one for every enabled recurring ("fixed") reminder whose weekly,
  monthly or yearly rule selects today at that minute. The window is opened
  only when the alarm's id is not already in `active_alarms`, and each id it
  opens is added to that set.
- **The window's responses.** Snooze, dismiss, closing the window, and the
  window's own timeout (`stop_alarm_sound_and_window`). They take the id out of
  `active_alarms`, and for a note's alarm they rewrite or delete its alarm row.
- **The tables the engine reads.**
  - `notes`, `alarms` and `fixed_notes` are held in memory. `alarms` is a map
    keyed by note id; the other two are sequences in id order.
  - The `save_*_db` / `delete_*_db` operations update them.
  - So do the save, delete and switch handlers of the reminder list.
- **The helpers the engine depends on.**
  - The `"YYYY-MM-DD"` and `"HH:MM"` keys the scan compares.
  - The weekday encoding `"0,2,4"` of a weekly rule and its decoding by the
    edit window.
  - The rule-description line of the reminder list.
  - Where the monthly and weekly views place each day.

Module layout (one module per file):

| file | module | contents |
|---|---|---|
| `wrappers.dfy` | `Wrappers` | `Option` (a nullable column, a missed lookup, a raise) |
| `text.dfy` | `Text` | `str(n)`, the `:02d` field, `str.split` / `str.join` |
| `calendar.dfy` | `Calendar` | The proleptic Gregorian calendar of Python's `datetime`: ordinals, `weekday()`, day stepping, the date and time keys |
| `store.dfy` | `Store` | The note and alarm rows, and the alarm-id space `int` / `"fixed_<id>"` |
| `rules.dfy` | `Rules` | The reminder row, its rule test, the edit window's encoding, the description line |
| `scheduler.dfy` | `Scheduler` | What a tick fires, as functions of the tables, the clock and the active set; the snoozed time |
| `grid.dfy` | `Grid` | The month and week views' cell placement |
| `engine.dfy` | `Engine` | The class `AlarmEngine`, with the tables, `active_alarms` and the open windows as fields, and the tick, the responses and the table updates as methods |

**The state.**
- `AlarmEngine` keeps every window it has shown in `windows`. A window is
  addressed by its index there (its handle), and it becomes `None` once closed.
- The class invariant `Valid()` states that `active_alarms` is exactly the set
  of ids of the open windows, with one window per id. It also states that the
  tables stay in id order, below their AUTOINCREMENT counters.

**How the tick is proved.**
- `CheckAlarms` is proved against `Scheduler.Scan`, a function of the tables,
  the clock and the active set before the tick.
- `Scan` threads the growing active set through both loops, as the code does.
- `ScanIsFilter` proves that `Scan` equals a plain filter against the active
  set as it was before the tick. This holds because note ids are distinct and
  the strings `"fixed_<n>"` never equal an int id.

**The clock is a parameter.** The clock `now` of a tick, and the clock of a
snooze, are arguments: a date, an hour and a minute. The weekday is computed
from the date.

**Two behaviours kept as the code has them.**
- *Re-firing.* Only `active_alarms` stops an alarm from firing again. Once a
  window is closed, and this includes the 10-second timeout of a fixed
  reminder, the same reminder fires again at the next tick of the same minute
  (`ReleasedReminderFiresAgain`, `ReleasedNoteFiresAgain`).
- *Snooze keeps the date.* A snooze that wraps past midnight keeps the note's
  date. The rewritten row then matches only a minute earlier that same day
  (`SnoozePastMidnight`).

**Assumptions the model makes where the behaviour depends on the platform or on stored data.**
- The model assumes that `"%Y"` writes the year as `str(year)`, without
  padding. Python versions that hand `strftime` to glibc render it this way;
  other Python versions and platforms pad it to four digits. Under that
  assumption the `strftime` key (`DailyNote.py:751`) and the f-string key
  `f"{year}-{month+1:02d}-{day:02d}"` (`DailyNote.py:464`) agree, and both are
  `Calendar.DateKey`. For the years 1000 to 9999 every rendering agrees.
- A reminder's row may carry a `repeat_type` other than the three the edit
  window writes (NULL, for instance). Such a rule never matches at the scan.
  The list nevertheless describes it as weekly, because of `or 'weekly'`.
- A yearly rule saved without a month raises in `int(None)`. The model gives
  it its own outcome, `Raised`.

## Model

| member | source | states |
|---|---|---|
| Engine.AlarmEngine.constructor | DailyNote.py:123-125 | The engine starts with the loaded tables, an empty `active_alarms` and no window; the invariant holds |
| Engine.AlarmEngine.CheckAlarms | DailyNote.py:748-785 | One tick opens exactly the windows of `Scan`, in order. It adds exactly their ids to `active_alarms` and changes no table. The invariant is kept |
| Engine.AlarmEngine.RingOneTimeAlarms | DailyNote.py:752-756 | The first loop opens exactly `DueOneTime`'s windows over the notes in order. The ledger grows by their ids and the tables stay unchanged |
| Engine.AlarmEngine.RingNote | DailyNote.py:753-756 | A note rings iff it has an alarm row, is dated today, its row's time is the current minute, and its int id is inactive. Then its id is added and one window with the row's sound, volume and duration is shown; otherwise nothing changes |
| Engine.AlarmEngine.RingFixedNotes | DailyNote.py:763-784 | The query for enabled rows at this minute, followed by the second loop, opens exactly `DueFixed` of the queried rows |
| Engine.AlarmEngine.RingRows | DailyNote.py:768-784 | The loop over the queried rows opens exactly `DueFixed` of them, growing the ledger by their tagged ids |
| Engine.AlarmEngine.RingRow | DailyNote.py:768-784 | One loop step extends what has rung by exactly what `DueFixed` adds for row `j` |
| Engine.AlarmEngine.RingFixedNote | DailyNote.py:769-784 | A queried row rings iff `"fixed_<id>"` is inactive and its rule selects today. Then the tagged id is added and a window with no sound, volume 80 and 10 seconds is shown; otherwise nothing changes |
| Engine.AlarmEngine.Raise | DailyNote.py:780-784 | Adding a fresh id and showing its window keeps "active set = ids of open windows, one window per id" |
| Engine.AlarmEngine.ShowAlarmPopup | DailyNote.py:787-870 | A new window appears at the next handle; nothing else changes |
| Engine.AlarmEngine.ActionClose | DailyNote.py:837-841 | The window closes and exactly its id leaves `active_alarms`; no table changes |
| Engine.AlarmEngine.Snooze | DailyNote.py:843-854 | For a positive snooze of a note's alarm, that alarm row becomes the wrapped `"HH:MM"` with the window's sound, volume and duration. Other alarm rows and every note, date included, are unchanged. With 0 minutes or a fixed id no table changes. In every case the id leaves the active set |
| Engine.AlarmEngine.Dismiss | DailyNote.py:856-861 | For a note's alarm exactly its alarm row is deleted and the note stays; for a fixed id no table changes; the id leaves the active set |
| Engine.AlarmEngine.WindowClose | DailyNote.py:863-865 | Closing by hand is a plain close and returns False |
| Engine.AlarmEngine.StopAlarmSoundAndWindow | DailyNote.py:872-880 | The id leaves the active set. With `delete_from_db` and an int id that alarm row is deleted; otherwise no table changes. It returns False |
| Engine.AlarmEngine.Timeout | DailyNote.py:835 | The armed timeout (`delete_from_db=True`) deletes a note's alarm row and releases the id; a fixed reminder's row is untouched |
| Engine.AlarmEngine.SaveAlarm | DailyNote.py:575-580 | INSERT OR REPLACE: the alarm map takes the row at the note id; nothing else changes |
| Engine.AlarmEngine.DeleteAlarm | DailyNote.py:599-604 | The alarm map loses exactly that key |
| Engine.AlarmEngine.DeleteNote | DailyNote.py:590-597 | The note table loses exactly the rows with that id and the alarm map loses that key; id order is kept |
| Engine.AlarmEngine.SaveNote | DailyNote.py:563-573 | An existing id updates that row in place; a new note is appended under the counter's id, which is returned and the counter advances |
| Engine.AlarmEngine.SaveFixedForm | DailyNote.py:1572-1599 | The form's outcome is `FixedNoteOfForm`. A saved row updates the existing reminder or is appended under a fresh id; an ignored or raising save changes nothing |
| Engine.AlarmEngine.DeleteFixedNote | DailyNote.py:1601-1615 | The reminder is removed only on Yes, and id order is kept |
| Engine.AlarmEngine.SetFixedAlarmEnabled | DailyNote.py:1710-1718 | Only the `alarm_enabled` flag of the rows with that id changes |
| Engine.LedgerAfterShow | DailyNote.py:755-756 | Adding an inactive id together with its window keeps the ledger equal to the open windows' ids, one window per id |
| Engine.LedgerAfterClose | DailyNote.py:837-841 | Closing a window and removing its id keeps that correspondence |
| Engine.DueOneTimeStep | DailyNote.py:752-756 | One more note extends `DueOneTime` by its window exactly when it is due against the ledger so far |
| Engine.DueFixedStep | DailyNote.py:768-784 | One more row extends `DueFixed` by its window exactly when it is due against the ledger so far |
| Engine.EnabledRows | DailyNote.py:764-765 | Every row the query returns is enabled and set for the queried time |
| Engine.WithoutNote | DailyNote.py:593 | `DELETE FROM notes WHERE id=?`: a note survives iff its id differs |
| Engine.WithoutNoteInOrder | DailyNote.py:590-597 | The deletion keeps the notes in increasing id order |
| Engine.UpdateNote | DailyNote.py:567 | `UPDATE notes … WHERE id=?`: every row keeps its place and id; a row is in the result iff it was there under another id, or it is the new row and its id was present; with no row under that id the table is unchanged |
| Engine.UpdateFixed | DailyNote.py:1620-1625 | `UPDATE fixed_notes … WHERE id=?`: every row keeps its place and id; a row is in the result iff it was there under another id, or it is the new row and its id was present; with no row under that id the table is unchanged |
| Engine.SetEnabled | DailyNote.py:1714 | `UPDATE fixed_notes SET alarm_enabled=? WHERE id=?`: every column but the flag is kept in every row; every row with that id carries the new flag; the other rows are unchanged |
| Engine.SwitchedOffNeverFires | DailyNote.py:1710-1718 | After its switch is turned off, no tick opens a window for the reminder, whatever the other tables and the active set hold |
| Scheduler.DisabledNotDue | DailyNote.py:764-784 | A reminder whose rows are all switched off gets no window from the reminders' filter |
| Engine.WithoutFixed | DailyNote.py:1610 | `DELETE FROM fixed_notes WHERE id=?`: a row survives iff its id differs |
| Engine.WithoutFixedInOrder | DailyNote.py:1601-1615 | The deletion keeps the reminders in increasing id order |
| Scheduler.DueOneTime | DailyNote.py:752-756 | The first loop's windows: every id is an int id not active before the tick, and no id appears twice |
| Scheduler.DueNotes | DailyNote.py:752-756 | The reference filter: one window per note that is due against the ledger before the tick, every id a note's |
| Scheduler.DueOneTimeIsFilter | DailyNote.py:752-756 | With distinct note ids, the loop that grows the ledger as it goes opens exactly the reference filter's windows |
| Scheduler.DueNotesMembers | DailyNote.py:754 | With distinct note ids, a note's window is opened iff the note has an alarm row, is dated today at this minute, and its id is inactive |
| Scheduler.EnabledAt | DailyNote.py:764 | `WHERE alarm_enabled=1 AND event_time=?`: a row is returned iff it is enabled and set for that time |
| Scheduler.DueFixed | DailyNote.py:768-784 | The second loop's windows: every id is a tagged string id not active before, and no id appears twice |
| Scheduler.DueReminders | DailyNote.py:768-784 | The reference filter over the reminders; every id is some row's tagged id |
| Scheduler.DueFixedIsFilter | DailyNote.py:768-784 | With distinct reminder ids, the loop opens exactly the reference filter's windows |
| Scheduler.DueRemindersMembers | DailyNote.py:769-781 | With distinct reminder ids, a reminder's window is opened iff it is enabled, set for this minute, its tagged id is inactive, and its rule selects today |
| Scheduler.DueFixedOfEnabled | DailyNote.py:764-768 | Scanning the queried rows equals scanning the whole table: the SQL filter drops only rows that could not fire |
| Scheduler.LastTaggedIdFresh | DailyNote.py:769 | With distinct reminder ids, the tagged ids are distinct too |
| Scheduler.Scan | DailyNote.py:748-785 | A tick's windows, notes first: no id was active before, and none appears twice |
| Scheduler.ScanIsFilter | DailyNote.py:748-785 | With distinct ids a tick equals the notes' filter followed by the reminders' filter against the ledger before the tick; the first loop cannot hide a reminder because the id spaces never meet |
| Scheduler.DueRemindersSameLedger | DailyNote.py:770 | The reminders' filter depends on the ledger only through each row's own gate |
| Scheduler.NoNoteDue | DailyNote.py:754 | When no note is due, the notes' filter is empty |
| Scheduler.NoReminderDue | DailyNote.py:770-779 | When no reminder is due, the reminders' filter is empty |
| Scheduler.SecondTickFiresNothing | DailyNote.py:764-781 | A second tick in the same minute, with the ledger the first tick left, opens nothing |
| Scheduler.ReleasedNoteFiresAgain | DailyNote.py:837-841 | After a note's window closes (its id released, tables unchanged), the same minute fires that note again |
| Scheduler.ReleasedReminderFiresAgain | DailyNote.py:872-880 | After a reminder's window closes (including its 10-second timeout), the same minute fires that reminder again |
| Scheduler.SnoozeMinuteOfDay | DailyNote.py:846 | The snoozed minute is a minute of the day (below 1440) |
| Scheduler.SnoozeTime | DailyNote.py:846 | The snoozed `"HH:MM"` has five characters |
| Scheduler.ClockMinute | DailyNote.py:750 | The clock's `"%H:%M"` is the text of its minute of the day |
| Scheduler.ClockAtMinute | DailyNote.py:750 | An `"HH:MM"` text equals the clock's iff it names the clock's minute of day |
| Scheduler.SameDay | DailyNote.py:751 | Two clocks have the same `"%Y-%m-%d"` iff they are on the same date |
| Scheduler.SnoozeMinute | DailyNote.py:846 | The snoozed time equals a clock's `"%H:%M"` iff that clock is at `(now + m) mod 1440` |
| Scheduler.SnoozedAlarmMatches | DailyNote.py:843-854 | The snoozed row of a note dated today matches exactly the clocks of the same date at the wrapped minute |
| Scheduler.WrapsPastMidnight | DailyNote.py:846 | A snooze shorter than a day that crosses midnight lands at `now + m - 1440`, earlier than `now` |
| Scheduler.SnoozePastMidnight | DailyNote.py:843-854 | A snooze across midnight keeps the date, so its row matches only a clock earlier the same day: it never rings again |
| Store.FixedAlarmId | DailyNote.py:769 | The tagged id is a string starting with `"fixed_"` |
| Store.FixedAlarmIdInjective | DailyNote.py:769 | Tagged ids are equal iff the reminder ids are, and no tagged id equals an int id |
| Store.LoadAlarm | DailyNote.py:582-588 | The lookup of a note's alarm row, `None` when there is none; `Store.LoadAfterSave` and `Store.LoadAfterDelete` state what it reads back after the writes |
| Store.LoadAfterSave | DailyNote.py:575-588 | After `save_alarm_db` (INSERT OR REPLACE), `load_alarm_db` reads back exactly the row written; every other note's alarm reads as before |
| Store.LoadAfterDelete | DailyNote.py:582-604 | After `delete_alarm_db`, `load_alarm_db` finds nothing for that note; every other note's alarm reads as before |
| Rules.MonthlyRuleDays | DailyNote.py:776-777 | A monthly rule matches iff today's day equals `repeat_day`; a day past the month's length never matches |
| Rules.DecodeWeekdays | DailyNote.py:1536-1541 | The edit window fills in seven weekday boxes |
| Rules.TickedDaysFacts | DailyNote.py:1586 | The ticked indices are single digits without commas; `str(i)` is among them iff box `i` is ticked; none iff no box is |
| Rules.WeekdaysRoundTrip | DailyNote.py:1585-1587 | Saving seven boxes as `",".join` and reading them back with `str(i) in s.split(',')` ticks exactly the same boxes |
| Rules.FixedNoteOfForm | DailyNote.py:1572-1599 | Save is ignored iff the title is empty; it raises iff a yearly rule has no month; otherwise the row keeps the title, time, alarm flag and rule type, with the ids it is given |
| Rules.SavedRuleMatchesForm | DailyNote.py:1583-1593 | The saved row's rule selects exactly the days the form's controls showed (boxes, monthly day, yearly day and month) |
| Rules.SpinDay | DailyNote.py:1491 | A day spin button shows a value in 1..31, the set value itself when it lies there |
| Rules.EditThenSaveUnchanged | DailyNote.py:1529-1546 | Reopening a saved reminder restores the rule controls, and saving again unchanged writes the same row |
| Rules.LabelsOfTickedDays | DailyNote.py:1671 | The `day_map` labels of saved weekday indices are the ticked days' names, in order, without KeyError |
| Rules.TickedNamesEmpty | DailyNote.py:1669-1671 | No day name is listed iff no box is ticked |
| Rules.WeeklyDescription | DailyNote.py:1667-1671 | A weekly reminder's rule part is `"Every "` plus the ticked days joined by `", "`, or empty exactly when no day is ticked |
| Rules.DescribePrefix | DailyNote.py:1680-1689 | The line starts with `"Alarm:"` iff the alarm is enabled and there is a time |
| Rules.DescriptionOfSavedRow | DailyNote.py:1662-1689 | Every reminder saved from the edit window can be described, and its line starts with `"Alarm:"` iff the alarm box was ticked |
| Calendar.DaysInMonth | DailyNote.py:1396 | `monthrange(...)[1]` lies in 28..31 |
| Calendar.Ordinal | DailyNote.py:1327 | `toordinal()` lies in 1..3652059 (0001-01-01 .. 9999-12-31) |
| Calendar.Weekday | DailyNote.py:758 | `weekday()` lies in 0..6 |
| Calendar.OrdinalBounds | DailyNote.py:1334 | 0001-01-01 is day 1 and 9999-12-31 is day 3652059 |
| Calendar.DaysBeforeYearStep | DailyNote.py:1396 | A year's start moves by the year's length, leap years by the 4/100/400 rule |
| Calendar.NextDay | DailyNote.py:1334 | The next day is valid and one ordinal later |
| Calendar.PrevDay | DailyNote.py:1327 | The previous day is valid and one ordinal earlier |
| Calendar.AddDays | DailyNote.py:1334 | `d + timedelta(days=k)` is valid and `k` ordinals later |
| Calendar.SubDays | DailyNote.py:1327 | `d - timedelta(days=k)` is valid and `k` ordinals earlier |
| Calendar.OrdinalInjective | DailyNote.py:1327 | Two valid dates have the same ordinal iff they are equal |
| Calendar.AddDaysWeekday | DailyNote.py:1334 | `k` days later the weekday has moved by `k` modulo 7 |
| Calendar.WeekStart | DailyNote.py:1327 | `start_of_week` is a valid date at most six days back, by exactly the weekday |
| Calendar.WeekStartMonday | DailyNote.py:1327 | `start_of_week` is a Monday |
| Calendar.CalendarKey | DailyNote.py:464 | The calendar widget's key (month counted from 0) is the shown date's `"%Y-%m-%d"` key; `Calendar.CalendarKeyNamesDate` states which notes it selects |
| Calendar.CalendarKeyNamesDate | DailyNote.py:464-465 | The widget's key equals a valid date's key iff that date is the one shown, so the list selects exactly the notes of that day |
| Calendar.DateKeyInjective | DailyNote.py:751 | Two valid dates have the same key iff they are the same date |
| Calendar.TimeText | DailyNote.py:750 | `"%H:%M"` has five characters with `':'` in the middle |
| Calendar.MinuteTextInjective | DailyNote.py:750 | Different minutes of the day have different `"HH:MM"` texts |
| Calendar.TimeTextInjective | DailyNote.py:750 | An `"HH:MM"` text determines its hour and minute |
| Text.Decimal | DailyNote.py:758 | `str(n)` is at least one digit, exactly one for `n < 10` |
| Text.DecimalInjective | DailyNote.py:774 | `str(a) == str(b)` iff `a == b` |
| Text.ParseDecimalOfDecimal | DailyNote.py:1592 | `int(str(n)) == n` |
| Text.Pad2 | DailyNote.py:464 | The `:02d` field is two digits denoting the number below 100, and `str(n)` from 10 up |
| Text.Pad2Injective | DailyNote.py:464 | Two-digit fields of numbers below 100 are equal iff the numbers are |
| Text.Split | DailyNote.py:774 | `str.split` on one character never gives an empty list and no piece holds the separator |
| Text.SplitOfJoin | DailyNote.py:1587 | Splitting a join of separator-free pieces gives the pieces back |
| Text.JoinOfSplit | DailyNote.py:1538 | Joining the pieces of a split gives the string back |
| Grid.DayEntriesMeaning | DailyNote.py:1422-1430 | A day's cell holds a button for exactly the notes of that date, each marked iff the note has an alarm row |
| Grid.PrefixIndex | DailyNote.py:1439 | Cell `k` of the first `n` attached is the `k`-th cell |
| Grid.PopulateMonthlyGrid | DailyNote.py:1390-1443 | The walk attaches one cell per day of the month, day `k+1` at slot `w+k` (column `(w+k) mod 7`, row `1 + (w+k) div 7`) with its own date key and notes |
| Grid.PopulateMonthRow | DailyNote.py:1404-1440 | One row of the walk attaches exactly the next days that fit into it, skipping row 1's columns before the first weekday and stopping after the last day |
| Grid.CellAtSlot | DailyNote.py:1408-1439 | The cell attached at `(row, col)` with counter `current` is the cell of day `current` |
| Grid.PlacedNext | DailyNote.py:1402-1442 | The count of placed days grows by one per slot from the first weekday on and stops at the month's length |
| Grid.MonthCellPlacement | DailyNote.py:1395-1439 | Each day's cell sits in its own weekday's column and in rows 1..6; row 1's columns before the first weekday stay empty; it lists its own date |
| Grid.MonthCellsDistinct | DailyNote.py:1439 | No two days share a cell |
| Grid.PopulateWeeklyGrid | DailyNote.py:1324-1366 | The week attaches column `i` for `start_of_week + i`, Monday first; past 9999-12-31 the walk stops with its columns so far (OverflowError) |
| Grid.WeekGridCell | DailyNote.py:1333-1365 | Column `k` of the week holds the cell of the `k`-th day after the Monday |
| Grid.WeekCellWeekday | DailyNote.py:1327-1334 | Column `i` of the week shows a day of weekday `i` |
| Grid.SelectedDayShown | DailyNote.py:1327-1334 | The selected day always has a column, the one of its weekday |
| Grid.WeekOverflow | DailyNote.py:1334 | The week runs out of dates exactly when the selected day is one of 9999-12-27 .. 9999-12-31 |
| Grid.LastDaysOverflow | DailyNote.py:1327-1334 | The week overflows iff the selected day is 27, 28, 29, 30 or 31 December 9999, stated on dates: `WeekOverflow`'s ordinal bound, read as a date |
| Rules.WeeklyMatches | DailyNote.py:774 | Definition, no contract: `str(weekday) in alarm_days.split(',')`. `Rules.TickedDaysFacts` and `Rules.WeekdaysRoundTrip` state which days it selects for a saved rule |
| Rules.RuleMatches | DailyNote.py:772-779 | Definition, no contract: the weekly, monthly and yearly tests, false for any other rule type. `Rules.MonthlyRuleDays`, `Rules.SavedRuleMatchesForm` and `Scheduler.DueRemindersMembers` state its meaning |
| Rules.EncodeWeekdays | DailyNote.py:1585-1587 | Definition, no contract: `",".join` of the ticked indices. `Rules.WeekdaysRoundTrip` proves it inverts `Rules.DecodeWeekdays` |
| Rules.FormOfRow | DailyNote.py:1529-1546 | Definition, no contract: the edit window filled from a saved row. `Rules.EditThenSaveUnchanged` proves that saving it unchanged writes the same row |
| Rules.DayLabels | DailyNote.py:1671 | Definition, no contract: the `day_map` lookups, `None` on a KeyError. `Rules.LabelsOfTickedDays` states its result for saved rules |
| Rules.RulePart | DailyNote.py:1662-1678 | Definition, no contract: the rule part of a list line. `Rules.WeeklyDescription` and `Rules.DescriptionOfSavedRow` state its meaning |
| Rules.Describe | DailyNote.py:1680-1689 | Definition, no contract: the list line from time, switch and rule part. `Rules.DescribePrefix` states its prefix |
| Rules.DetailsText | DailyNote.py:1662-1689 | Definition, no contract: the whole line, `None` where the source raises. `Rules.DescriptionOfSavedRow` proves every saved row has one |
| Calendar.DateKey | DailyNote.py:751 | Definition, no contract: `"%Y-%m-%d"`. `Calendar.DateKeyInjective` proves two valid dates share a key iff they are equal |
| Calendar.MinuteText | DailyNote.py:750 | The `"HH:MM"` of a minute of the day has five characters; `Calendar.MinuteTextInjective` proves distinct minutes give distinct texts |
| Scheduler.NowTime | DailyNote.py:750 | Definition, no contract: the clock's `"%H:%M"`. `Scheduler.ClockMinute` and `Scheduler.ClockAtMinute` state its meaning |
| Scheduler.NowDate | DailyNote.py:751 | Definition, no contract: the clock's `"%Y-%m-%d"`. `Scheduler.SameDay` states its meaning |
| Scheduler.OneTimeDue | DailyNote.py:754 | Definition, no contract: the four conditions of the first loop's test. `Scheduler.DueNotesMembers` proves a note fires iff it holds |
| Scheduler.OneTimePopup | DailyNote.py:756 | Definition, no contract: the note's window with its alarm row's sound, volume and duration, as `Engine.AlarmEngine.RingNote` shows it |
| Scheduler.FixedDue | DailyNote.py:764-779 | Definition, no contract: enabled, set for this minute, tagged id inactive, rule selects today. `Scheduler.DueRemindersMembers` proves a reminder fires iff it holds |
| Scheduler.FixedPopup | DailyNote.py:782-784 | Definition, no contract: the reminder's window with no sound, volume 80 and 10 seconds, as `Engine.AlarmEngine.RingFixedNote` shows it |
| Grid.DayEntries | DailyNote.py:1422-1430 | Definition, no contract: the buttons of a day's notes. `Grid.DayEntriesMeaning` states which notes it lists and which it marks |
| Grid.MonthCell | DailyNote.py:1408-1439 | Definition, no contract: the cell of day `k+1`. `Grid.MonthCellPlacement` and `Grid.MonthCellsDistinct` state where it sits |
| Grid.WeekCell | DailyNote.py:1334-1365 | Definition, no contract: column `i`'s cell. `Grid.WeekCellWeekday` and `Grid.SelectedDayShown` state its meaning |
| Engine.AlarmEngine.Valid | DailyNote.py:123-125 | Definition, no contract: the class invariant, kept by every method. `Engine.LedgerAfterShow` and `Engine.LedgerAfterClose` prove the ledger part is kept |

## Left out

- The GTK user interface is not modelled: widgets, CSS, fonts, the indicator
  icon and drawing. Each control the engine reads becomes a plain value, such
  as the snooze scale (`minutes`), the form (`FixedForm`) and the confirmation
  dialog (`confirmed`).
- Sound is not modelled. This covers the Gst player, `on_eos_message` looping,
  the float volume `/ 100.0` and libnotify. A window carries its sound, volume
  and duration only so that a snooze can write them back.
- SQLite I/O is not modelled. The tables are the fields `notes`, `alarms` and
  `fixedNotes`.
  - Rows come back in id order, the rowid order of an AUTOINCREMENT table.
  - The `load_notes` / `load_fixed_notes` that follow each write are the field
    updates themselves.
  - `load_all_alarms` becomes the `alarmIds` parameter of the grids.
- GLib timers are not modelled. The one-second `check_alarms` timer becomes a
  call of `CheckAlarms` with the clock passed in, and an expiring window
  timeout becomes a call of `Timeout`.
- Engine.AlarmEngine.Timeout: the `duration` after which it fires is not
  tracked, so the model lets it be called at any point while the window is
  open.
- Engine.AlarmEngine.Snooze: the modal "snoozed until" dialog and the nested
  main loop it runs are left out. Other ticks that could run meanwhile are not
  modelled either.
- Engine.AlarmEngine.Snooze: the OverflowError of
  `datetime.now() + timedelta(...)` is not modelled. It can happen only at
  9999-12-31 within 180 minutes of midnight.
- Engine.AlarmEngine.ShowAlarmPopup: `GLib.markup_escape_text` and the window's
  widgets are left out, as are `refresh_notes_list` / `refresh_open_popups`,
  which are presentation.
- Nullable columns are not modelled in full:
  - A note's `date` and `title` are plain strings.
  - `alarm_enabled` is a boolean, for the 0/1 values the application writes.
  - An alarm row's `volume` and `duration` are plain integers. A NULL there,
    possible only in a database edited outside the application, raises when
    the window is built: NULL `duration` raises at `DailyNote.py:835`, and NULL
    `volume` with a sound set raises at `DailyNote.py:829`. By then the tick
    has already made the id active, so it stays active with no window open.
    The model's invariant (active ids are exactly the open windows' ids) rules
    that state out. The application always writes integers to both columns
    (`DailyNote.py:971`).
  - A NULL `event_time` or `alarm_days` is modelled as the empty string,
    which no minute and no weekday matches. The edit window then opens with no
    box ticked. The source treats NULL differently, and these raises are not
    modelled:
    - `alarm_days.split(',')` raises AttributeError in the tick
      (`DailyNote.py:774`). That ends the tick before any later row is looked
      at. Whether later ticks still run depends on how the GLib binding
      treats a callback that raises.
    - The edit window raises before it is shown (`DailyNote.py:1532`, `:1538`).
    - A NULL `event_time` never reaches the tick, because the query at
      `DailyNote.py:764` compares it with the current minute.
    - The application itself always writes a string to both columns
      (`DailyNote.py:1577-1583`), so a NULL there comes only from a database
      edited outside it.
- The weather pipeline, settings, backup and restore are not modelled. Neither
  are locale setup, `is_dark_theme` and the search filter. They involve
  network, threads, files, floats or Unicode case folding.
- Calendar.DateKey: a year below 1000 is written without padding, as
  `str(year)`; a `"%Y"` that pads to four digits is not modelled.
- The `gettext` function `_()` is taken as the identity, so the labels are the
  English strings.
- Rules.MonthlyRuleDays: it follows directly from the definition of `RuleMatches`
  and is kept to state the no-rollover behaviour of a monthly rule.
