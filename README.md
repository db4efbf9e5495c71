# Team availability calendar — a Dafny model

This project models the core of a small team-availability web app. Five
people (Reen, Kris, Neeko, Zela and Zuju) mark the hours from 12:00 to 24:00
when they are free, for a seven-day week that starts on a Wednesday. Each
mark is one row of a `time_slots` table in a hosted database. The model
covers three parts:

- **The slot store client** (`frontend/src/services/api.ts`). These are the
  four calls on `time_slots`: read one date, create, update and delete. The
  file also holds `cleanupPastTimeSlots`. That function builds today's date
  as `YYYY-MM-DD` by splitting a `DD/MM/YYYY` locale string, reversing the
  parts and joining them with `-`. It then queries the rows dated before
  today and deletes them one at a time, stopping at the first error.
  `SlotApi.TimeSlotTable` is the table: a class whose row list and id
  counter the store methods update in place. The backend's replies
  (success, or an error message) are parameters, so every failure path is
  modelled.
- **The calendar page** (`frontend/src/pages/Calendar.tsx`). This covers
  the hour list and the `HH:00` label, the five-name roster, and the two
  "is available" checks. It also covers the group-by-user view built when
  slots are loaded, the click on one cell, which toggles that hour, and the
  click on a day header. A day click clears the day when every hour is
  selected, and otherwise creates the missing hours one by one.
  `CalendarPage.Calendar` holds the page's state: the loaded slots, the
  grouped view and the error message.
- **The availability overview** (`frontend/src/components/AvailabilityOverview.tsx`).
  This covers `getWeekDates`, the seven `YYYY-MM-DD` dates from the
  Wednesday of the week, its slot loading, and its own "everyone available"
  rule: five distinct users have the cell.

The modules are:

- `Outcomes`: Option, Result, backend replies and the first failing reply.
- `Text`: lexicographic string order, decimal numerals, `padStart`, and
  split/join/reverse.
- `Civil`: proleptic Gregorian dates, day numbers, and the `YYYY-MM-DD`
  format.
- `SlotApi`: the store and the past-slot cleanup.
- `Overview`: the hour list, the hour labels, the week dates and the
  overview component.
- `CalendarPage`: the page.

The store compares dates as strings, in code-point order. The model proves
that for four-digit years this string order is exactly calendar order
(`Civil.FormatDateOrder`), so "before today" means the same under either
reading.

The page and the overview decide "everyone is available" differently. The
page asks each roster name for a slot in the cell, and the overview counts
the distinct users in the cell. `CalendarPage.RosterRuleIsCountRule` proves
the two agree whenever every slot belongs to a roster name.
`CalendarPage.OutsiderBreaksCountRule` shows that they disagree when every
roster name already has the cell and a user outside the roster has it too.

A comment on the page's cleanup effect
(`frontend/src/pages/Calendar.tsx:24-25`) says the cleanup should
"automatically transfer past slots". The code of `cleanupPastTimeSlots`
(`frontend/src/services/api.ts:67-111`) only deletes past slots and never
inserts anything. The model follows the code.

## Model

| member | source | states |
|---|---|---|
| SlotApi.Where | frontend/src/services/api.ts:14-18 | an equality or less-than filter keeps exactly the rows that satisfy it, in table order, and keeps ids distinct |
| SlotApi.TimeSlotTable.constructor | frontend/src/services/api.ts:12 | the table starts empty, with the id counter at zero |
| SlotApi.TimeSlotTable.GetTimeSlots | frontend/src/services/api.ts:14-25 | an error reply fails with its message; otherwise the result is every row of that date, and the table is unchanged |
| SlotApi.TimeSlotTable.CreateTimeSlot | frontend/src/services/api.ts:27-39 | an error leaves the table unchanged; otherwise the table gains exactly one row at its end, with a fresh id and the given fields, and that row is returned |
| SlotApi.StoredRowId | frontend/src/services/api.ts:27-39 | the id of each created row is fresh: ids the store hands out, drawn here from a counter, are digit strings that differ for different counter values |
| SlotApi.TimeSlotTable.UpdateTimeSlot | frontend/src/services/api.ts:41-54 | an error, or no row with that id (the single-row error), changes nothing; otherwise only that row is patched, its id is kept, and the patched row is returned |
| SlotApi.TimeSlotTable.DeleteTimeSlot | frontend/src/services/api.ts:56-65 | an error changes nothing; otherwise exactly the rows with that id are removed, and a missing id is not an error |
| SlotApi.TimeSlotTable.GetPastTimeSlots | frontend/src/services/api.ts:81-89 | an error reply fails with its message; otherwise the result is every row whose date is less than today's as a string, in table order |
| SlotApi.CleanupEffect | frontend/src/services/api.ts:80-110 | defines the reply and the rows after cleanup: the query's error, or the past rows deleted in order up to the first failing delete; the `Cleanup…` lemmas below state its properties |
| SlotApi.TimeSlotTable.CleanupPastTimeSlots | frontend/src/services/api.ts:67-111 | the reply and the new rows are those of `CleanupEffect` on the old rows; ids stay distinct and the counter is kept |
| SlotApi.TimeSlotTable.DeleteInOrder | frontend/src/services/api.ts:95-105 | deletes the given slots in order up to the first failing reply, returns that reply or success, and the table loses exactly the ids deleted |
| SlotApi.DeleteEachIsWhere | frontend/src/services/api.ts:95-105 | deleting slots one id at a time is the same as filtering out all of their ids at once |
| SlotApi.CleanupEffectAt | frontend/src/services/api.ts:95-105 | with k the first failing delete, cleanup reports that failure or success and leaves the rows minus the first k past slots |
| SlotApi.CleanupQueryFailure | frontend/src/services/api.ts:86-89 | when the past-slot query fails, cleanup fails with its message and deletes nothing |
| SlotApi.CleanupWithoutPastSlots | frontend/src/services/api.ts:91-110 | with no past rows, cleanup succeeds and changes nothing |
| SlotApi.CleanupKeepsCurrentSlots | frontend/src/services/api.ts:80-105 | whatever the replies, no row dated today or later is deleted |
| SlotApi.CleanupSuccessLeavesNoPastSlot | frontend/src/services/api.ts:80-110 | after a successful cleanup, the rows are exactly the old rows not dated before today |
| SlotApi.CleanupStopsAtFirstError | frontend/src/services/api.ts:95-104 | on a failing delete, cleanup reports that error; the past slots before it are gone and the ones from it on are all still there |
| SlotApi.CleanupIdempotent | frontend/src/services/api.ts:67-111 | a second cleanup after a successful one, on the same day, succeeds and deletes nothing |
| SlotApi.TodayString | frontend/src/services/api.ts:71-76 | defines the split, reverse and join of the locale date; `TodayStringReorders` and `TodayStringOfDate` state what it gives |
| SlotApi.TodayStringReorders | frontend/src/services/api.ts:71-76 | splitting `DD/MM/YYYY` at `/`, reversing and joining with `-` gives `YYYY-MM-DD` with the same components |
| SlotApi.TodayStringOfDate | frontend/src/services/api.ts:71-76 | the reordered two-digit day and month and four-digit year of a date is that date's `YYYY-MM-DD` form |
| Text.JoinSplit | frontend/src/services/api.ts:76 | joining the parts of a split with the same separator gives the string back |
| Text.PadStartSpec | frontend/src/pages/Calendar.tsx:7 | `padStart` gives the requested width or the input's length, ends with the input, and fills the front with the pad character |
| Text.FixedDigitsOrder | frontend/src/components/AvailabilityOverview.tsx:23-24 | fixed-width numerals order lexicographically exactly as the numbers do, and are equal only for equal numbers |
| Overview.HoursRange | frontend/src/components/AvailabilityOverview.tsx:5 | the hour list has 13 entries, the i-th is 12 + i, and it holds exactly the hours 12 to 24 |
| Overview.TimeFormat | frontend/src/pages/Calendar.tsx:7 | defines the label as the hour's decimal numeral padded to two digits with `0`, then `:00`; `TimeFormatShape` and `TimeFormatOrder` state what it gives |
| Overview.TimeFormatShape | frontend/src/components/AvailabilityOverview.tsx:6 | below 100, an hour's label is its two zero-padded digits followed by `:00`, five characters long |
| Overview.TimeFormatOrder | frontend/src/pages/Calendar.tsx:7 | below 100, labels are equal only for equal hours and order as the hours do |
| Overview.HourLabelsAtTheEdges | frontend/src/pages/Calendar.tsx:6-7 | the first hour's label is `12:00`, and the end label of the last hour is `25:00` |
| Overview.DaysSinceWednesdayRange | frontend/src/components/AvailabilityOverview.tsx:13-14 | the number of days since Wednesday is between 0 and 6, and 0 exactly on a Wednesday |
| Civil.FromDaysValid | frontend/src/components/AvailabilityOverview.tsx:10-11 | every day number is a real calendar date |
| Civil.FromDaysSucc | frontend/src/components/AvailabilityOverview.tsx:19-20 | consecutive day numbers are consecutive calendar days, across month and year ends |
| Civil.ToDaysFromDays | frontend/src/components/AvailabilityOverview.tsx:15-16 | counting a date's days since 1970-01-01 gives back the day number it came from |
| Civil.FromDaysOrder | frontend/src/components/AvailabilityOverview.tsx:15-20 | one day number is below another exactly when its date comes first |
| Civil.NextPrevInverse | frontend/src/components/AvailabilityOverview.tsx:16 | stepping a real date back one day and forward one day, in either order, gives the same date |
| Civil.FormatDate | frontend/src/components/AvailabilityOverview.tsx:21-25 | defines the `${yyyy}-${mm}-${dd}` string with month and day padded to two digits; `FormatDateShape` and `FormatDateOrder` state its shape and order |
| Civil.FormatDateShape | frontend/src/components/AvailabilityOverview.tsx:22-25 | with a four-digit year, the formatted date is `YYYY-MM-DD` with zero-padded fields, ten characters long |
| Civil.FormatDateOrder | frontend/src/services/api.ts:84 | with four-digit years, formatted dates compare as strings exactly as the dates compare in time, and are equal only for equal dates |
| Overview.SetDate | frontend/src/components/AvailabilityOverview.tsx:16-20 | defines `setDate(n)` as day n counted from the first of the date's month, rolling over month ends; `SetDateShift` states that it moves a date by the given number of days |
| Overview.SetDateShift | frontend/src/components/AvailabilityOverview.tsx:19-20 | `setDate(getDate() + k)` moves a date by exactly k days, into other months and years when needed |
| Overview.GetWeekDates | frontend/src/components/AvailabilityOverview.tsx:9-28 | returns seven dates; the i-th is the formatted date i days after the Wednesday of the week, moved by weekOffset weeks |
| Overview.WeekStartsOnWednesday | frontend/src/components/AvailabilityOverview.tsx:12-16 | with offset 0, the week starts on a Wednesday no more than six days before today |
| Overview.WeekDatesConsecutive | frontend/src/components/AvailabilityOverview.tsx:17-26 | each week date is the calendar day after the one before it |
| Overview.WeekOffsetShift | frontend/src/components/AvailabilityOverview.tsx:16 | raising the week offset by one moves every date of the week seven days on |
| Overview.WeekDateShape | frontend/src/components/AvailabilityOverview.tsx:21-25 | with a four-digit year, each week date is a real date written `YYYY-MM-DD` |
| Overview.WeekDatesSorted | frontend/src/components/AvailabilityOverview.tsx:17-27 | with four-digit years, the week dates are strictly increasing as strings |
| Overview.SlotsOnDatesMembers | frontend/src/components/AvailabilityOverview.tsx:53-57 | the accumulated slots are exactly the table's rows dated on one of the dates |
| Overview.FetchSlotsOnDates | frontend/src/components/AvailabilityOverview.tsx:53-57 | queries the dates in order; the first failing query fails the load with its message, and otherwise the result is the per-date results joined in order |
| Overview.AvailabilityOverview.constructor | frontend/src/components/AvailabilityOverview.tsx:36-38 | the component starts with no slots, no dates and no error |
| Overview.AvailabilityOverview.LoadTimeSlots | frontend/src/components/AvailabilityOverview.tsx:51-63 | on a failing query the slots are kept and the error is "Failed to load time slots"; otherwise the slots are those of the dates, and the error is kept |
| Overview.AvailabilityOverview.ShowWeek | frontend/src/components/AvailabilityOverview.tsx:40-49 | a week change selects that week's seven dates and loads their slots as above |
| Overview.FiveAvailable | frontend/src/components/AvailabilityOverview.tsx:65-76 | defines the overview's rule: the set of users with a slot at that date and start time has exactly five members |
| Overview.FiveAvailableCountsUsersOnce | frontend/src/components/AvailabilityOverview.tsx:65-76 | another slot of a user already counted in the cell does not change the count rule |
| Overview.FiveAvailableOtherCell | frontend/src/components/AvailabilityOverview.tsx:65-76 | a slot of another date or hour does not change the count rule |
| CalendarPage.RosterNames | frontend/src/pages/Calendar.tsx:9-15 | the roster is exactly the five names Reen, Kris, Neeko, Zela and Zuju |
| CalendarPage.IsTimeSlotAvailable | frontend/src/pages/Calendar.tsx:270-277 | defines the check: some loaded slot has that user, date and start label |
| CalendarPage.IsEveryoneAvailable | frontend/src/pages/Calendar.tsx:280-285 | defines the page's rule: something is grouped and every roster name has a slot in the cell; `RosterRuleIsCountRule` relates it to the overview's rule |
| CalendarPage.FindSlot | frontend/src/pages/Calendar.tsx:111-115 | defines `timeSlots.find` for a cell as a scan from the front; `FindSlotSpec` states what it finds |
| CalendarPage.FindSlotSpec | frontend/src/pages/Calendar.tsx:111-115 | finds nothing exactly when no slot has that user, date and start time; otherwise it finds the first such slot |
| CalendarPage.EveryoneAvailableIgnoresOthers | frontend/src/pages/Calendar.tsx:280-285 | slots of users outside the roster never change whether everyone is available |
| CalendarPage.RosterRuleIsCountRule | frontend/src/pages/Calendar.tsx:280-285 | when something is grouped and every slot belongs to a roster name, the roster rule holds exactly when the overview's count rule does |
| CalendarPage.OutsiderBreaksCountRule | frontend/src/components/AvailabilityOverview.tsx:65-76 | when every roster name has the cell and a user outside the roster has it too, the count rule says no |
| CalendarPage.GroupByUser | frontend/src/pages/Calendar.tsx:66-79 | defines the grouping as the reduce over the slots in load order; `GroupByUserKeys` and `GroupByUserSlots` state what it gives |
| CalendarPage.AddToGroupKeys | frontend/src/pages/Calendar.tsx:66-72 | one reduce step adds the slot's user to the keys, and keeps keys distinct and every group named by its key |
| CalendarPage.AddToGroupSlots | frontend/src/pages/Calendar.tsx:66-72 | one reduce step appends the slot to its own user's group and leaves every other group unchanged |
| CalendarPage.GroupByUserKeys | frontend/src/pages/Calendar.tsx:66-79 | grouping gives one group per user who has a slot, with distinct keys, each named by its key |
| CalendarPage.GroupByUserSlots | frontend/src/pages/Calendar.tsx:66-79 | each user's group holds exactly that user's slots, in load order |
| CalendarPage.GroupByUserSpec | frontend/src/pages/Calendar.tsx:66-79 | the grouping is in step with the slot list: each group holds exactly its user's slots |
| CalendarPage.FilterUserSlotsSpec | frontend/src/pages/Calendar.tsx:125-129 | filtering the user's group filters only that user's slots, and keeps keys, distinctness and names |
| CalendarPage.AppendToUserSpec | frontend/src/pages/Calendar.tsx:144-148 | appending to an existing group adds the slots at the end of that user's slots only, and keeps keys, distinctness and names |
| CalendarPage.AddUserSlotsSpec | frontend/src/pages/Calendar.tsx:142-159 | adding slots appends them to the user's slots, opening a group at the end if there is none; the keys gain the user |
| CalendarPage.RemoveSlotInStep | frontend/src/pages/Calendar.tsx:121-131 | removing a slot from both the list and its user's group keeps the two in step |
| CalendarPage.AddSlotsInStep | frontend/src/pages/Calendar.tsx:236-260 | adding a user's new slots to both the list and the grouped view keeps the two in step |
| CalendarPage.ClearDayInStep | frontend/src/pages/Calendar.tsx:198-212 | clearing a user's day from both the list and their group keeps the two in step |
| CalendarPage.ToggleSlots | frontend/src/pages/Calendar.tsx:117-140 | defines the list after a successful click: without the found slot's id, or with the created row appended; `ToggleFlipsMark` states its effect |
| CalendarPage.ToggleGroups | frontend/src/pages/Calendar.tsx:117-160 | defines the grouped view after a successful click; `ToggleInStep` states that it follows the list |
| CalendarPage.DuplicateMarkSurvivesToggle | frontend/src/pages/Calendar.tsx:111-121 | when two slots with different ids show the clicked cell, a click deletes only the first and the cell stays selected |
| CalendarPage.ToggleFlipsMark | frontend/src/pages/Calendar.tsx:110-160 | when the loaded list has distinct ids and shows no selection twice, a successful cell click removes the cell's selection if it was shown and adds it if it was not; no other selection changes |
| CalendarPage.ToggleKeepsListWellFormed | frontend/src/pages/Calendar.tsx:110-160 | when the loaded list has distinct ids and shows no selection twice, and the created row's id is new, the list after a cell click still has both properties |
| CalendarPage.ToggleTwice | frontend/src/pages/Calendar.tsx:110-160 | when the loaded list has distinct ids and shows no selection twice, and the created rows' ids are new, two successful clicks on the same cell show the original selections again |
| CalendarPage.ToggleInStep | frontend/src/pages/Calendar.tsx:117-160 | when the list has distinct ids and the grouped view is in step with it, a successful cell click keeps them in step |
| CalendarPage.Calendar.constructor | frontend/src/pages/Calendar.tsx:18-20 | the page starts with no slots, no groups and no error |
| CalendarPage.Calendar.LoadTimeSlots | frontend/src/pages/Calendar.tsx:56-86 | on a failing query the lists are kept and the error is "Failed to load time slots"; otherwise the slots are those of the dates; if a user id names an `Object.prototype` member the grouping throws, so the grouped view is kept and the same error is set; otherwise the grouped view is the slots grouped by user |
| CalendarPage.Calendar.HandleCellClick | frontend/src/pages/Calendar.tsx:98-166 | a past date or no name sets its error and changes nothing; a failing call sets "Failed to update time slot" and keeps the lists; otherwise the store deletes the cell's slot or stores a new one, and both lists are toggled |
| CalendarPage.Calendar.HandleDateClick | frontend/src/pages/Calendar.tsx:170-267 | the guards are as for a cell click; a full day is deleted slot by slot, and a partial day is filled hour by hour, up to the first failing call, with the store left in that state; then the error is set and the lists kept, or both lists are updated |
| CalendarPage.FillDay | frontend/src/pages/Calendar.tsx:215-233 | creates a row for each hour with no slot of the user, in hour order, until a call fails; the store gains exactly those rows, and the result is the failure or the rows created |
| CalendarPage.MissingHoursSpec | frontend/src/pages/Calendar.tsx:216-224 | an hour is created exactly when it is in the hour list and the user has no slot in its cell, and no hour twice |
| CalendarPage.NewRowsAt | frontend/src/pages/Calendar.tsx:225-231 | the k-th row created is stored with the k-th next id and that hour's start and end labels |
| CalendarPage.FillSelectsEveryHour | frontend/src/pages/Calendar.tsx:213-236 | after a complete fill, every hour of the day is selected for the user |
| CalendarPage.FillKeepsMarksDistinct | frontend/src/pages/Calendar.tsx:213-236 | when the loaded list shows no selection twice, neither does the list after a fill |
| CalendarPage.ClearDeselectsDay | frontend/src/pages/Calendar.tsx:198-200 | after clearing, no hour of that day is selected for the user, and every other slot is kept |
| CalendarPage.ClearDayStore | frontend/src/pages/Calendar.tsx:190-196 | deleting the user's slots of the day removes them from the store, and keeps every other row |

## Left out

- Time zones are not modelled. Today is an input: a day number, or the
  `DD/MM/YYYY` string `toLocaleDateString` gives. `Intl` and the Oslo time
  zone conversion are platform code.
- `isDateInPast` (`frontend/src/pages/Calendar.tsx:89-94`) is an input of
  the click handlers, because it reads the clock and parses a date string
  with the platform's `Date`.
- The user name from `localStorage` is an input. It is absent or empty
  exactly when the source's `!username` holds.
- The React wiring is not modelled: `useState`, the `useEffect` hooks that
  run cleanup and loading, and rendering. `ShowWeek` stands for the
  overview's two effects; the page's cleanup effect is not modelled, because
  it is only a call sequence.
- `formatDate` for headers, `console` logging, the navigation bar, the login
  page, the router and the backend models are not part of this model.
- Query results are taken in table order. The source gives no `order by`,
  so the database may return any order.
- The grouped view is built in the order users first appear. The source
  builds it with `Object.entries`, which puts integer-like keys first. The
  names on the roster are not integer-like.
- Concurrency is not modelled. The page's handlers and the cleanup run one
  at a time, so the interleaving of overlapping clicks, or of two clients,
  is not captured. The day handler's `prevSlots =>` updates are modelled as
  updates of the state the handler started from.
- Civil.FormatDate: the year is written with `String(year)`, unpadded, as
  the source does. The results about the `YYYY-MM-DD` shape and order hold
  for four-digit years only.
- Overview.TimeFormatOrder: stated only for hours below 100. Every hour the
  page uses is between 12 and 25.
- SlotApi.TimeSlotTable.UpdateTimeSlot: a patch cannot change the row's
  id, since the id is the key the row is found by. The page never updates
  rows.
- The creation timestamp of a new row is an input (`now`), because it comes
  from the database's clock.
- Transferring past slots to a later week, which the comment at
  `frontend/src/pages/Calendar.tsx:24-25` mentions, is not modelled, because
  the code only deletes them.
- CalendarPage.ToggleFlipsMark, ToggleKeepsListWellFormed, ToggleTwice,
  ToggleInStep and FillKeepsMarksDistinct assume the loaded list has
  distinct ids and shows no selection twice. `Calendar` does not establish
  this, since the store does not prevent two rows with the same user, date
  and start time. `DuplicateMarkSurvivesToggle` shows what a click does
  otherwise.
- SlotApi.StoredRowId: the source does not show how the backend assigns
  ids. The model draws them from a counter, as decimal numerals, to stand
  for unique keys.
- The `date` column is assumed to compare as text, in code-point order. The
  source shows neither the column's type nor its collation.
