/** The availability overview (frontend/src/components/AvailabilityOverview.tsx):
    the hour rows of the grid, the seven dates of a week starting on a
    Wednesday, the per-date loading of slots and the rule that marks a cell
    when five distinct users are available in it. The calendar page shares
    the hour rows, their labels, the week dates and the loading loop. */
module Overview {
  import opened Outcomes
  import opened Text
  import opened Civil
  import opened SlotApi

  // ---------------------------------------------------------------------
  // Hour rows
  // ---------------------------------------------------------------------

  /** `HOURS`: one grid row per hour from 12 to 24. */
  const Hours: seq<nat> := [12, 13, 14, 15, 16, 17, 18, 19, 20, 21, 22, 23, 24]

  lemma HoursRange()
    ensures |Hours| == 13
    ensures forall i :: 0 <= i < |Hours| ==> Hours[i] == 12 + i
    ensures forall h :: h in Hours <==> 12 <= h <= 24
  {
    forall h | 12 <= h <= 24
      ensures h in Hours
    {
      assert Hours[h - 12] == h;
    }
  }

  /** `TIME_FORMAT(hour)`: the hour padded to two digits, then `:00`. */
  function TimeFormat(hour: nat): string {
    PadStart(NatToString(hour), 2, '0') + ":00"
  }

  /** Below 100, the label is the two fixed digits of the hour and `:00`. */
  lemma TimeFormatShape(hour: nat)
    requires hour < 100
    ensures TimeFormat(hour) == FixedDigits(hour, 2) + ":00"
    ensures |TimeFormat(hour)| == 5
  {
    Pad2Digits(hour);
  }

  /** Below 100, labels name hours one to one, and their string order is the
      order of the hours. */
  lemma TimeFormatOrder(a: nat, b: nat)
    requires a < 100 && b < 100
    ensures TimeFormat(a) == TimeFormat(b) <==> a == b
    ensures LexLess(TimeFormat(a), TimeFormat(b)) <==> a < b
  {
    TimeFormatShape(a);
    TimeFormatShape(b);
    FixedDigitsOrder(a, b, 2);
    LexLessAppend(FixedDigits(a, 2), FixedDigits(b, 2), ":00", ":00");
    AppendEqual(FixedDigits(a, 2), FixedDigits(b, 2), ":00", ":00");
    LexLessIrreflexive(":00");
  }

  /** The first row starts at `12:00`, and the last row's slots end at
      `25:00`, since `end_time` is the label of the hour after. */
  lemma HourLabelsAtTheEdges()
    ensures TimeFormat(Hours[0]) == "12:00"
    ensures TimeFormat(Hours[|Hours| - 1] + 1) == "25:00"
  {
    assert NatToString(12) == NatToString(1) + [Digit(2)];
    assert NatToString(25) == NatToString(2) + [Digit(5)];
  }

  // ---------------------------------------------------------------------
  // Week dates
  // ---------------------------------------------------------------------

  /** `daysSinceWednesday` for a `getDay()` value. */
  function DaysSinceWednesday(dayOfWeek: int): int {
    (dayOfWeek + 4) % 7
  }

  lemma DaysSinceWednesdayRange(dayOfWeek: int)
    requires 0 <= dayOfWeek < 7
    ensures 0 <= DaysSinceWednesday(dayOfWeek) <= 6
    ensures DaysSinceWednesday(dayOfWeek) == 0 <==> dayOfWeek == 3
  {
  }

  /** Day number of the first date of the week `weekOffset` weeks after the
      one holding day `today`. */
  function WeekStart(today: int, weekOffset: int): int {
    today - DaysSinceWednesday(DayOfWeek(today)) + weekOffset * 7
  }

  /** `date.setDate(n)` on a local date: day `n` counted from the first of
      the date's month, rolling into neighbouring months when `n` is outside
      it. */
  function SetDate(date: Date, n: int): Date {
    FromDays(ToDays(Date(date.year, date.month, 1)) + n - 1)
  }

  /** `setDate(getDate() + k)` moves a date by exactly `k` days. */
  lemma SetDateShift(z: int, k: int)
    ensures 1 <= FromDays(z).month <= 12
    ensures SetDate(FromDays(z), FromDays(z).day + k) == FromDays(z + k)
  {
    ToDaysFromDays(z);
  }

  /** The `i`-th date, counted from 0, of week `weekOffset` seen from day
      `today`. */
  function WeekDate(today: int, weekOffset: int, i: int): string {
    FormatDate(FromDays(WeekStart(today, weekOffset) + i))
  }

  /** `getWeekDates(weekOffset)` on the day `today`: the seven dates from
      the week's Wednesday on, formatted `YYYY-MM-DD`. */
  method GetWeekDates(today: int, weekOffset: int) returns (dates: seq<string>)
    ensures |dates| == 7
    ensures forall i :: 0 <= i < 7 ==> dates[i] == WeekDate(today, weekOffset, i)
  {
    WeekStartBySetDate(today, weekOffset);
    var todayDate := FromDays(today);
    var daysSinceWednesday := DaysSinceWednesday(DayOfWeek(today));
    var startOfWeek := SetDate(todayDate, todayDate.day - daysSinceWednesday + weekOffset * 7);
    dates := [];
    for i := 0 to 7
      invariant |dates| == i
      invariant forall j :: 0 <= j < i ==> dates[j] == WeekDate(today, weekOffset, j)
    {
      WeekDateBySetDate(today, weekOffset, i);
      var date := SetDate(startOfWeek, startOfWeek.day + i);
      var formatted := FormatDate(date);
      WeekDatesGrow(today, weekOffset, dates, formatted);
      dates := dates + [formatted];
    }
  }

  /** Appending the next week date keeps a list of the first week dates. */
  lemma WeekDatesGrow(today: int, weekOffset: int, dates: seq<string>, formatted: string)
    requires forall j :: 0 <= j < |dates| ==> dates[j] == WeekDate(today, weekOffset, j)
    requires formatted == WeekDate(today, weekOffset, |dates|)
    ensures forall j :: 0 <= j < |dates| + 1 ==> (dates + [formatted])[j] == WeekDate(today, weekOffset, j)
  {
    forall j | 0 <= j < |dates| + 1
      ensures (dates + [formatted])[j] == WeekDate(today, weekOffset, j)
    {
      if j < |dates| {
        assert (dates + [formatted])[j] == dates[j];
      }
    }
  }

  /** `startOfWeek` as `getWeekDates` computes it is the week's first day. */
  lemma WeekStartBySetDate(today: int, weekOffset: int)
    ensures 1 <= FromDays(today).month <= 12
    ensures var todayDate := FromDays(today);
      SetDate(todayDate, todayDate.day - DaysSinceWednesday(DayOfWeek(today)) + weekOffset * 7)
        == FromDays(WeekStart(today, weekOffset))
  {
    SetDateShift(today, WeekStart(today, weekOffset) - today);
  }

  /** The `i`-th date as `getWeekDates` computes it from `startOfWeek`. */
  lemma WeekDateBySetDate(today: int, weekOffset: int, i: int)
    ensures 1 <= FromDays(WeekStart(today, weekOffset)).month <= 12
    ensures var start := FromDays(WeekStart(today, weekOffset));
      FormatDate(SetDate(start, start.day + i)) == WeekDate(today, weekOffset, i)
  {
    SetDateShift(WeekStart(today, weekOffset), i);
  }

  /** The week starts on a Wednesday at most six days before today, so
      today is one of the seven dates of week 0. */
  lemma WeekStartsOnWednesday(today: int)
    ensures DayOfWeek(WeekStart(today, 0)) == 3
    ensures today - 6 <= WeekStart(today, 0) <= today
  {
    var w := DayOfWeek(today);
    DaysSinceWednesdayRange(w);
    var s := WeekStart(today, 0);
    assert s + 4 == (today + 4) - (w + 4) % 7;
    assert (today + 4) == 7 * ((today + 4) / 7) + w;
    if w >= 3 {
      assert s + 4 == 7 * ((today + 4) / 7) + 3;
      DivModUnique(s + 4, 7, (today + 4) / 7, 3);
    } else {
      assert s + 4 == 7 * ((today + 4) / 7 - 1) + 3;
      DivModUnique(s + 4, 7, (today + 4) / 7 - 1, 3);
    }
  }

  /** Each date of the week is the calendar day after the one before it. */
  lemma WeekDatesConsecutive(today: int, weekOffset: int, i: nat)
    requires i < 6
    ensures FromDays(WeekStart(today, weekOffset) + i + 1) == NextDay(FromDays(WeekStart(today, weekOffset) + i))
  {
    FromDaysSucc(WeekStart(today, weekOffset) + i);
  }

  /** The next week offset moves every date seven calendar days on. */
  lemma WeekOffsetShift(today: int, weekOffset: int, i: int)
    ensures FromDays(WeekStart(today, weekOffset + 1) + i) == DaysAfter(FromDays(WeekStart(today, weekOffset) + i), 7)
  {
    FromDaysAdd(WeekStart(today, weekOffset) + i, 7);
  }

  /** For a four-digit year, a week date is ten characters of zero-padded
      `YYYY-MM-DD` naming a real date. */
  lemma WeekDateShape(today: int, weekOffset: int, i: int)
    requires 1000 <= FromDays(WeekStart(today, weekOffset) + i).year <= 9999
    ensures var d := FromDays(WeekStart(today, weekOffset) + i);
      && ValidDate(d)
      && WeekDate(today, weekOffset, i) == FixedDigits(d.year, 4) + "-" + FixedDigits(d.month, 2) + "-" + FixedDigits(d.day, 2)
      && |WeekDate(today, weekOffset, i)| == 10
  {
    FromDaysValid(WeekStart(today, weekOffset) + i);
    FormatDateShape(FromDays(WeekStart(today, weekOffset) + i));
  }

  /** For four-digit years, the string order of the week dates is their
      order in the week. */
  lemma WeekDatesSorted(today: int, weekOffset: int, i: int, j: int)
    requires 1000 <= FromDays(WeekStart(today, weekOffset) + i).year <= 9999
    requires 1000 <= FromDays(WeekStart(today, weekOffset) + j).year <= 9999
    ensures LexLess(WeekDate(today, weekOffset, i), WeekDate(today, weekOffset, j)) <==> i < j
  {
    FormattedDayOrder(WeekStart(today, weekOffset) + i, WeekStart(today, weekOffset) + j);
  }

  // ---------------------------------------------------------------------
  // Loading the slots of a list of dates
  // ---------------------------------------------------------------------

  /** The slots of each date in turn, each date's in table order. */
  function SlotsOnDates(rows: seq<TimeSlot>, dates: seq<string>): seq<TimeSlot>
  {
    if |dates| == 0 then []
    else SlotsOnDates(rows, dates[..|dates| - 1]) + Where(rows, DateIs(dates[|dates| - 1]))
  }

  /** The loaded slots are the rows dated on one of the dates. */
  lemma {:induction false} SlotsOnDatesMembers(rows: seq<TimeSlot>, dates: seq<string>)
    ensures forall s :: s in SlotsOnDates(rows, dates) <==> s in rows && s.date in dates
  {
    if |dates| > 0 {
      var n := |dates|;
      SlotsOnDatesMembers(rows, dates[..n - 1]);
      assert dates == dates[..n - 1] + [dates[n - 1]];
    }
  }

  /** The loop of `loadTimeSlots`: one `getTimeSlots` per date, in order,
      their results concatenated; the first failed query ends the loop with
      its error. */
  method FetchSlotsOnDates(table: TimeSlotTable, dates: seq<string>, replies: seq<Response>)
    returns (r: Result<seq<TimeSlot>>)
    ensures var k := FirstErr(replies, |dates|);
      && (k < |dates| ==> r == Failure(ReplyAt(replies, k).message))
      && (k == |dates| ==> r == Success(SlotsOnDates(table.rows, dates)))
  {
    var allSlots := [];
    for i := 0 to |dates|
      invariant FirstErr(replies, i) == i
      invariant allSlots == SlotsOnDates(table.rows, dates[..i])
    {
      var slots := table.GetTimeSlots(dates[i], ReplyAt(replies, i));
      if slots.Failure? {
        FirstErrUnique(replies, |dates|, i);
        return slots;
      }
      assert dates[..i + 1][..i] == dates[..i];
      allSlots := allSlots + slots.value;
    }
    FirstErrUnique(replies, |dates|, |dates|);
    assert dates[..|dates|] == dates;
    r := Success(allSlots);
  }

  // ---------------------------------------------------------------------
  // Everyone available, by count
  // ---------------------------------------------------------------------

  /** The distinct users with a slot starting at `hour` on `date`. */
  function UsersAt(slots: seq<TimeSlot>, date: string, hour: nat): set<string> {
    set s | s in slots && s.date == date && s.startTime == TimeFormat(hour) :: s.userId
  }

  /** This component's `isEveryoneAvailable`: exactly five distinct users
      have a slot in the cell. */
  predicate FiveAvailable(slots: seq<TimeSlot>, date: string, hour: nat) {
    |UsersAt(slots, date, hour)| == 5
  }

  /** Another slot of a user already counted in the cell changes nothing. */
  lemma FiveAvailableCountsUsersOnce(slots: seq<TimeSlot>, s: TimeSlot, date: string, hour: nat)
    requires s.userId in UsersAt(slots, date, hour)
    ensures FiveAvailable(slots + [s], date, hour) == FiveAvailable(slots, date, hour)
  {
    assert UsersAt(slots + [s], date, hour) == UsersAt(slots, date, hour);
  }

  /** Slots of other cells do not affect a cell. */
  lemma FiveAvailableOtherCell(slots: seq<TimeSlot>, s: TimeSlot, date: string, hour: nat)
    requires s.date != date || s.startTime != TimeFormat(hour)
    ensures FiveAvailable(slots + [s], date, hour) == FiveAvailable(slots, date, hour)
  {
    assert UsersAt(slots + [s], date, hour) == UsersAt(slots, date, hour);
  }

  // ---------------------------------------------------------------------
  // The component
  // ---------------------------------------------------------------------

  /** The overview's state: the loaded slots, the dates shown and the error
      message on display. */
  class AvailabilityOverview {
    const table: TimeSlotTable
    var timeSlots: seq<TimeSlot>
    var selectedDates: seq<string>
    var error: string

    constructor (table: TimeSlotTable)
      ensures this.table == table && timeSlots == [] && selectedDates == [] && error == ""
    {
      this.table := table;
      timeSlots := [];
      selectedDates := [];
      error := "";
    }

    /** `loadTimeSlots(dates)`: on success the slots of all dates in date
        order replace the loaded ones; on failure only the error changes. */
    method LoadTimeSlots(dates: seq<string>, replies: seq<Response>)
      modifies this
      ensures selectedDates == old(selectedDates)
      ensures var k := FirstErr(replies, |dates|);
        && (k < |dates| ==> timeSlots == old(timeSlots) && error == "Failed to load time slots")
        && (k == |dates| ==> timeSlots == SlotsOnDates(table.rows, dates) && error == old(error))
    {
      var fetched := FetchSlotsOnDates(table, dates, replies);
      if fetched.Failure? {
        error := "Failed to load time slots";
        return;
      }
      timeSlots := fetched.value;
    }

    /** Showing week `weekOffset`: the week's dates become the selected
        dates, which are then loaded. */
    method ShowWeek(today: int, weekOffset: int, replies: seq<Response>)
      modifies this
      ensures |selectedDates| == 7
      ensures forall i :: 0 <= i < 7 ==> selectedDates[i] == WeekDate(today, weekOffset, i)
      ensures var k := FirstErr(replies, 7);
        && (k < 7 ==> timeSlots == old(timeSlots) && error == "Failed to load time slots")
        && (k == 7 ==> timeSlots == SlotsOnDates(table.rows, selectedDates) && error == old(error))
    {
      var dates := GetWeekDates(today, weekOffset);
      selectedDates := dates;
      LoadTimeSlots(selectedDates, replies);
    }
  }
}
