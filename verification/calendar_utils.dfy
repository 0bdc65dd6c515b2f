/**
 * The month-grid builder of the work calendar: per-day records, the
 * week-start remapping of weekdays, the 6 x 7 grid of a month, the twelve
 * grids of a year and the `YYYY-MM-DD` date key.
 *
 * A `Date` is its day number (see module Gregorian).  The lunar-calendar
 * library is a parameter `lunar` from a day number to what the library
 * reports for that day.
 */
module CalendarUtils {
  import opened Gregorian
  import opened Optional
  import Decimal

  /** What the lunar library reports for one day. */
  datatype LunarInfo = LunarInfo(
    cnDay: string,             // lunar day label
    cnMonth: string,           // lunar month label
    cnYear: string,            // lunar year label
    jieQi: string,             // solar term, "" if none
    festivals: seq<string>)    // lunar festivals, in the library's order

  /** One calendar cell; `isCurMonth` is false for cells borrowed from neighbouring months. */
  datatype DateInfo = DateInfo(
    year: int, month: int, day: int,
    date: int,
    cnDay: string, cnMonth: string, cnYear: string, jieQi: string,
    isCurMonth: bool,
    week: int,
    festivalName: string)

  /** The grid of one month: `month` is 0-based. */
  datatype MonthWeek = MonthWeek(month: int, weeks: seq<seq<DateInfo>>)

  /** Gregorian festivals by (1-based month, day); a missing entry reads as "". */
  const FestivalMap: map<(int, int), string> :=
    map[(1, 1) := "元旦", (4, 4) := "清明节", (5, 1) := "劳动节", (10, 1) := "国庆节"]

  // ---------------------------------------------------------------------
  // JavaScript `Date` construction

  /** `new Date(y, ...)` reads a year argument in 0..99 as 1900 + y. */
  function EffectiveYear(year: int): (y: int)
    ensures y < 0 || 100 <= y
  {
    if 0 <= year <= 99 then 1900 + year else year
  }

  /** `new Date(year, monthIndex, day)`: the day number, out-of-range months and days carried over. */
  function NewDate(year: int, monthIndex: int, day: int): int {
    MakeDay(EffectiveYear(year), monthIndex, day)
  }

  /** For a month and day in range, `new Date(year, monthIndex, day)` reads back as that date of the effective year. */
  lemma NewDateValid(year: int, monthIndex: int, day: int)
    requires 0 <= monthIndex < 12 && 1 <= day <= MonthLength(EffectiveYear(year), monthIndex)
    ensures NewDate(year, monthIndex, day) == DaysFromCivil(Date(EffectiveYear(year), monthIndex, day))
    ensures Civil(NewDate(year, monthIndex, day)) == Date(EffectiveYear(year), monthIndex, day)
  {
    MakeDayInYear(EffectiveYear(year), monthIndex, day);
    CivilOfDays(Date(EffectiveYear(year), monthIndex, day));
  }

  // ---------------------------------------------------------------------
  // getDateInfo

  /** The first lunar festival if there is a non-empty one, else the Gregorian festival of (month + 1, day), else "". */
  function FestivalName(festivals: seq<string>, month: int, day: int): (name: string)
    ensures |festivals| > 0 && festivals[0] != "" ==> name == festivals[0]
    ensures (|festivals| == 0 || festivals[0] == "") && (month + 1, day) in FestivalMap ==>
              name == FestivalMap[(month + 1, day)]
    ensures (|festivals| == 0 || festivals[0] == "") && (month + 1, day) !in FestivalMap ==> name == ""
  {
    if |festivals| > 0 && festivals[0] != "" then festivals[0]
    else if (month + 1, day) in FestivalMap then FestivalMap[(month + 1, day)]
    else ""
  }

  /** The record of day `date`; the Gregorian fields name exactly that day. */
  function GetDateInfo(lunar: int -> LunarInfo, date: int, isCurMonth: bool): (r: DateInfo)
    ensures ValidDate(Date(r.year, r.month, r.day))
    ensures DaysFromCivil(Date(r.year, r.month, r.day)) == date && r.date == date
    ensures r.week == Weekday(date) && r.isCurMonth == isCurMonth
    ensures r.cnDay == lunar(date).cnDay && r.cnMonth == lunar(date).cnMonth
    ensures r.cnYear == lunar(date).cnYear && r.jieQi == lunar(date).jieQi
    ensures r.festivalName == FestivalName(lunar(date).festivals, r.month, r.day)
  {
    var info := lunar(date);
    var d := Civil(date);
    DateInfo(d.year, d.month, d.day, date,
             info.cnDay, info.cnMonth, info.cnYear, info.jieQi,
             isCurMonth, Weekday(date),
             FestivalName(info.festivals, d.month, d.day))
  }

  // ---------------------------------------------------------------------
  // getDay

  /** The native weekday that opens a week: Monday when `weekStartDay` is 1, Sunday otherwise. */
  function WeekOpener(weekStartDay: int): int {
    if weekStartDay == 1 then 1 else 0
  }

  /** The column (0..6) of day `date` in a week that opens on `WeekOpener(weekStartDay)`. */
  function GetDay(date: int, weekStartDay: int): (col: int)
    ensures 0 <= col < 7
    ensures col == (Weekday(date) - WeekOpener(weekStartDay)) % 7
    ensures weekStartDay != 1 ==> col == Weekday(date)
  {
    var day := Weekday(date);
    if weekStartDay == 1 then
      if day == 0 then 6 else day - 1
    else day
  }

  /** Columns advance with the days and wrap after 7. */
  lemma GetDayShift(date: int, k: int, weekStartDay: int)
    ensures GetDay(date + k, weekStartDay) == (GetDay(date, weekStartDay) + k) % 7
  {
    var s := WeekOpener(weekStartDay);
    assert GetDay(date + k, weekStartDay) == (date + k + 4 - s) % 7;
    assert GetDay(date, weekStartDay) == (date + 4 - s) % 7;
  }

  /** The remapping on Sunday, Wednesday and any day for a Sunday-first week. */
  lemma GetDayExamples(date: int)
    ensures Weekday(date) == 0 ==> GetDay(date, 1) == 6
    ensures Weekday(date) == 3 ==> GetDay(date, 1) == 2
    ensures GetDay(date, 0) == Weekday(date)
  {
  }

  // ---------------------------------------------------------------------
  // The grid of a month, as a specification

  /** Day number of the 1st of the month. */
  function MonthStart(year: int, month: int): int {
    NewDate(year, month, 1)
  }

  /** Gregorian length of the month that `new Date(year, month, 1)` falls in. */
  function CurMonthLength(year: int, month: int): int
    requires 0 <= month < 12
  {
    MonthLength(EffectiveYear(year), month)
  }

  /** Cells before the 1st: the column of the 1st. */
  function LeadingDays(year: int, month: int, weekStartDay: int): int {
    GetDay(MonthStart(year, month), weekStartDay)
  }

  /**
   * Where a grid sits: the day number of its top-left cell, of the month's
   * 1st, and the month's length.  Everything about the cells follows from
   * these three numbers.
   */
  datatype Frame = Frame(gridStart: int, monthStart: int, monthLength: int)

  function FrameOf(year: int, month: int, weekStartDay: int): Frame
    requires 0 <= month < 12
  {
    Frame(MonthStart(year, month) - LeadingDays(year, month, weekStartDay),
          MonthStart(year, month),
          CurMonthLength(year, month))
  }

  predicate InMonth(f: Frame, date: int) {
    f.monthStart <= date < f.monthStart + f.monthLength
  }

  /** Cell `k` (row k / 7, column k % 7): day `gridStart + k`, flagged when it is in the month. */
  function CellAt(lunar: int -> LunarInfo, f: Frame, k: int): DateInfo {
    GetDateInfo(lunar, f.gridStart + k, InMonth(f, f.gridStart + k))
  }

  /** The first `n` cells, in reading order. */
  function Cells(lunar: int -> LunarInfo, f: Frame, n: nat): seq<DateInfo> {
    seq(n, k => CellAt(lunar, f, k))
  }

  /** Row `r`: cells 7r to 7r + 6. */
  function Row(lunar: int -> LunarInfo, f: Frame, r: int): seq<DateInfo> {
    seq(7, c => CellAt(lunar, f, 7 * r + c))
  }

  /** The first `n` rows. */
  function GridRows(lunar: int -> LunarInfo, f: Frame, n: nat): seq<seq<DateInfo>> {
    seq(n, r => Row(lunar, f, r))
  }

  /** The six rows of the grid of `month` (0..11). */
  function MonthGrid(year: int, month: int, weekStartDay: int, lunar: int -> LunarInfo): seq<seq<DateInfo>>
    requires 0 <= month < 12
  {
    GridRows(lunar, FrameOf(year, month, weekStartDay), 6)
  }

  function YearGrid(year: int, weekStartDay: int, lunar: int -> LunarInfo): seq<MonthWeek> {
    seq(12, i => MonthWeek(i, if 0 <= i < 12 then MonthGrid(year, i, weekStartDay, lunar) else []))
  }

  /** The seven days after `date`, none of them flagged: a padding row. */
  function WeekAfter(lunar: int -> LunarInfo, date: int): (row: seq<DateInfo>)
    ensures |row| == 7
    ensures forall i :: 0 <= i < 7 ==> row[i].date == date + i + 1 && !row[i].isCurMonth
    ensures forall i :: 0 <= i < 7 ==> row[i].week == Weekday(date + i + 1)
  {
    var row := seq(7, i => GetDateInfo(lunar, date + i + 1, false));
    assert forall i :: 0 <= i < 7 ==> row[i] == GetDateInfo(lunar, date + i + 1, false);
    row
  }

  // ---------------------------------------------------------------------
  // Where the grid sits

  /** `new Date(year, month, d)` is `d - 1` days after the 1st, whatever `d` is. */
  lemma NewDateDay(year: int, month: int, d: int)
    requires 0 <= month < 12
    ensures NewDate(year, month, d) == MonthStart(year, month) + d - 1
  {
    MakeDayInYear(EffectiveYear(year), month, d);
    MakeDayInYear(EffectiveYear(year), month, 1);
  }

  /** `new Date(year, month + 1, d)` is `d - 1` days after the next month's 1st, which follows the month's last day. */
  lemma NextMonthDay(year: int, month: int, d: int)
    requires 0 <= month < 12
    ensures NewDate(year, month + 1, d) == MonthStart(year, month) + CurMonthLength(year, month) + d - 1
  {
    var y := EffectiveYear(year);
    NextMonthFollows(y, month);
    assert MakeDay(y, month + 1, d) == MakeDay(y, month + 1, 1) + d - 1;
  }

  /** `new Date(year, month + 1, 0)` is the last day of the month and `getDate` of it is the month's length. */
  lemma LastDayOfMonth(year: int, month: int)
    requires 0 <= month < 12
    ensures NewDate(year, month + 1, 0) == MonthStart(year, month) + CurMonthLength(year, month) - 1
    ensures Civil(NewDate(year, month + 1, 0)).day == CurMonthLength(year, month)
  {
    var y := EffectiveYear(year);
    NextMonthDay(year, month, 0);
    var last := Date(y, month, MonthLength(y, month));
    MakeDayInYear(y, month, 1);
    assert DaysFromCivil(last) == NewDate(year, month + 1, 0);
    CivilOfDays(last);
  }

  /** Day `d` of the month has day number `MonthStart + d - 1`. */
  lemma MonthDayNumber(year: int, month: int, e: Date)
    requires 0 <= month < 12 && ValidDate(e)
    ensures e.year == EffectiveYear(year) && e.month == month ==>
              DaysFromCivil(e) == MonthStart(year, month) + e.day - 1
  {
    MakeDayInYear(EffectiveYear(year), month, 1);
  }

  /**
   * The grid opens on its first column at most six days before the 1st,
   * and six rows hold the whole month.
   */
  lemma GridFrame(year: int, month: int, weekStartDay: int)
    requires 0 <= month < 12
    ensures var f := FrameOf(year, month, weekStartDay);
            f.gridStart <= f.monthStart <= f.gridStart + 6 &&
            GetDay(f.gridStart, weekStartDay) == 0 &&
            28 <= f.monthLength <= 31 &&
            f.monthStart + f.monthLength <= f.gridStart + 42
  {
    var start := MonthStart(year, month);
    GetDayShift(start, -LeadingDays(year, month, weekStartDay), weekStartDay);
  }

  /** Rounding a count of 27 to 36 cells, plus one, up to whole weeks gives 4 to 6 weeks. */
  lemma RoundUpToWeeks(t: int)
    requires 27 <= t <= 36
    ensures (t + 7 - t % 7) % 7 == 0 && 28 <= t + 7 - t % 7 <= 42
  {
    var q := t / 7;
    assert t == 7 * q + t % 7;
    assert 3 <= q <= 5;
    assert t + 7 - t % 7 == 7 * (q + 1);
  }

  /** The cells pushed before the padding rows fill whole rows: between 4 and 6 of them. */
  lemma UnpaddedLength(year: int, month: int, weekStartDay: int)
    requires 0 <= month < 12
    ensures var lead := LeadingDays(year, month, weekStartDay);
            var len := CurMonthLength(year, month);
            var endDay := GetDay(NewDate(year, month + 1, 0), weekStartDay);
            var n := lead + len + 6 - endDay;
            n % 7 == 0 && 28 <= n <= 42
  {
    var lead := LeadingDays(year, month, weekStartDay);
    var len := CurMonthLength(year, month);
    var t := lead + len - 1;
    NextMonthDay(year, month, 0);
    GetDayShift(MonthStart(year, month), len - 1, weekStartDay);
    assert GetDay(NewDate(year, month + 1, 0), weekStartDay) == t % 7;
    RoundUpToWeeks(t);
  }

  // ---------------------------------------------------------------------
  // Facts the builder's loops rely on

  function Min(a: int, b: int): int {
    if a < b then a else b
  }

  lemma CellsStep(lunar: int -> LunarInfo, f: Frame, n: nat)
    ensures Cells(lunar, f, n + 1) == Cells(lunar, f, n) + [CellAt(lunar, f, n)]
  {
  }

  /** Appending the record of the day after the first `n` cells, with its flag, gives the first n + 1 cells. */
  lemma PushCell(lunar: int -> LunarInfo, f: Frame, n: nat, x: int, flag: bool)
    requires x == f.gridStart + n && flag == InMonth(f, x)
    ensures Cells(lunar, f, n) + [GetDateInfo(lunar, x, flag)] == Cells(lunar, f, n + 1)
  {
    assert GetDateInfo(lunar, x, flag) == CellAt(lunar, f, n);
    CellsStep(lunar, f, n);
  }

  /** The i-th leading cell, `new Date(year, month, -lead + i + 1)`, is grid cell i. */
  lemma PushLeading(year: int, month: int, weekStartDay: int, lunar: int -> LunarInfo, i: nat)
    requires 0 <= month < 12 && i < LeadingDays(year, month, weekStartDay)
    ensures var f := FrameOf(year, month, weekStartDay);
            Cells(lunar, f, i)
            + [GetDateInfo(lunar, NewDate(year, month, -LeadingDays(year, month, weekStartDay) + i + 1), false)]
            == Cells(lunar, f, i + 1)
  {
    var f := FrameOf(year, month, weekStartDay);
    var x := NewDate(year, month, -LeadingDays(year, month, weekStartDay) + i + 1);
    NewDateDay(year, month, -LeadingDays(year, month, weekStartDay) + i + 1);
    assert x == f.gridStart + i && !InMonth(f, x);
    PushCell(lunar, f, i, x, false);
  }

  /** Day i of the month, `new Date(year, month, i)`, is grid cell lead + i - 1. */
  lemma PushOwn(year: int, month: int, weekStartDay: int, lunar: int -> LunarInfo, i: int)
    requires 0 <= month < 12 && 1 <= i <= CurMonthLength(year, month)
    ensures var f := FrameOf(year, month, weekStartDay);
            var n := LeadingDays(year, month, weekStartDay) + i - 1;
            Cells(lunar, f, n) + [GetDateInfo(lunar, NewDate(year, month, i), true)] == Cells(lunar, f, n + 1)
  {
    var f := FrameOf(year, month, weekStartDay);
    var x := NewDate(year, month, i);
    NewDateDay(year, month, i);
    assert x == f.gridStart + LeadingDays(year, month, weekStartDay) + i - 1 && InMonth(f, x);
    PushCell(lunar, f, LeadingDays(year, month, weekStartDay) + i - 1, x, true);
  }

  /** Day j of the next month, `new Date(year, month + 1, j)`, is grid cell lead + length + j - 1. */
  lemma PushTrailing(year: int, month: int, weekStartDay: int, lunar: int -> LunarInfo, j: int)
    requires 0 <= month < 12 && 1 <= j
    ensures var f := FrameOf(year, month, weekStartDay);
            var n := LeadingDays(year, month, weekStartDay) + CurMonthLength(year, month) + j - 1;
            Cells(lunar, f, n) + [GetDateInfo(lunar, NewDate(year, month + 1, j), false)] == Cells(lunar, f, n + 1)
  {
    var f := FrameOf(year, month, weekStartDay);
    var x := NewDate(year, month + 1, j);
    var n := LeadingDays(year, month, weekStartDay) + CurMonthLength(year, month) + j - 1;
    NextMonthDay(year, month, j);
    assert x == f.gridStart + n && !InMonth(f, x);
    PushCell(lunar, f, n, x, false);
  }

  lemma GridRowsStep(lunar: int -> LunarInfo, f: Frame, n: nat)
    ensures GridRows(lunar, f, n + 1) == GridRows(lunar, f, n) + [Row(lunar, f, n)]
  {
  }

  /** Once the month is behind, day `c + 1` after the last cell of row n - 1 is cell c of row n. */
  lemma PaddingCell(lunar: int -> LunarInfo, f: Frame, n: int, date: int, c: int)
    requires 0 <= c < 7
    requires f.gridStart + 7 * n >= f.monthStart + f.monthLength
    requires date == f.gridStart + 7 * n - 1
    ensures WeekAfter(lunar, date)[c] == Row(lunar, f, n)[c]
  {
    assert WeekAfter(lunar, date)[c] == GetDateInfo(lunar, date + c + 1, false);
    RowAt(lunar, f, n, c);
  }

  /** Once the month is behind, the seven days after the last cell of row n - 1 are row n. */
  lemma PaddingRow(lunar: int -> LunarInfo, f: Frame, n: int, date: int)
    requires f.gridStart + 7 * n >= f.monthStart + f.monthLength
    requires date == f.gridStart + 7 * n - 1
    ensures WeekAfter(lunar, date) == Row(lunar, f, n)
  {
    forall c | 0 <= c < 7
      ensures WeekAfter(lunar, date)[c] == Row(lunar, f, n)[c]
    {
      PaddingCell(lunar, f, n, date, c);
    }
  }

  /** Appending the padding row after row n - 1 extends the grid by row n. */
  lemma PushPaddingRow(lunar: int -> LunarInfo, f: Frame, n: nat, endDate: DateInfo)
    requires 1 <= n && f.gridStart + 7 * n >= f.monthStart + f.monthLength
    requires endDate == CellAt(lunar, f, 7 * n - 1)
    ensures GridRows(lunar, f, n) + [WeekAfter(lunar, endDate.date)] == GridRows(lunar, f, n + 1)
  {
    PaddingRow(lunar, f, n, endDate.date);
    GridRowsStep(lunar, f, n);
  }

  /** The rows `days.slice(i, i + 7)` taken at the multiples of 7 below `i`. */
  function RowsOf<T>(days: seq<T>, i: nat): seq<seq<T>>
    requires i <= |days|
  {
    seq((i + 6) / 7, r requires 0 <= r < (i + 6) / 7 => days[7 * r .. Min(7 * r + 7, |days|)])
  }

  lemma RowsOfStep<T>(days: seq<T>, i: nat)
    requires i < |days|
    ensures RowsOf(days, i + 1) ==
            if i % 7 == 0 then RowsOf(days, i) + [days[i .. Min(i + 7, |days|)]] else RowsOf(days, i)
  {
    assert (i + 7) / 7 == (i + 6) / 7 + (if i % 7 == 0 then 1 else 0);
  }

  /** Cells 7r to 7r + 6 of the first `n` are row r. */
  lemma CellsSlice(lunar: int -> LunarInfo, f: Frame, n: nat, r: int)
    requires 0 <= r && 7 * r + 7 <= n
    ensures Cells(lunar, f, n)[7 * r .. 7 * r + 7] == Row(lunar, f, r)
  {
    var slice := Cells(lunar, f, n)[7 * r .. 7 * r + 7];
    var row := Row(lunar, f, r);
    forall c | 0 <= c < 7
      ensures slice[c] == row[c]
    {
    }
  }

  /** Cutting a whole number of rows of cells into sevens gives the grid's rows. */
  lemma RowsOfCells(lunar: int -> LunarInfo, f: Frame, n: nat)
    requires n % 7 == 0
    ensures RowsOf(Cells(lunar, f, n), n) == GridRows(lunar, f, n / 7)
  {
    var rows := RowsOf(Cells(lunar, f, n), n);
    var grid := GridRows(lunar, f, n / 7);
    assert (n + 6) / 7 == n / 7;
    forall r | 0 <= r < n / 7
      ensures rows[r] == grid[r]
    {
      CellsSlice(lunar, f, n, r);
    }
  }

  // ---------------------------------------------------------------------
  // getMonthWeeks and getYearWeeks

  /** The previous month's days in front of the 1st: grid cells 0 .. lead - 1. */
  method LeadingCells(year: int, month: int, weekStartDay: int, lunar: int -> LunarInfo)
    returns (days: seq<DateInfo>)
    requires 0 <= month < 12
    ensures |days| == LeadingDays(year, month, weekStartDay)
    ensures days == Cells(lunar, FrameOf(year, month, weekStartDay), |days|)
  {
    ghost var f := FrameOf(year, month, weekStartDay);
    var day := GetDay(NewDate(year, month, 1), weekStartDay);
    days := [];
    for i := 0 to day
      invariant |days| == i && days == Cells(lunar, f, i)
    {
      PushLeading(year, month, weekStartDay, lunar, i);
      days := days + [GetDateInfo(lunar, NewDate(year, month, -day + i + 1), false)];
    }
  }

  /** Appends the month's own days, `new Date(year, month, i)` for i from 1 to the last day. */
  method OwnCells(year: int, month: int, weekStartDay: int, lunar: int -> LunarInfo, prefix: seq<DateInfo>)
    returns (days: seq<DateInfo>)
    requires 0 <= month < 12
    requires |prefix| == LeadingDays(year, month, weekStartDay)
    requires prefix == Cells(lunar, FrameOf(year, month, weekStartDay), |prefix|)
    ensures |days| == LeadingDays(year, month, weekStartDay) + CurMonthLength(year, month)
    ensures days == Cells(lunar, FrameOf(year, month, weekStartDay), |days|)
  {
    ghost var f := FrameOf(year, month, weekStartDay);
    ghost var lead := |prefix|;
    days := prefix;
    LastDayOfMonth(year, month);
    var monthDay := Civil(NewDate(year, month + 1, 0)).day;
    for i := 1 to monthDay + 1
      invariant |days| == lead + i - 1 && days == Cells(lunar, f, lead + i - 1)
    {
      PushOwn(year, month, weekStartDay, lunar, i);
      days := days + [GetDateInfo(lunar, NewDate(year, month, i), true)];
    }
  }

  /** Appends the following month's days up to the end of the row holding the last day. */
  method TrailingCells(year: int, month: int, weekStartDay: int, lunar: int -> LunarInfo, prefix: seq<DateInfo>)
    returns (days: seq<DateInfo>)
    requires 0 <= month < 12
    requires |prefix| == LeadingDays(year, month, weekStartDay) + CurMonthLength(year, month)
    requires prefix == Cells(lunar, FrameOf(year, month, weekStartDay), |prefix|)
    ensures |days| == |prefix| + 6 - GetDay(NewDate(year, month + 1, 0), weekStartDay)
    ensures |days| % 7 == 0 && 28 <= |days| <= 42
    ensures days == Cells(lunar, FrameOf(year, month, weekStartDay), |days|)
  {
    ghost var f := FrameOf(year, month, weekStartDay);
    ghost var n := |prefix|;
    days := prefix;
    var endDay := GetDay(NewDate(year, month + 1, 0), weekStartDay);
    for i := endDay to 6
      invariant |days| == n + i - endDay && days == Cells(lunar, f, n + i - endDay)
    {
      PushTrailing(year, month, weekStartDay, lunar, i - endDay + 1);
      days := days + [GetDateInfo(lunar, NewDate(year, month + 1, i - endDay + 1), false)];
    }
    UnpaddedLength(year, month, weekStartDay);
  }

  /** `days.slice(i, i + 7)` for every `i` that is a multiple of 7, in order. */
  method SplitWeeks<T>(days: seq<T>) returns (weeks: seq<seq<T>>)
    ensures weeks == RowsOf(days, |days|)
  {
    weeks := [];
    for i := 0 to |days|
      invariant weeks == RowsOf(days, i)
    {
      RowsOfStep(days, i);
      if i % 7 == 0 {
        weeks := weeks + [days[i .. Min(i + 7, |days|)]];
      }
    }
  }

  /**
   * The grid of `month` (0..11): the collected days cut into rows of 7,
   * then whole rows of following days until there are six rows.
   */
  method GetMonthWeeks(year: int, month: int, weekStartDay: int, lunar: int -> LunarInfo)
    returns (weeks: seq<seq<DateInfo>>)
    requires 0 <= month < 12
    ensures |weeks| == 6 && forall r :: 0 <= r < 6 ==> |weeks[r]| == 7
    ensures weeks == MonthGrid(year, month, weekStartDay, lunar)
  {
    ghost var f := FrameOf(year, month, weekStartDay);
    var days := LeadingCells(year, month, weekStartDay, lunar);
    days := OwnCells(year, month, weekStartDay, lunar, days);
    days := TrailingCells(year, month, weekStartDay, lunar, days);
    weeks := SplitWeeks(days);
    RowsOfCells(lunar, f, |days|);

    // whole rows of following days until there are six rows
    while |weeks| < 6
      invariant 4 <= |weeks| <= 6 && 7 * |weeks| >= |days|
      invariant f.gridStart + 7 * |weeks| >= f.monthStart + f.monthLength
      invariant weeks == GridRows(lunar, f, |weeks|)
      decreases 6 - |weeks|
    {
      var endDate := weeks[|weeks| - 1][6];
      PushPaddingRow(lunar, f, |weeks|, endDate);
      weeks := weeks + [WeekAfter(lunar, endDate.date)];
    }
  }

  /** The twelve month grids of `year`, January first (`weekStartDay` defaults to 0 in the source). */
  method GetYearWeeks(year: int, weekStartDay: int, lunar: int -> LunarInfo) returns (weeks: seq<MonthWeek>)
    ensures |weeks| == 12
    ensures forall i :: 0 <= i < 12 ==> weeks[i].month == i && |weeks[i].weeks| == 6
    ensures weeks == YearGrid(year, weekStartDay, lunar)
  {
    weeks := [];
    for i := 0 to 12
      invariant |weeks| == i
      invariant forall k :: 0 <= k < i ==> weeks[k] == MonthWeek(k, MonthGrid(year, k, weekStartDay, lunar))
    {
      var monthWeeks := GetMonthWeeks(year, i, weekStartDay, lunar);
      weeks := weeks + [MonthWeek(i, monthWeeks)];
    }
  }

  // ---------------------------------------------------------------------
  // What the grid is: properties of the specification

  /** Every cell's column is its index modulo 7, and cells are consecutive days. */
  lemma GridColumns(year: int, month: int, weekStartDay: int, lunar: int -> LunarInfo, k: int)
    requires 0 <= month < 12
    ensures var f := FrameOf(year, month, weekStartDay);
            GetDay(CellAt(lunar, f, k).date, weekStartDay) == k % 7 &&
            CellAt(lunar, f, k + 1).date == CellAt(lunar, f, k).date + 1
  {
    var f := FrameOf(year, month, weekStartDay);
    GridFrame(year, month, weekStartDay);
    GetDayShift(f.gridStart, k, weekStartDay);
  }

  /**
   * A cell is flagged as the current month exactly when `getFullYear` and
   * `getMonth` of its date name the month shown; a flagged cell `k` is day
   * `k - lead + 1`.
   */
  lemma CurMonthCell(year: int, month: int, weekStartDay: int, lunar: int -> LunarInfo, k: int)
    requires 0 <= month < 12
    ensures var c := CellAt(lunar, FrameOf(year, month, weekStartDay), k);
            c.isCurMonth <==> (c.year == EffectiveYear(year) && c.month == month)
    ensures var c := CellAt(lunar, FrameOf(year, month, weekStartDay), k);
            c.isCurMonth ==> c.day == k - LeadingDays(year, month, weekStartDay) + 1
  {
    var f := FrameOf(year, month, weekStartDay);
    var c := CellAt(lunar, f, k);
    var e := Date(c.year, c.month, c.day);
    MonthDayNumber(year, month, e);
    if c.isCurMonth {
      var own := Date(EffectiveYear(year), month, c.date - f.monthStart + 1);
      MonthDayNumber(year, month, own);
      DaysFromCivilInjective(e, own);
    }
  }

  /** Cell `k` is the day `k` days after the grid's start, in column `k % 7`, flagged exactly when it is in the month. */
  lemma CellFacts(year: int, month: int, weekStartDay: int, lunar: int -> LunarInfo, k: int)
    requires 0 <= month < 12
    ensures var cell := CellAt(lunar, FrameOf(year, month, weekStartDay), k);
            cell.date == FrameOf(year, month, weekStartDay).gridStart + k &&
            GetDay(cell.date, weekStartDay) == k % 7 &&
            cell.week == Weekday(cell.date) &&
            (cell.isCurMonth <==> (cell.year == EffectiveYear(year) && cell.month == month)) &&
            (cell.isCurMonth ==> cell.day == k - LeadingDays(year, month, weekStartDay) + 1)
  {
    GridColumns(year, month, weekStartDay, lunar, k);
    CurMonthCell(year, month, weekStartDay, lunar, k);
  }

  lemma GridAt(lunar: int -> LunarInfo, f: Frame, n: nat, r: int, c: int)
    requires 0 <= r < n && 0 <= c < 7
    ensures GridRows(lunar, f, n)[r][c] == CellAt(lunar, f, 7 * r + c)
  {
    GridRowAt(lunar, f, n, r);
    RowAt(lunar, f, r, c);
  }

  lemma GridRowAt(lunar: int -> LunarInfo, f: Frame, n: nat, r: int)
    requires 0 <= r < n
    ensures GridRows(lunar, f, n)[r] == Row(lunar, f, r)
  {
  }

  lemma RowAt(lunar: int -> LunarInfo, f: Frame, r: int, c: int)
    requires 0 <= c < 7
    ensures Row(lunar, f, r)[c] == CellAt(lunar, f, 7 * r + c)
  {
  }

  /** Grid position (r, c) holds cell 7r + c. */
  lemma MonthGridAt(year: int, month: int, weekStartDay: int, lunar: int -> LunarInfo, r: int, c: int)
    requires 0 <= month < 12 && 0 <= r < 6 && 0 <= c < 7
    ensures MonthGrid(year, month, weekStartDay, lunar)[r][c] == CellAt(lunar, FrameOf(year, month, weekStartDay), 7 * r + c)
  {
    GridAt(lunar, FrameOf(year, month, weekStartDay), 6, r, c);
  }

  lemma DivMod7(k: int)
    requires 0 <= k < 42
    ensures 0 <= k / 7 < 6 && 0 <= k % 7 < 7 && 7 * (k / 7) + k % 7 == k
  {
  }

  /** Every day of the month sits in the grid, flagged, at row (lead + d - 1) / 7 and column (lead + d - 1) % 7. */
  lemma MonthDayInGrid(year: int, month: int, weekStartDay: int, lunar: int -> LunarInfo, d: int)
    requires 0 <= month < 12 && 1 <= d <= CurMonthLength(year, month)
    ensures var k := LeadingDays(year, month, weekStartDay) + d - 1;
            0 <= k < 42 &&
            var c := MonthGrid(year, month, weekStartDay, lunar)[k / 7][k % 7];
            c.isCurMonth && c.year == EffectiveYear(year) && c.month == month && c.day == d
  {
    var k := LeadingDays(year, month, weekStartDay) + d - 1;
    var r, c := k / 7, k % 7;
    assert 0 <= k < 42 by {
      GridFrame(year, month, weekStartDay);
    }
    DivMod7(k);
    MonthGridAt(year, month, weekStartDay, lunar, r, c);
    CurMonthCell(year, month, weekStartDay, lunar, k);
  }

  /**
   * A month whose 1st is a Sunday: a Sunday-first grid starts on the 1st,
   * a Monday-first grid on the Monday six days before it.
   */
  lemma SundayStart(year: int, month: int, lunar: int -> LunarInfo)
    requires 0 <= month < 12 && Weekday(MonthStart(year, month)) == 0
    ensures LeadingDays(year, month, 0) == 0 && LeadingDays(year, month, 1) == 6
    ensures var c := CellAt(lunar, FrameOf(year, month, 0), 0);
            c.year == EffectiveYear(year) && c.month == month && c.day == 1 && c.isCurMonth && c.week == 0
    ensures var c := CellAt(lunar, FrameOf(year, month, 1), 0);
            c.date == MonthStart(year, month) - 6 && !c.isCurMonth && c.week == 1
  {
    CellFacts(year, month, 0, lunar, 0);
    CellFacts(year, month, 1, lunar, 0);
  }

  /** February 1970 is such a month. */
  lemma February1970()
    ensures Weekday(MonthStart(1970, 1)) == 0
  {
    assert MonthStart(1970, 1) == 31;
  }

  /** A two-digit year argument names a year of the 1900s. */
  lemma TwoDigitYear(year: int, month: int, day: int)
    requires 0 <= year <= 99
    ensures NewDate(year, month, day) == NewDate(1900 + year, month, day)
  {
  }

  // ---------------------------------------------------------------------
  // formatDate

  /** `v < 10 ? `0${v}` : v`, joined as text. */
  function TwoDigit(v: nat): string {
    if v < 10 then "0" + Decimal.NatToString(v) else Decimal.NatToString(v)
  }

  /** The `YYYY-MM-DD` key of day `date`, with 1-based month. */
  function FormatDate(date: int): (key: string)
    ensures |key| >= 7 && key[|key| - 6] == '-' && key[|key| - 3] == '-'
    ensures Decimal.AllDigits(key[|key| - 5..|key| - 3]) && Decimal.AllDigits(key[|key| - 2..])
  {
    var d := Civil(date);
    TwoDigitShape(d.month + 1);
    TwoDigitShape(d.day);
    Decimal.IntToString(d.year) + "-" + TwoDigit(d.month + 1) + "-" + TwoDigit(d.day)
  }

  /** Month numbers and days of the month always take exactly two digits and read back. */
  lemma TwoDigitShape(v: nat)
    requires 1 <= v <= 31
    ensures |TwoDigit(v)| == 2 && Decimal.AllDigits(TwoDigit(v))
    ensures Decimal.ParseNat(TwoDigit(v)) == v
  {
    if v < 10 {
      assert TwoDigit(v)[..1] == "0";
      assert Decimal.ParseNat("0") == 0;
    } else {
      Decimal.TwoDigits(v);
      Decimal.ParseNatToString(v);
    }
  }

  /** Reads a `YYYY-MM-DD` key back; `None` unless it names a real date. */
  function ParseDateKey(s: string): (r: Option<Date>)
    ensures r.Some? ==> ValidDate(r.value)
  {
    if |s| < 7 || s[|s| - 6] != '-' || s[|s| - 3] != '-' then None
    else
      var ys := s[..|s| - 6];
      var ms := s[|s| - 5 .. |s| - 3];
      var ds := s[|s| - 2 ..];
      if !Decimal.IsIntString(ys) || !Decimal.AllDigits(ms) || !Decimal.AllDigits(ds) then None
      else
        var d := Date(Decimal.ParseInt(ys), Decimal.ParseNat(ms) - 1, Decimal.ParseNat(ds));
        if ValidDate(d) then Some(d) else None
  }

  /** The two halves of a concatenation. */
  lemma SplitConcat<T>(a: seq<T>, b: seq<T>)
    ensures (a + b)[..|a|] == a && (a + b)[|a|..] == b
  {
  }

  /** The pieces of `ys + "-" + ms + "-" + ds` where `ParseDateKey` cuts it. */
  lemma KeyPieces(ys: string, ms: string, ds: string)
    requires |ms| == 2 && |ds| == 2
    ensures var s := ys + "-" + ms + "-" + ds;
            |s| == |ys| + 6 && s[|s| - 6] == '-' && s[|s| - 3] == '-' &&
            s[..|s| - 6] == ys && s[|s| - 5 .. |s| - 3] == ms && s[|s| - 2 ..] == ds
  {
    var tail := ms + "-" + ds;
    var s := ys + "-" + ms + "-" + ds;
    assert s == (ys + "-") + tail;
    SplitConcat(ys + "-", tail);
    SplitConcat(ys, "-");
    assert tail == (ms + "-") + ds;
    SplitConcat(ms + "-", ds);
    SplitConcat(ms, "-");
    assert s[|s| - 5 .. |s| - 3] == tail[..2];
    assert s[|s| - 2 ..] == tail[3..];
  }

  /** A year, a '-', two digits, a '-' and two digits split back into their parts. */
  lemma ParseKeyParts(ys: string, ms: string, ds: string)
    requires Decimal.IsIntString(ys)
    requires |ms| == 2 && Decimal.AllDigits(ms) && |ds| == 2 && Decimal.AllDigits(ds)
    ensures var d := Date(Decimal.ParseInt(ys), Decimal.ParseNat(ms) - 1, Decimal.ParseNat(ds));
            ParseDateKey(ys + "-" + ms + "-" + ds) == if ValidDate(d) then Some(d) else None
  {
    KeyPieces(ys, ms, ds);
  }

  /** The key of a day reads back as that day's date. */
  lemma ParseFormatDate(date: int)
    ensures ParseDateKey(FormatDate(date)) == Some(Civil(date))
  {
    var d := Civil(date);
    TwoDigitShape(d.month + 1);
    TwoDigitShape(d.day);
    Decimal.ParseIntToString(d.year);
    ParseKeyParts(Decimal.IntToString(d.year), TwoDigit(d.month + 1), TwoDigit(d.day));
  }

  /** Distinct days have distinct keys. */
  lemma FormatDateInjective(a: int, b: int)
    requires FormatDate(a) == FormatDate(b)
    ensures a == b
  {
    ParseFormatDate(a);
    ParseFormatDate(b);
  }

  /** The key of a valid date is its year, month and day joined with '-'. */
  lemma FormatDateOf(d: Date)
    requires ValidDate(d)
    ensures FormatDate(DaysFromCivil(d)) ==
            Decimal.IntToString(d.year) + "-" + TwoDigit(d.month + 1) + "-" + TwoDigit(d.day)
  {
    CivilOfDays(d);
  }


  /** One-digit numbers are padded with '0'. */
  lemma TwoDigitPadded(v: nat)
    requires 1 <= v < 10
    ensures TwoDigit(v) == ['0', Decimal.DigitChar(v)]
  {
  }

  /** Two-digit numbers are not padded. */
  lemma TwoDigitUnpadded(v: nat)
    requires 10 <= v < 100
    ensures TwoDigit(v) == [Decimal.DigitChar(v / 10), Decimal.DigitChar(v % 10)]
  {
    Decimal.TwoDigits(v);
  }

  /** The five pieces of a key, joined. */
  lemma JoinKey(y: string, m: string, d: string)
    requires |m| == 2 && |d| == 2
    ensures y + "-" + m + "-" + d == y + ['-', m[0], m[1], '-', d[0], d[1]]
  {
  }

  /** In the key of a date in January to September, on day 1 to 9, month and day are padded with '0'. */
  lemma FormatDatePadded(year: int, month: int, day: int)
    requires 0 <= month < 9 && 1 <= day < 10
    ensures FormatDate(DaysFromCivil(Date(year, month, day))) ==
            Decimal.IntToString(year) + ['-', '0', Decimal.DigitChar(month + 1), '-', '0', Decimal.DigitChar(day)]
  {
    FormatDateOf(Date(year, month, day));
    TwoDigitPadded(month + 1);
    TwoDigitPadded(day);
    JoinKey(Decimal.IntToString(year), TwoDigit(month + 1), TwoDigit(day));
  }

  /** In the key of a date in October to December, on day 10 or later, month and day are their own two digits. */
  lemma FormatDateUnpadded(year: int, month: int, day: int)
    requires 9 <= month < 12 && 10 <= day <= MonthLength(year, month)
    ensures FormatDate(DaysFromCivil(Date(year, month, day))) ==
            Decimal.IntToString(year) + ['-', '1', Decimal.DigitChar(month - 9), '-', Decimal.DigitChar(day / 10), Decimal.DigitChar(day % 10)]
  {
    FormatDateOf(Date(year, month, day));
    TwoDigitUnpadded(month + 1);
    TwoDigitUnpadded(day);
    assert (month + 1) / 10 == 1 && (month + 1) % 10 == month - 9;
    JoinKey(Decimal.IntToString(year), TwoDigit(month + 1), TwoDigit(day));
  }




}
