/**
 * The year view: twelve month tables under a header row of weekday names,
 * each current-month cell coloured by its day type and labelled with its
 * festival, solar term or lunar day, and the year and week-start controls.
 */
module WorkCalendarView {
  import opened Optional
  import opened Gregorian
  import opened CalendarUtils

  /** Weekday names indexed by native weekday, Sunday first. */
  const WeekdayNames: seq<string> := ["周日", "周一", "周二", "周三", "周四", "周五", "周六"]

  /**
   * The header row: Sunday first, or Monday first when `weekStartDay` is 1.
   * Column c names native weekday (c + first weekday) mod 7.
   */
  function Titles(weekStartDay: int): (t: seq<string>)
    ensures |t| == 7
    ensures forall c :: 0 <= c < 7 ==> t[c] == WeekdayNames[(c + WeekOpener(weekStartDay)) % 7]
  {
    if weekStartDay == 1 then ["周一", "周二", "周三", "周四", "周五", "周六", "周日"]
    else ["周日", "周一", "周二", "周三", "周四", "周五", "周六"]
  }

  /** The header above the column where a day is placed names that day's weekday. */
  lemma HeaderMatchesColumn(weekStartDay: int, date: int)
    ensures Titles(weekStartDay)[GetDay(date, weekStartDay)] == WeekdayNames[Weekday(date)]
  {
    var c := GetDay(date, weekStartDay);
    assert (c + WeekOpener(weekStartDay)) % 7 == Weekday(date);
  }

  // ---------------------------------------------------------------------
  // cellRender

  /** The three day-type colours; each has a default. */
  datatype Palette = Palette(workDay: string, holiday: string, rest: string)

  const DefaultPalette := Palette("#ffffff", "#DFE2FB", "#eeeeee")

  /** The colour of a date in the current selection. */
  const SelectedColor := "#abcdff"

  /** A missing list reads as empty. */
  function OrEmpty(list: Option<seq<string>>): seq<string> {
    if list.Some? then list.value else []
  }

  /** What the view is given besides the cell: the day-type lists, the colours and the selection. */
  datatype ViewProps = ViewProps(
    restDays: Option<seq<string>>,
    workDays: Option<seq<string>>,
    holidayDays: Option<seq<string>>,
    palette: Palette,
    selectDates: seq<string>)

  /**
   * The background of a current-month cell with key `key` and weekday `week`:
   * selection first, then work day, holiday, weekend or rest day, and work day otherwise.
   */
  function BackgroundColor(key: string, week: int, props: ViewProps): (c: string)
    ensures c == SelectedColor || c == props.palette.workDay || c == props.palette.holiday || c == props.palette.rest
  {
    if key in props.selectDates then SelectedColor
    else if key in OrEmpty(props.workDays) then props.palette.workDay
    else if key in OrEmpty(props.holidayDays) then props.palette.holiday
    else if week == 0 || week == 6 || key in OrEmpty(props.restDays) then props.palette.rest
    else props.palette.workDay
  }

  /** A selected date shows the selection colour whatever its type. */
  lemma SelectedWins(key: string, week: int, props: ViewProps)
    requires key in props.selectDates
    ensures BackgroundColor(key, week, props) == SelectedColor
  {
  }

  /** An explicit work day, weekend or not, holiday-listed or not, shows the work-day colour. */
  lemma WorkDayWins(key: string, week: int, props: ViewProps)
    requires key !in props.selectDates && key in OrEmpty(props.workDays)
    ensures BackgroundColor(key, week, props) == props.palette.workDay
  {
  }

  /** A holiday that is also listed as a rest day, or falls on a weekend, shows the holiday colour. */
  lemma HolidayOverRest(key: string, week: int, props: ViewProps)
    requires key !in props.selectDates && key !in OrEmpty(props.workDays)
    requires key in OrEmpty(props.holidayDays)
    ensures BackgroundColor(key, week, props) == props.palette.holiday
  {
  }

  /** An unlisted weekday shows the work-day colour and an unlisted Saturday or Sunday the rest-day colour. */
  lemma UnlistedDays(key: string, week: int, props: ViewProps)
    requires key !in props.selectDates && key !in OrEmpty(props.workDays)
    requires key !in OrEmpty(props.holidayDays) && key !in OrEmpty(props.restDays)
    ensures BackgroundColor(key, week, props) ==
            if week == 0 || week == 6 then props.palette.rest else props.palette.workDay
  {
  }

  /** An unselected weekend or rest day that is neither a work day nor a holiday shows the rest-day colour, whatever the palette. */
  lemma RestColorForRestDays(key: string, week: int, props: ViewProps)
    requires key !in props.selectDates && key !in OrEmpty(props.workDays) && key !in OrEmpty(props.holidayDays)
    requires week == 0 || week == 6 || key in OrEmpty(props.restDays)
    ensures BackgroundColor(key, week, props) == props.palette.rest
  {
  }

  /** The rest-day colour appears exactly for unselected, unlisted-as-work-or-holiday weekends and rest days. */
  lemma RestColorExactly(key: string, week: int, props: ViewProps)
    requires props.palette.rest != SelectedColor && props.palette.rest != props.palette.workDay
    requires props.palette.rest != props.palette.holiday
    ensures BackgroundColor(key, week, props) == props.palette.rest <==>
            key !in props.selectDates && key !in OrEmpty(props.workDays) &&
            key !in OrEmpty(props.holidayDays) &&
            (week == 0 || week == 6 || key in OrEmpty(props.restDays))
  {
  }

  /**
   * With the default colours, which are all different, a cell shows the
   * rest-day colour exactly when it is an unselected weekend or rest day that
   * is neither a work day nor a holiday.
   */
  lemma DefaultRestColor(key: string, week: int, props: ViewProps)
    requires props.palette == DefaultPalette
    ensures BackgroundColor(key, week, props) == DefaultPalette.rest <==>
            key !in props.selectDates && key !in OrEmpty(props.workDays) &&
            key !in OrEmpty(props.holidayDays) &&
            (week == 0 || week == 6 || key in OrEmpty(props.restDays))
  {
    RestColorExactly(key, week, props);
  }

  /**
   * The second line of a cell: the festival, else the solar term, else the
   * lunar month name on the first day of a lunar month, else the lunar day.
   */
  function CellLabel(item: DateInfo): (l: string)
    ensures l == item.festivalName || l == item.jieQi || l == item.cnMonth + "月" || l == item.cnDay
  {
    if item.festivalName != "" then item.festivalName
    else if item.jieQi != "" then item.jieQi
    else if item.cnDay == "初一" then item.cnMonth + "月"
    else item.cnDay
  }

  /**
   * The first non-empty of festival and solar term wins; failing both, the
   * first day of a lunar month shows the month name and any other day its
   * lunar day.  The label is empty only when all of those are.
   */
  lemma LabelFallback(item: DateInfo)
    ensures item.festivalName != "" ==> CellLabel(item) == item.festivalName
    ensures item.festivalName == "" && item.jieQi != "" ==> CellLabel(item) == item.jieQi
    ensures item.festivalName == "" && item.jieQi == "" && item.cnDay == "初一" ==>
            CellLabel(item) == item.cnMonth + "月"
    ensures item.festivalName == "" && item.jieQi == "" && item.cnDay != "初一" ==>
            CellLabel(item) == item.cnDay
    ensures CellLabel(item) == "" <==>
            item.festivalName == "" && item.jieQi == "" && item.cnDay == ""
  {
    if item.festivalName == "" && item.jieQi == "" && item.cnDay == "初一" {
      assert |CellLabel(item)| == |item.cnMonth| + 1;
    }
  }

  /** A rendered cell: a faded cell for a neighbouring month, a coloured, keyed and labelled one for the month itself. */
  datatype CellView =
    | OtherMonth(day: int, cnDay: string)
    | OwnMonth(day: int, background: string, dataDate: string, caption: string)

  /**
   * A neighbouring month's cell shows only its day and lunar day; a cell of
   * the month itself is keyed by its date, coloured by the priority chain
   * and labelled by the fallback chain.
   */
  function CellRender(item: DateInfo, props: ViewProps): (v: CellView)
    ensures v.day == item.day
    ensures v.OwnMonth? <==> item.isCurMonth
    ensures v.OtherMonth? ==> v.cnDay == item.cnDay
    ensures v.OwnMonth? ==>
              v.dataDate == FormatDate(item.date) && v.caption == CellLabel(item) &&
              v.background == BackgroundColor(v.dataDate, item.week, props)
  {
    if !item.isCurMonth then OtherMonth(item.day, item.cnDay)
    else
      var key := FormatDate(item.date);
      OwnMonth(item.day, BackgroundColor(key, item.week, props), key, CellLabel(item))
  }

  /**
   * Within a year view, two current-month cells never share a key: the key
   * picks out the month and the grid position.
   */
  lemma OwnDatesDistinct(year: int, weekStartDay: int, lunar: int -> LunarInfo,
                         m1: int, k1: int, m2: int, k2: int)
    requires 0 <= m1 < 12 && 0 <= m2 < 12
    requires CellAt(lunar, FrameOf(year, m1, weekStartDay), k1).isCurMonth
    requires CellAt(lunar, FrameOf(year, m2, weekStartDay), k2).isCurMonth
    requires FormatDate(CellAt(lunar, FrameOf(year, m1, weekStartDay), k1).date) ==
             FormatDate(CellAt(lunar, FrameOf(year, m2, weekStartDay), k2).date)
    ensures m1 == m2 && k1 == k2
  {
    var c1 := CellAt(lunar, FrameOf(year, m1, weekStartDay), k1);
    var c2 := CellAt(lunar, FrameOf(year, m2, weekStartDay), k2);
    FormatDateInjective(c1.date, c2.date);
    SameDateSameFields(lunar, c1.date, c1.isCurMonth, c2.isCurMonth);
    CurMonthCell(year, m1, weekStartDay, lunar, k1);
    CurMonthCell(year, m2, weekStartDay, lunar, k2);
  }

  /** Two records of one day agree on its Gregorian month. */
  lemma SameDateSameFields(lunar: int -> LunarInfo, date: int, flag1: bool, flag2: bool)
    ensures GetDateInfo(lunar, date, flag1).month == GetDateInfo(lunar, date, flag2).month
  {
    var a := GetDateInfo(lunar, date, flag1);
    var b := GetDateInfo(lunar, date, flag2);
    DaysFromCivilInjective(Date(a.year, a.month, a.day), Date(b.year, b.month, b.day));
  }

  // ---------------------------------------------------------------------
  // The view's own state

  class WorkCalendar {
    var curYear: int
    var weekStartDay: int

    predicate Valid()
      reads this
    {
      weekStartDay == 0 || weekStartDay == 1
    }

    constructor(year: int, defaultWeekStartDay: int)
      requires defaultWeekStartDay == 0 || defaultWeekStartDay == 1
      ensures Valid() && curYear == year && weekStartDay == defaultWeekStartDay
    {
      curYear := year;
      weekStartDay := defaultWeekStartDay;
    }

    /** The left arrow. */
    method PrevYear()
      modifies this
      ensures curYear == old(curYear) - 1 && weekStartDay == old(weekStartDay)
    {
      curYear := curYear - 1;
    }

    /** The right arrow. */
    method NextYear()
      modifies this
      ensures curYear == old(curYear) + 1 && weekStartDay == old(weekStartDay)
    {
      curYear := curYear + 1;
    }

    /** The week-start switch. */
    method SetWeekStartDay(value: int)
      requires value == 0 || value == 1
      modifies this
      ensures Valid() && weekStartDay == value && curYear == old(curYear)
    {
      weekStartDay := value;
    }

    /** The twelve month grids shown, recomputed from the current year and week start. */
    method Weeks(lunar: int -> LunarInfo) returns (weeks: seq<MonthWeek>)
      ensures weeks == YearGrid(curYear, weekStartDay, lunar)
    {
      weeks := GetYearWeeks(curYear, weekStartDay, lunar);
    }
  }
}
