# Work calendar, modelled in Dafny

A model of a React year-calendar widget. Users drag a rectangle over the
days of the year, then tag the dates they selected as work days, rest days
or holidays. The model covers five parts:

- **Month-grid builder** (`gregorian.dfy`, `decimal.dfy`, `calendar_utils.dfy`)
  - It turns a year and a week start (Sunday or Monday) into twelve grids of
    6 rows by 7 cells.
  - Each cell holds the Gregorian date, the lunar labels, the weekday, a
    festival name and whether it belongs to the month shown.
  - A date's key is `YYYY-MM-DD`.
  - A date is its ECMAScript day number: day 0 is 1970-01-01. `new Date(y, m, d)`
    is modelled as ECMAScript `MakeDay`, including month and day overflow and
    the reading of years 0..99 as 19xx.
  - The grid is first specified as a function, `MonthGrid`: cell `k` is day
    `gridStart + k`, and it is flagged exactly when it lies inside the month.
  - The loops of `getMonthWeeks` are proved to build exactly that grid.
  - Lemmas then show the grid's shape:
    - 42 consecutive days;
    - the first cell is in the first column;
    - the flagged cells are exactly days 1..length of the month, in order.
- **Rectangle overlap** (`rect.dfy`): the strict-inequality intersection test
  and its algebra.
- **Drag selection** (`box_select.dfy`)
  - A class with one method per mouse or scroll event.
  - After each change of the rectangle, a selection pass reports the
    candidates whose boxes overlap it, in candidate order.
  - The owner's callbacks are recorded, in call order, as a log of notices.
- **Year view** (`work_calendar.dfy`)
  - The header order.
  - The background-colour priority chain.
  - The cell label fallback.
  - The rule that only current-month cells carry a `data-date` key.
  - The year and week-start controls.
- **Day-type store** (`app.dfy`)
  - The page state: the selection, the dialog, the chosen type, and the map
    from date key to type.
  - The three derived lists.
  - The OK, Cancel and selection handlers.

## Model

| member | source | states |
|---|---|---|
| Gregorian.Civil | src/work-calendar/utils.ts:96-98 | `getFullYear`/`getMonth`/`getDate` of a day give a valid date whose day number is that day |
| Gregorian.CivilOfDays | src/work-calendar/utils.ts:96-98 | converting a valid date to its day number and back returns the same date |
| Gregorian.DaysFromCivilInjective | src/work-calendar/utils.ts:96-98 | distinct valid dates have distinct day numbers |
| Gregorian.DayFromYearClosedForm | src/work-calendar/utils.ts:141 | counting years from 1970 agrees with ECMAScript's closed form `DayFromYear` (floor division, leap rule 4/100/400) |
| Gregorian.NextMonthFollows | src/work-calendar/utils.ts:156 | the 1st of the next month is the month's length after the 1st of this month, December included |
| Decimal.ParseIntToString | src/work-calendar/utils.ts:215-219 | the decimal rendering of an integer is a well-formed signed numeral that reads back as the same integer |
| CalendarUtils.EffectiveYear | src/work-calendar/utils.ts:141 | the year a `Date` is built in is never 0..99: those arguments are read as 19xx |
| CalendarUtils.NewDateValid | src/work-calendar/utils.ts:141-160 | `new Date(year, m, d)` with an in-range month and day is that date of the effective year, and `getFullYear`/`getMonth`/`getDate` read it back |
| CalendarUtils.FestivalName | src/work-calendar/utils.ts:112 | the first lunar festival when there is a non-empty one; otherwise the fixed Gregorian entry for (month + 1, day); otherwise empty |
| CalendarUtils.GetDateInfo | src/work-calendar/utils.ts:80-114 | year, 0-based month and day name exactly the given day; weekday, lunar labels and flag are copied; festival name is resolved as above |
| CalendarUtils.GetDay | src/work-calendar/utils.ts:116-128 | result in 0..6, equal to (weekday - first weekday) mod 7; the native weekday unless the week starts on Monday |
| CalendarUtils.GetDayShift | src/work-calendar/utils.ts:116-128 | `k` days later the column is `k` further along, mod 7 |
| CalendarUtils.GetDayExamples | src/work-calendar/utils.ts:120-127 | with a Monday start, Sunday maps to 6 and Wednesday to 2; with a Sunday start, every weekday maps to itself |
| CalendarUtils.NewDateDay | src/work-calendar/utils.ts:152 | `new Date(year, month, d)` is `d - 1` days after the 1st for any `d`, including `d <= 0` |
| CalendarUtils.NextMonthDay | src/work-calendar/utils.ts:170 | `new Date(year, month + 1, d)` is the month's length plus `d - 1` days after the 1st |
| CalendarUtils.LastDayOfMonth | src/work-calendar/utils.ts:156 | `new Date(year, month + 1, 0)` is the month's last day, and `getDate` of it is the month's Gregorian length (29 in a leap February) |
| CalendarUtils.MonthDayNumber | src/work-calendar/utils.ts:159-161 | day `d` of the month shown has day number `1st + d - 1` |
| CalendarUtils.GridFrame | src/work-calendar/utils.ts:141-153 | the grid starts in column 0, at most 6 days before the 1st; the month has 28..31 days and ends within 42 cells |
| CalendarUtils.UnpaddedLength | src/work-calendar/utils.ts:144-171 | leading + own + trailing cells is a multiple of 7 between 28 and 42 |
| CalendarUtils.PushLeading | src/work-calendar/utils.ts:151-153 | leading cell `i` is grid cell `i`, unflagged |
| CalendarUtils.PushOwn | src/work-calendar/utils.ts:159-161 | day `i` of the month is grid cell `lead + i - 1`, flagged |
| CalendarUtils.PushTrailing | src/work-calendar/utils.ts:169-171 | day `j` of the next month is grid cell `lead + length + j - 1`, unflagged |
| CalendarUtils.WeekAfter | src/work-calendar/utils.ts:183-189 | a padding row is the seven days after the given one, in order, none flagged, each with its weekday |
| CalendarUtils.PushPaddingRow | src/work-calendar/utils.ts:182-191 | the seven days after the last cell of the last row form the next grid row |
| CalendarUtils.RowsOfCells | src/work-calendar/utils.ts:174-179 | cutting a whole number of rows of cells into sevens gives the grid's rows |
| CalendarUtils.LeadingCells | src/work-calendar/utils.ts:151-153 | the first loop pushes exactly grid cells `0 .. lead - 1`, where `lead` is the column of the 1st |
| CalendarUtils.OwnCells | src/work-calendar/utils.ts:155-161 | the second loop extends the cells by exactly the month's days |
| CalendarUtils.TrailingCells | src/work-calendar/utils.ts:163-171 | the third loop appends exactly `6 - endDay` cells of the next month, which ends the row holding the last day: 28 to 42 cells, a multiple of 7, each the specified grid cell |
| CalendarUtils.SplitWeeks | src/work-calendar/utils.ts:174-179 | the rows are `days.slice(i, i + 7)` for every multiple `i` of 7, in order |
| CalendarUtils.GetMonthWeeks | src/work-calendar/utils.ts:139-193 | exactly 6 rows of 7 cells, equal to the specified month grid |
| CalendarUtils.GetYearWeeks | src/work-calendar/utils.ts:201-207 | 12 entries with `month` 0..11 in order, each holding that month's 6-row grid |
| CalendarUtils.GridColumns | src/work-calendar/utils.ts:144-153 | cell `k` sits in column `k mod 7`, and consecutive cells are consecutive days |
| CalendarUtils.CurMonthCell | src/work-calendar/utils.ts:159-161 | a cell is flagged iff its year and month are the month shown; flagged cell `k` is day `k - lead + 1` |
| CalendarUtils.CellFacts | src/work-calendar/utils.ts:139-193 | cell `k` is day `gridStart + k` in column `k mod 7` with the native weekday, flagged exactly for the month's own days |
| CalendarUtils.MonthGridAt | src/work-calendar/utils.ts:174-192 | grid position (r, c) holds cell `7r + c` |
| CalendarUtils.MonthDayInGrid | src/work-calendar/utils.ts:155-161 | every day `d` of the month appears flagged, with that year, month and day, at cell `lead + d - 1` of the 42 |
| CalendarUtils.SundayStart | src/work-calendar/utils.ts:141-153 | when the 1st is a Sunday, a Sunday-first grid opens on the 1st and a Monday-first grid on the unflagged Monday six days earlier |
| CalendarUtils.February1970 | src/work-calendar/utils.ts:141 | 1970-02-01 was a Sunday |
| CalendarUtils.TwoDigitYear | src/work-calendar/utils.ts:141 | a year argument 0..99 means 1900..1999 |
| CalendarUtils.TwoDigitShape | src/work-calendar/utils.ts:217-218 | months 1..12 and days 1..31 render as exactly two digits that read back as the number |
| CalendarUtils.FormatDate | src/work-calendar/utils.ts:212-220 | a key ends in `-MM-DD`: two dashes, each followed by exactly two digits |
| CalendarUtils.ParseDateKey | src/work-calendar/utils.ts:212-220 | a key reads back only as a valid date |
| CalendarUtils.ParseKeyParts | src/work-calendar/utils.ts:215-219 | a year, '-', two digits, '-' and two digits split back into those parts |
| CalendarUtils.ParseFormatDate | src/work-calendar/utils.ts:212-220 | the key of a day reads back as that day's date |
| CalendarUtils.FormatDateInjective | src/work-calendar/utils.ts:212-220 | distinct days have distinct keys |
| CalendarUtils.FormatDateOf | src/work-calendar/utils.ts:212-220 | the key of a valid date is year, two-digit 1-based month and two-digit day, joined by '-' |
| CalendarUtils.FormatDatePadded | src/work-calendar/utils.ts:217-218 | in the key of any date in January to September on day 1 to 9, month and day are written `0` plus their digit |
| CalendarUtils.FormatDateUnpadded | src/work-calendar/utils.ts:217-218 | in the key of any date in October to December on day 10 or later, month and day are written as their own two digits |
| Rects.IsRectangleIntersect | src/box-select/utils.ts:8-28 | rectangles that overlap have widths, and heights, that sum to a positive amount |
| Rects.IntersectSymmetric | src/box-select/utils.ts:23 | swapping the two rectangles never changes the answer |
| Rects.EdgeTouchExcluded | src/box-select/utils.ts:23 | rectangles that only share an edge or a corner do not intersect |
| Rects.SelfIntersect | src/box-select/utils.ts:23 | a rectangle with non-negative sizes intersects itself iff both sizes are positive |
| Rects.ZeroWidthPair | src/box-select/utils.ts:23 | two zero-width (or two zero-height) rectangles never intersect |
| Rects.DegenerateInside | src/box-select/utils.ts:23 | a zero-size rectangle strictly inside another does intersect it |
| Rects.TranslationInvariant | src/box-select/utils.ts:8-28 | moving both rectangles by the same offset keeps the answer |
| Rects.IntersectIffCommonPoint | src/box-select/utils.ts:8-28 | rectangles of positive size intersect iff some point lies strictly inside both |
| BoxSelection.Selected | src/box-select/index.tsx:98-115 | the selection is no longer than the candidates, and holds only candidates whose boxes overlap the rectangle |
| BoxSelection.SelectedMembers | src/box-select/index.tsx:98-115 | a candidate is selected iff its box overlaps the rectangle |
| BoxSelection.SelectedConcat | src/box-select/index.tsx:98-115 | the selection of two runs of candidates is the selection of each in turn, so candidate order is kept |
| BoxSelection.CollectSelected | src/box-select/index.tsx:99-114 | the `forEach` pushing loop computes exactly the specified selection |
| BoxSelection.BoxSelect.Refilter | src/box-select/index.tsx:98-115 | one pass reports exactly the specified selection for the current rectangle, appended to the owner's calls |
| BoxSelection.BoxSelect.Overlay | src/box-select/index.tsx:118-128 | the overlay is drawn exactly while an anchor exists, and it is the current rectangle, of non-negative size |
| BoxSelection.BoxSelect.constructor | src/box-select/index.tsx:22-26 | mounting starts with an empty rectangle at the origin, no press and no anchor, runs one selection pass, and draws nothing |
| BoxSelection.BoxSelect.MouseDown | src/box-select/index.tsx:36-42 | the press is recorded, the anchor is the press point, the rectangle is 1 x 1 at the anchor, and a pass runs |
| BoxSelection.BoxSelect.MouseMove | src/box-select/index.tsx:44-62 | not pressed: nothing changes. Pressed: the rectangle spans from the anchor to the pointer on each axis, with non-negative sizes, and a pass runs |
| BoxSelection.BoxSelect.Scroll | src/box-select/index.tsx:30-33 | not pressed: nothing changes. Pressed: the rectangle is unchanged and a pass runs |
| BoxSelection.BoxSelect.MouseUp | src/box-select/index.tsx:65-75 | not pressed: nothing changes. Pressed: press and anchor are cleared, the rectangle is kept, the end of the selection is reported once, then a pass runs; the overlay disappears |
| BoxSelection.DragRectangle | src/box-select/index.tsx:47-61 | the rectangle spanned by the anchor and the pointer has sizes equal to the absolute offsets, and has an interior iff the points differ on both axes |
| WorkCalendarView.Titles | src/work-calendar/index.tsx:34-38 | seven headers; column `c` names weekday `(c + first weekday) mod 7`, so Sunday first unless the week starts on Monday |
| WorkCalendarView.HeaderMatchesColumn | src/work-calendar/index.tsx:34-38 | the header over the column where `getDay` places a day names that day's weekday |
| WorkCalendarView.BackgroundColor | src/work-calendar/index.tsx:65-74 | the background is always the selection colour or one of the three day-type colours |
| WorkCalendarView.SelectedWins | src/work-calendar/index.tsx:66-67 | a selected date shows `#abcdff` whatever its type |
| WorkCalendarView.WorkDayWins | src/work-calendar/index.tsx:68-69 | an unselected work day, even on a weekend or also listed as a holiday, shows the work-day colour |
| WorkCalendarView.HolidayOverRest | src/work-calendar/index.tsx:70-71 | an unselected holiday that is not a work day shows the holiday colour, even when also a rest day or a weekend |
| WorkCalendarView.UnlistedDays | src/work-calendar/index.tsx:65-74 | an unselected, unlisted day shows the rest colour on Saturday and Sunday and the work-day colour otherwise |
| WorkCalendarView.RestColorForRestDays | src/work-calendar/index.tsx:72-74 | for any colours, an unselected weekend or rest-listed day that is not listed as a work day or holiday shows the rest-day colour |
| WorkCalendarView.RestColorExactly | src/work-calendar/index.tsx:65-74 | with distinct colours, the rest colour appears iff the day is unselected, not a work day or holiday, and a weekend or rest day |
| WorkCalendarView.DefaultRestColor | src/work-calendar/index.tsx:14-16 | with the default colours `#ffffff`, `#DFE2FB` and `#eeeeee`, the rest-day colour appears exactly on unselected weekend or rest-listed days not listed as work days or holidays |
| WorkCalendarView.CellLabel | src/work-calendar/index.tsx:87 | the label is one of festival, solar term, lunar month + '月', or lunar day |
| WorkCalendarView.LabelFallback | src/work-calendar/index.tsx:87 | a non-empty festival wins; otherwise a non-empty solar term; otherwise lunar month + '月' on the first lunar day, and the lunar day on any other; the label is empty iff festival, solar term and lunar day all are |
| WorkCalendarView.CellRender | src/work-calendar/index.tsx:45-91 | a cell shows its day; it is keyed, coloured and labelled iff it is in the current month, with its date's key, the priority-chain colour and the fallback label; other cells show their lunar day |
| WorkCalendarView.OwnDatesDistinct | src/work-calendar/index.tsx:81 | two current-month cells of one year view never share a key: the key fixes the month and the grid position |
| WorkCalendarView.WorkCalendar.constructor | src/work-calendar/index.tsx:31-32 | the view starts at the given year and week start |
| WorkCalendarView.WorkCalendar.PrevYear | src/work-calendar/index.tsx:111 | the year goes down by exactly one; the week start is kept |
| WorkCalendarView.WorkCalendar.NextYear | src/work-calendar/index.tsx:115 | the year goes up by exactly one; the week start is kept |
| WorkCalendarView.WorkCalendar.SetWeekStartDay | src/work-calendar/index.tsx:124 | the week start becomes the chosen 0 or 1; the year is kept |
| WorkCalendarView.WorkCalendar.Weeks | src/work-calendar/index.tsx:40-42 | the grids shown are the specified year grid for the current year and week start |
| DayTypes.DaysOfType | src/App.tsx:17-27 | a derived list holds only keys of the store whose type is the list's type |
| DayTypes.DaysOfTypeMembers | src/App.tsx:17-27 | a key is in the list of type `t` iff it is stored with type `t` |
| DayTypes.TypesDisjoint | src/App.tsx:17-27 | no key is in two of the lists |
| DayTypes.UntypedUnlisted | src/App.tsx:17-27 | a key stored without a type is in none of the three lists |
| DayTypes.DaysOfTypeExactly | src/App.tsx:17-27 | when the listed keys cover the store, a list holds exactly the keys stored with its type |
| DayTypes.OkListsSelection | src/App.tsx:69-79 | after OK, a selected key is in the list of type `t` iff `t` was chosen, and in no list if nothing was chosen |
| DayTypes.AssignAll | src/App.tsx:71-76 | every selected key holds the chosen value; every other key is untouched; existing keys keep their order and new ones follow |
| DayTypes.DataDates | src/App.tsx:49-52 | the selected dates are the selected elements' `data-date` values, in order |
| DayTypes.App.constructor | src/App.tsx:10-13 | no selection, dialog closed, no type, empty store |
| DayTypes.App.WorkDays | src/App.tsx:17-19 | the work-day list holds exactly the keys stored with type 1 |
| DayTypes.App.RestDays | src/App.tsx:21-23 | the rest-day list holds exactly the keys stored with type 2 |
| DayTypes.App.HolidayDays | src/App.tsx:25-27 | the holiday list holds exactly the keys stored with type 3 |
| DayTypes.App.OnSelectChange | src/App.tsx:49-52 | the selection becomes the elements' keys in order; nothing else changes |
| DayTypes.App.OnSelectEnd | src/App.tsx:54-59 | the dialog opens iff the selection is non-empty (or it was already open); nothing else changes |
| DayTypes.App.SetDateType | src/App.tsx:88 | the chosen type is recorded; nothing else changes |
| DayTypes.App.OnCancel | src/App.tsx:64-68 | the dialog is closed and the selection and choice are cleared; the store is unchanged |
| DayTypes.App.OnOk | src/App.tsx:69-79 | the chosen type is stored under every selected key and other keys are untouched; then the dialog is closed and the selection and choice are cleared |

## Left out

- The lunar-calendar library is a parameter `lunar` from a day number to its labels and festival list. Its conversion is not modelled.
- Local time, time zones and the time of day are not modelled: every `Date` here is a local midnight, identified with its day number.
  - Adding days with `setDate` is day-number addition.
  - The `Date` value range limit and invalid dates are not modelled.
- In the source, `isCurMonth` is `undefined` rather than `false` for leading, trailing and padding cells. Likewise `festivalName` is `undefined` rather than `""` when nothing matches. Both are falsy wherever they are read, so the model uses `false` and `""`.
- The festival table is keyed by the pair (month + 1, day) instead of the string `"m-d"`. The two keyings pick out the same entries.
- `getMonthWeeks` is modelled as three loop methods plus the row split and the padding loop. It keeps the same steps in the same order, and only the function boundaries differ.
- `formatDate` and `getDateInfo` receive a day number rather than a `Date` object. `getTime`-based React keys are not modelled.
- DOM access is not modelled: `querySelector`, `querySelectorAll`, `getBoundingClientRect`, attaching and removing listeners, `createPortal` and clearing the text selection.
  - Each event method is given the candidate elements, in document order, with their bounding boxes and `data-date`.
  - The overlay is `Overlay()`, the rectangle while pressed. Its style is not modelled.
- React scheduling is not modelled. Each `setPosition` is followed by one selection pass, which runs inside the event method.
  - On release, the end of the selection is reported before the pass, as in the source.
  - The mount-time pass runs in the constructor.
  - `selectDatesRef` is taken to be equal to `selectDates`, that is, its update effect has run before the next event.
- The component calls `onSelectEnd` on every release after a press, whether or not anything is selected. The page opens the dialog only for a non-empty selection, so the emptiness check is in `DayTypes.App.OnSelectEnd`.
- Pixel coordinates are exact reals, not floating point.
- Presentation is not modelled: markup, CSS classes, the legend, the month captions, and the antd `Radio` and `Modal` widgets. `CellRender` keeps only the day, colour, `data-date` and label of a cell.
- The page's starting year comes from the clock. The view's constructor takes it as a parameter.
- DayTypes.App.SetDateType: accepts any integer, while the dialog offers only 1, 2 and 3. Values other than 1..3 appear in no list.
