/** The month grid: the Calendar object, NextMonth, and DrawCalendar as the
    trace of draw commands it sends to the context: the week-label header,
    then one cell per day of the month, placed by weekday column and week
    row, with the selected day filled and anniversaries underlined. */
module Grid {
  import opened Wrappers
  import opened Civil
  import opened GoTime
  import opened GoStrings
  import opened Classify
  import opened Canvas

  const DefaultWeekLabels: seq<string> := ["Sun", "Mon", "Tue", "Wed", "Thu", "Fri", "Sat"]
  const JapaneseWeekLabels: seq<string> := ["日", "月", "火", "水", "木", "金", "土"]

  /** Go's zero time.Time: 0001-01-01 00:00:00 UTC. */
  const ZeroTime := MakeTime(1, 1, 1, 0, 0, 0, 0)

  class Calendar {
    var weekLabels: seq<string>
    var date: Time
    var isDayOff: Time -> bool
    var selectedDate: Time

    /** NewCalendar, with Today() read from the clock value `now`. */
    constructor (now: Time)
      ensures weekLabels == DefaultWeekLabels && date == ToDate(now)
      ensures isDayOff == DefaultIsDayOff && selectedDate == ZeroTime
    {
      weekLabels := DefaultWeekLabels;
      date := ToDate(now);
      isDayOff := DefaultIsDayOff;
      selectedDate := ZeroTime;
    }

    /** Moves the date to day 1 of the following month. */
    method NextMonth()
      modifies this
      ensures date == AddDate(old(date), 0, 1, 1 - Day(old(date)))
      ensures weekLabels == old(weekLabels) && isDayOff == old(isDayOff)
      ensures selectedDate == old(selectedDate)
    {
      date := AddDate(date, 0, 1, -Day(date) + 1);
    }
  }

  /** The year and month after (y, m). */
  function MonthAfter(y: int, m: int): (p: (int, int))
    requires 1 <= m <= 12
    ensures 1 <= p.1 <= 12 && p.0 * 12 + p.1 == y * 12 + m + 1
  {
    if m == 12 then (y + 1, 1) else (y, m + 1)
  }

  /** The date NextMonth moves to is day 1 of the next month, at the same
      clock time and in the same zone, and it lies DaysIn days after day 1
      of the current month. */
  lemma NextMonthFirstDay(t: Time)
    ensures var r := AddDate(t, 0, 1, 1 - Day(t));
            var (y', m') := MonthAfter(Year(t), Month(t));
            && Year(r) == y' && Month(r) == m' && Day(r) == 1
            && SecondsOfDay(r) == SecondsOfDay(t) && r.offset == t.offset
            && DayNumber(r) == DayNumber(t) - Day(t) + 1 + DaysIn(Month(t), Year(t))
  {
    var (y, m) := (Year(t), Month(t));
    var (y', m') := MonthAfter(y, m);
    ClockFields(t);
    assert NormMonth(y, m + 1) == (y', m');
    MakeTimeFields(y', m', 1, Hour(t), Minute(t), Second(t), t.offset);
    assert NormMonth(y', m') == (y', m');
    NextMonthFirst(y, m);
    assert DayNumber(t) == Ordinal(y, m, Day(t));
  }

  /** Day 1 of the month of t at local midnight: DrawCalendar's start. */
  function MonthStart(t: Time): Time {
    ToDate(AddDate(t, 0, 0, -Day(t) + 1))
  }

  lemma MonthStartFields(t: Time)
    ensures var s := MonthStart(t);
            CivilOf(s) == Date(Year(t), Month(t), 1) && SecondsOfDay(s) == 0 && s.offset == t.offset
            && DayNumber(s) == DayNumber(t) - Day(t) + 1
  {
    AddDays(t, -Day(t) + 1);
    var u := AddDate(t, 0, 0, -Day(t) + 1);
    assert DayNumber(u) == Ordinal(Year(t), Month(t), 1);
    OrdinalRoundTrip(Date(Year(t), Month(t), 1));
  }

  /** Everything a month grid is drawn from: the left edge, the top of the
      first week row, the cell size, the first day, the number of days, the
      selected cell and the two day predicates. */
  datatype Layout = Layout(x: int, top: int, colsize: int, rowsize: int, start: Time, days: int,
                           selected: int, isDayOff: Time -> bool, afunc: Option<Time -> bool>)

  /** The layout DrawCalendar computes for a calendar, the selected cell
      by the truncating day count as written. */
  function MonthLayout(labels: seq<string>, date: Time, sel: Time, isDayOff: Time -> bool,
                       afunc: Option<Time -> bool>, x: int, y: int, w: int, h: int, showLabels: bool): (g: Layout)
    requires |labels| > 0
    ensures g.start == MonthStart(date) && g.days == DaysIn(Month(date), Year(date))
    ensures g.selected == ElapsedDays(sel, MonthStart(date))
    ensures g.x == x && g.top == (if showLabels then y + g.rowsize + 2 else y)
  {
    var start := MonthStart(date);
    var last := AddDate(start, 0, 1, 0);
    var colsize := Quot(w, |labels|);
    var rowsize := Quot(h - 2, 7);
    LayoutDays(date);
    Layout(x, if showLabels then y + rowsize + 2 else y, colsize, rowsize, start, ElapsedDays(last, start),
           ElapsedDays(sel, start), isDayOff, afunc)
  }

  /** The same layout with the selected cell counted by the floored day
      difference, which selects the cell of sel's own date (see
      GridProps.SelectedCell): the corrected selection. */
  function FlooredLayout(labels: seq<string>, date: Time, sel: Time, isDayOff: Time -> bool,
                         afunc: Option<Time -> bool>, x: int, y: int, w: int, h: int, showLabels: bool): (g: Layout)
    requires |labels| > 0
    ensures g.start == MonthStart(date) && g.days == DaysIn(Month(date), Year(date))
    ensures g.selected == SelectedIndex(sel, MonthStart(date))
  {
    var g := MonthLayout(labels, date, sel, isDayOff, afunc, x, y, w, h, showLabels);
    g.(selected := SelectedIndex(sel, g.start))
  }

  /** The day of cell d: d whole days after the first (which is what
      AddDate(0, 0, d) gives in a fixed zone; see AddDaysShift). */
  function CellDay(g: Layout, d: int): Time {
    Time(g.start.unix + d * SecondsPerDay, g.start.offset)
  }

  /** The week row of cell d: the Saturdays before it. */
  function RowOf(g: Layout, d: nat): nat {
    (Weekday(g.start) + d) / 7
  }

  function CellTop(g: Layout, d: nat): int {
    g.top + RowOf(g, d) * g.rowsize
  }

  /** The column of a cell is the raw weekday of its day, whatever the
      number of week labels. */
  function CellLeft(g: Layout, d: int): int {
    g.x + Weekday(CellDay(g, d)) * g.colsize
  }

  /** The colour a cell is drawn in before any highlight. */
  function Ink(g: Layout, d: int): Color {
    if g.isDayOff(CellDay(g, d)) then HolidayColor else TextColor
  }

  predicate Marked(g: Layout, d: int) {
    g.afunc.Some? && g.afunc.value(CellDay(g, d))
  }

  /** fmt.Sprintf(" %2d", n). */
  function DayText(n: int): string {
    " " + FormatInt(n, 2, false)
  }

  /** What one day cell is drawn from: its left edge and row top, its day
      of the month, whether it is the selected cell, the ink it starts in
      (red for a day off) and whether it is an anniversary. */
  datatype Cell = Cell(left: int, top: int, dayNum: int, sel: bool, ink: Color, marked: bool)

  /** Cell d of a grid. */
  function CellOf(g: Layout, d: nat): Cell {
    Cell(CellLeft(g, d), CellTop(g, d), Day(CellDay(g, d)), d == g.selected, Ink(g, d), Marked(g, d))
  }

  /** Cells 0 .. n-1 of a grid. */
  function Cells(g: Layout, n: nat): (cs: seq<Cell>)
    ensures |cs| == n
  {
    seq(n, d requires 0 <= d < n => CellOf(g, d))
  }

  /** The commands one cell sends: the highlight filled in the ink when it
      is selected, the day number, and the underline when it is marked. */
  function CellCommands(colsize: int, rowsize: int, c: Cell): seq<Command> {
    Highlight(colsize, rowsize, c) + [DayNumberText(rowsize, c)] + Underline(colsize, rowsize, c)
  }

  function Highlight(colsize: int, rowsize: int, c: Cell): seq<Command> {
    if c.sel then [Rect(c.left + 3, c.top + 1, colsize - 4, rowsize - 2, c.ink)] else []
  }

  /** The day number, in the background colour on the highlight. */
  function DayNumberText(rowsize: int, c: Cell): Command {
    Text(DayText(c.dayNum), c.left, c.top + rowsize - 5, if c.sel then BackgroundColor else c.ink)
  }

  function Underline(colsize: int, rowsize: int, c: Cell): seq<Command> {
    if c.marked then [Line(c.left + 8, c.top + rowsize - 4, c.left + colsize - 4, c.top + rowsize - 4, TextColor)] else []
  }

  /** The colour current after drawing a cell. */
  function CellColor(c: Cell): Color {
    if c.marked then TextColor else if c.sel then BackgroundColor else c.ink
  }

  /** The commands of a run of cells, in order. */
  function Commands(colsize: int, rowsize: int, cs: seq<Cell>): seq<Command> {
    if cs == [] then []
    else Commands(colsize, rowsize, cs[..|cs| - 1]) + CellCommands(colsize, rowsize, cs[|cs| - 1])
  }

  /** The colour current after a run of cells, starting from c0. */
  function ColorAfter(cs: seq<Cell>, c0: Color): Color {
    if cs == [] then c0 else CellColor(cs[|cs| - 1])
  }

  /** The commands of cells 0 .. n-1 of a grid. */
  function DayCommands(g: Layout, n: nat): seq<Command> {
    Commands(g.colsize, g.rowsize, Cells(g, n))
  }

  /** The header: each week label in its column, the first one red. */
  function HeaderCommands(labels: seq<string>, x: int, y: int, colsize: int, rowsize: int): (r: seq<Command>)
    ensures |r| == |labels|
  {
    seq(|labels|, i requires 0 <= i < |labels| =>
      Text(labels[i], x + i * colsize, y + rowsize - 4, if i == 0 then HolidayColor else TextColor))
  }

  /** Everything DrawCalendar draws for a calendar: the header when asked
      for, then every day of the month. */
  function CalendarCommands(labels: seq<string>, date: Time, sel: Time, isDayOff: Time -> bool,
                            afunc: Option<Time -> bool>, x: int, y: int, w: int, h: int,
                            showLabels: bool): seq<Command>
    requires |labels| > 0
  {
    var g := MonthLayout(labels, date, sel, isDayOff, afunc, x, y, w, h, showLabels);
    LayoutDays(date);
    (if showLabels then HeaderCommands(labels, x, y, g.colsize, g.rowsize) else []) + DayCommands(g, g.days)
  }

  /** DrawCalendar, without its rasterising: the commands it appends and
      the colour it leaves current. */
  method DrawCalendar(img: Context, c: Calendar, x: int, y: int, w: int, h: int,
                      afunc: Option<Time -> bool>, showLabels: bool)
    requires |c.weekLabels| > 0
    modifies img
    ensures var g := MonthLayout(old(c.weekLabels), old(c.date), old(c.selectedDate), old(c.isDayOff),
                                 afunc, x, y, w, h, showLabels);
            && g.days == DaysIn(Month(old(c.date)), Year(old(c.date)))
            && img.color == CellColor(CellOf(g, g.days - 1))
    ensures img.commands == old(img.commands)
                            + CalendarCommands(old(c.weekLabels), old(c.date), old(c.selectedDate), old(c.isDayOff),
                                               afunc, x, y, w, h, showLabels)
  {
    var labels := c.weekLabels;
    var g := CalendarLayout(labels, c.date, c.selectedDate, c.isDayOff, afunc, x, y, w, h, showLabels);
    ghost var header := if showLabels then HeaderCommands(labels, x, y, g.colsize, g.rowsize) else [];
    if showLabels {
      DrawHeader(img, labels, x, y, g.colsize, g.rowsize);
    }
    assert img.commands == old(img.commands) + header;
    assert g.days > 0;
    DrawDays(img, g);
    LastCellColor(g, g.days, old(img.color));
    AppendAssoc(old(img.commands), header, DayCommands(g, g.days));
  }

  /** After a non-empty run of cells the colour is the last cell's. */
  lemma LastCellColor(g: Layout, n: nat, c0: Color)
    requires n > 0
    ensures ColorAfter(Cells(g, n), c0) == CellColor(CellOf(g, n - 1))
  {
    assert Cells(g, n)[n - 1] == CellOf(g, n - 1);
  }

  /** The sizes and positions DrawCalendar works out before it draws: the
      cell size from the box, the first day and the number of days of the
      month, the selected cell, and the top of the first week row below the
      header when there is one. */
  method CalendarLayout(labels: seq<string>, date: Time, sel: Time, isDayOff: Time -> bool,
                        afunc: Option<Time -> bool>, x: int, y: int, w: int, h: int, showLabels: bool)
    returns (g: Layout)
    requires |labels| > 0
    ensures g == MonthLayout(labels, date, sel, isDayOff, afunc, x, y, w, h, showLabels)
    ensures g.days == DaysIn(Month(date), Year(date))
  {
    var wc := |labels|;
    var start := MonthStart(date);
    var last := AddDate(start, 0, 1, 0);
    var numdays := ElapsedDays(last, start);
    var selected := ElapsedDays(sel, start);
    LayoutDays(date);

    var space := 2;
    var colsize := Quot(w, wc);
    var rowsize := Quot(h - space, 7);
    var top := y;
    if showLabels {
      top := top + rowsize + space;
    }
    g := Layout(x, top, colsize, rowsize, start, numdays, selected, isDayOff, afunc);
  }

  /** The week-label row of DrawCalendar. */
  method DrawHeader(img: Context, labels: seq<string>, x: int, y: int, colsize: int, rowsize: int)
    modifies img
    ensures img.commands == old(img.commands) + HeaderCommands(labels, x, y, colsize, rowsize)
    ensures img.color == if labels == [] then old(img.color) else if |labels| == 1 then HolidayColor else TextColor
  {
    ghost var header := HeaderCommands(labels, x, y, colsize, rowsize);
    for i := 0 to |labels|
      invariant img.commands == old(img.commands) + header[..i]
      invariant img.color == if i == 0 then old(img.color) else if i == 1 then HolidayColor else TextColor
    {
      if i == 0 {
        img.SetColor(HolidayColor);
      } else {
        img.SetColor(TextColor);
      }
      img.DrawString(labels[i], x + i * colsize, y + rowsize - 4);
      assert header[..i + 1] == header[..i] + [header[i]];
    }
    assert header[..|labels|] == header;
  }

  /** The day loop of DrawCalendar over the cells of a grid. */
  method DrawDays(img: Context, g: Layout)
    requires g.days >= 0
    modifies img
    ensures img.commands == old(img.commands) + DayCommands(g, g.days)
    ensures img.color == ColorAfter(Cells(g, g.days), old(img.color))
  {
    var top := g.top;
    ghost var c0 := img.color;
    for d := 0 to g.days
      invariant top == CellTop(g, d)
      invariant img.commands == old(img.commands) + DayCommands(g, d)
      invariant img.color == ColorAfter(Cells(g, d), c0)
    {
      top := DrawDay(img, g, d, top, old(img.commands), c0);
    }
  }

  /** One pass of the day loop: cell d drawn with its row top at y, and the
      row top for the next cell. */
  method DrawDay(img: Context, g: Layout, d: nat, y: int, ghost prefix: seq<Command>, ghost c0: Color) returns (y': int)
    requires y == CellTop(g, d)
    requires img.commands == prefix + DayCommands(g, d)
    modifies img
    ensures img.commands == prefix + DayCommands(g, d + 1)
    ensures img.color == ColorAfter(Cells(g, d + 1), c0)
    ensures y' == CellTop(g, d + 1)
  {
    var day := AddDate(g.start, 0, 0, d);
    AddDaysShift(g.start, d);
    var wd := Weekday(day);
    // The two day predicates are pure, so asking them before drawing
    // gives the answers the source gets while drawing.
    var ink := if g.isDayOff(day) then HolidayColor else TextColor;
    var marked := g.afunc.Some? && g.afunc.value(day);
    var cx := g.x + wd * g.colsize;
    ghost var cell := Cell(cx, y, Day(day), d == g.selected, ink, marked);
    CellAt(g, d, day, wd, cx, ink, marked);
    assert cell == CellOf(g, d);
    AppendCell(prefix, g, d, c0);
    TopStep(g, d);
    DrawCell(img, cx, y, g.colsize, g.rowsize, Day(day), d == g.selected, ink, marked);
    assert img.commands == prefix + DayCommands(g, d) + CellCommands(g.colsize, g.rowsize, cell);
    y' := y;
    if wd == 6 {
      y' := y + g.rowsize;
    }
  }

  /** What the day loop computes for cell d is that cell. */
  lemma CellAt(g: Layout, d: nat, day: Time, wd: int, cx: int, ink: Color, marked: bool)
    requires day == CellDay(g, d) && wd == Weekday(day) && cx == g.x + wd * g.colsize
    requires ink == (if g.isDayOff(day) then HolidayColor else TextColor)
    requires marked == (g.afunc.Some? && g.afunc.value(day))
    ensures Cell(cx, CellTop(g, d), Day(day), d == g.selected, ink, marked) == CellOf(g, d)
  {
    assert cx == CellLeft(g, d);
  }

  lemma AppendCell(prefix: seq<Command>, g: Layout, d: nat, c0: Color)
    ensures prefix + DayCommands(g, d) + CellCommands(g.colsize, g.rowsize, CellOf(g, d)) == prefix + DayCommands(g, d + 1)
    ensures ColorAfter(Cells(g, d + 1), c0) == CellColor(CellOf(g, d))
  {
    var cs := Cells(g, d + 1);
    assert cs[..d] == Cells(g, d);
  }

  lemma MulStep(r: int, k: int)
    ensures (r + 1) * k == r * k + k
  {
  }

  /** The row top after cell d. */
  lemma TopStep(g: Layout, d: nat)
    ensures CellTop(g, d + 1) == CellTop(g, d) + (if Weekday(CellDay(g, d)) == Saturday then g.rowsize else 0)
  {
    RowStep(g, d);
    var r := RowOf(g, d);
    if Weekday(CellDay(g, d)) == Saturday {
      MulStep(r, g.rowsize);
      assert RowOf(g, d + 1) == r + 1;
    } else {
      assert RowOf(g, d + 1) == r;
    }
  }

  /** One pass of DrawCalendar's day loop, drawing a cell at (cx, y). */
  method DrawCell(img: Context, cx: int, y: int, colsize: int, rowsize: int, dayNum: int,
                  sel: bool, ink: Color, marked: bool)
    modifies img
    ensures img.commands == old(img.commands) + CellCommands(colsize, rowsize, Cell(cx, y, dayNum, sel, ink, marked))
    ensures img.color == CellColor(Cell(cx, y, dayNum, sel, ink, marked))
  {
    ghost var c := Cell(cx, y, dayNum, sel, ink, marked);
    ghost var hl := Highlight(colsize, rowsize, c);
    ghost var ul := Underline(colsize, rowsize, c);
    img.SetColor(ink);
    if sel {
      img.FillRectangle(cx + 3, y + 1, colsize - 4, rowsize - 2);
      img.SetColor(BackgroundColor);
    }
    assert img.commands == old(img.commands) + hl;
    assert img.color == DayNumberText(rowsize, c).color;
    img.DrawString(DayText(dayNum), cx, y + rowsize - 5);
    assert img.commands == old(img.commands) + (hl + [DayNumberText(rowsize, c)]);
    ghost var mid := img.commands;
    if marked {
      img.SetColor(TextColor);
      img.StrokeLine(cx + 8, y + rowsize - 4, cx + colsize - 4, y + rowsize - 4);
    }
    assert img.commands == mid + ul;
    assert mid + ul == old(img.commands) + (hl + [DayNumberText(rowsize, c)] + ul);
  }

  /** The weekday of cell d follows the weekday of the first day. */
  lemma CellWeekday(g: Layout, d: nat)
    ensures Weekday(CellDay(g, d)) == (Weekday(g.start) + d) % 7
  {
    ShiftDays(g.start, d);
    var n := DayNumber(g.start);
    var q := (n + 4) / 7;
    assert n + 4 == 7 * q + Weekday(g.start);
    assert n + d + 4 == 7 * q + (Weekday(g.start) + d);
  }

  lemma RowArith(g: Layout, d: nat)
    ensures RowOf(g, d + 1) == RowOf(g, d) + (if (Weekday(g.start) + d) % 7 == 6 then 1 else 0)
  {
    var k := Weekday(g.start) + d;
    assert k == 7 * (k / 7) + k % 7;
  }

  /** y moves down one row exactly after a Saturday cell. */
  lemma RowStep(g: Layout, d: nat)
    ensures RowOf(g, d + 1) == RowOf(g, d) + (if Weekday(CellDay(g, d)) == Saturday then 1 else 0)
  {
    CellWeekday(g, d);
    RowArith(g, d);
  }

  /** The grid has one cell per day of the month: the whole days from day 1
      to day 1 of the next month. */
  lemma LayoutDays(date: Time)
    ensures var start := MonthStart(date);
            ElapsedDays(AddDate(start, 0, 1, 0), start) == DaysIn(Month(date), Year(date))
  {
    var start := MonthStart(date);
    MonthStartFields(date);
    var last := AddDate(start, 0, 1, 0);
    NextMonthFirstDay(start);
    assert Day(start) == 1;
    assert SecondsOfDay(last) == 0;
    var n := DaysIn(Month(date), Year(date));
    assert last.unix - start.unix == n * SecondsPerDay;
    ElapsedDaysExact(last, start);
  }
}
