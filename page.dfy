/** The picture writeImage draws: a white background, this month's grid
    with its title and week labels, next month's grid with its title, a
    caption with the month, day and weekday glyph of the date, and the
    optional count of days since a configured date. */
module Page {
  import opened Wrappers
  import opened Civil
  import opened GoTime
  import opened GoStrings
  import opened Entries
  import opened Classify
  import opened Canvas
  import opened Grid
  import opened GridProps
  import opened Config

  /** The "%4d-%02d" title above a month grid. */
  function Title(t: Time): string {
    FormatInt(Year(t), 4, false) + "-" + FormatInt(Month(t), 2, true)
  }

  /** The date NextMonth moves a calendar to. */
  function NextMonthDate(t: Time): Time {
    AddDate(t, 0, 1, 1 - Day(t))
  }

  /** The grid of the calendar's own month, under the labels, and the grid
      of the month after it. */
  function FirstGrid(labels: seq<string>, date: Time, sel: Time, isDayOff: Time -> bool,
                     afunc: Option<Time -> bool>): (g: Layout)
    requires |labels| > 0
    ensures g.days == DaysIn(Month(date), Year(date))
  {
    LayoutDays(date);
    MonthLayout(labels, date, sel, isDayOff, afunc, 500, 40, 280, 200, true)
  }

  function SecondGrid(labels: seq<string>, date: Time, sel: Time, isDayOff: Time -> bool,
                      afunc: Option<Time -> bool>): (g: Layout)
    requires |labels| > 0
    ensures g.days == DaysIn(Month(NextMonthDate(date)), Year(NextMonthDate(date)))
  {
    LayoutDays(NextMonthDate(date));
    MonthLayout(labels, NextMonthDate(date), sel, isDayOff, afunc, 500, 270, 280, 200, false)
  }

  /** Everything the two months put on the picture, in order: each title,
      then its grid, the week labels only above the first. */
  function MonthsCommands(labels: seq<string>, date: Time, sel: Time, isDayOff: Time -> bool,
                          afunc: Option<Time -> bool>): seq<Command>
    requires |labels| > 0
  {
    [Text(Title(date), 600, 40, TextColor)]
    + CalendarCommands(labels, date, sel, isDayOff, afunc, 500, 40, 280, 200, true)
    + [Text(Title(NextMonthDate(date)), 600, 270, TextColor)]
    + CalendarCommands(labels, NextMonthDate(date), sel, isDayOff, afunc, 500, 270, 280, 200, false)
  }

  /** The two titled month grids, the second after NextMonth. */
  method DrawMonths(img: Context, cal: Calendar, afunc: Option<Time -> bool>)
    requires |cal.weekLabels| > 0
    modifies img, cal
    ensures cal.date == NextMonthDate(old(cal.date))
    ensures cal.weekLabels == old(cal.weekLabels) && cal.isDayOff == old(cal.isDayOff)
    ensures cal.selectedDate == old(cal.selectedDate)
    ensures img.commands == old(img.commands)
                            + MonthsCommands(old(cal.weekLabels), old(cal.date), old(cal.selectedDate),
                                             old(cal.isDayOff), afunc)
  {
    ghost var labels, date, sel, isDayOff := cal.weekLabels, cal.date, cal.selectedDate, cal.isDayOff;
    ghost var t1 := [Text(Title(date), 600, 40, TextColor)];
    ghost var c1 := CalendarCommands(labels, date, sel, isDayOff, afunc, 500, 40, 280, 200, true);
    ghost var t2 := [Text(Title(NextMonthDate(date)), 600, 270, TextColor)];
    ghost var c2 := CalendarCommands(labels, NextMonthDate(date), sel, isDayOff, afunc, 500, 270, 280, 200, false);
    img.SetColor(TextColor);
    img.DrawString(Title(cal.date), 600, 40);
    DrawCalendar(img, cal, 500, 40, 280, 200, afunc, true);
    assert img.commands == old(img.commands) + t1 + c1;
    cal.NextMonth();
    img.SetColor(TextColor);
    img.DrawString(Title(cal.date), 600, 270);
    DrawCalendar(img, cal, 500, 270, 280, 200, afunc, false);
    assert img.commands == old(img.commands) + t1 + c1 + t2 + c2;
    AppendAssoc(old(img.commands), t1, c1);
    AppendAssoc(old(img.commands), t1 + c1, t2);
    AppendAssoc(old(img.commands), t1 + c1 + t2, c2);
  }

  /** The second grid starts on the day after the last day of the first:
      between them the two grids show every day of two months once. */
  lemma ConsecutiveGrids(labels: seq<string>, date: Time, sel: Time, isDayOff: Time -> bool,
                         afunc: Option<Time -> bool>)
    requires |labels| > 0
    ensures var g1 := FirstGrid(labels, date, sel, isDayOff, afunc);
            var g2 := SecondGrid(labels, date, sel, isDayOff, afunc);
            && g2.start.offset == g1.start.offset
            && DayNumber(g2.start) == DayNumber(g1.start) + g1.days
  {
    var next := NextMonthDate(date);
    NextMonthFirstDay(date);
    MonthStartFields(date);
    MonthStartFields(next);
    LayoutDays(MonthStart(date));
  }

  /** In the first grid the date selects its own cell, day Day(date) of
      the month: there the truncating count as written is exact. */
  lemma FirstGridSelectsDate(labels: seq<string>, date: Time, isDayOff: Time -> bool,
                             afunc: Option<Time -> bool>)
    requires |labels| > 0
    ensures FirstGrid(labels, date, date, isDayOff, afunc).selected == Day(date) - 1
  {
    var g1 := FirstGrid(labels, date, date, isDayOff, afunc);
    MonthStartFields(date);
    var k := DayNumber(g1.start);
    assert g1.start.unix == k * SecondsPerDay - date.offset;
    assert date.unix == (k + Day(date) - 1) * SecondsPerDay + SecondsOfDay(date) - date.offset;
    ElapsedDaysAgrees(date, g1.start);
    SelectedIndexIsDayDifference(date, g1.start);
  }

  /** The corrected selection keeps the highlight to one grid: with the
      floored count, a selected date in the zone of the calendar fills at
      most one rectangle over the two grids. */
  lemma AtMostOneHighlight(labels: seq<string>, date: Time, sel: Time, isDayOff: Time -> bool,
                           afunc: Option<Time -> bool>)
    requires |labels| > 0 && sel.offset == date.offset
    ensures var f1 := FlooredLayout(labels, date, sel, isDayOff, afunc, 500, 40, 280, 200, true);
            var f2 := FlooredLayout(labels, NextMonthDate(date), sel, isDayOff, afunc, 500, 270, 280, 200, false);
            |Filter(DayCommands(f1, f1.days), RectKind)| + |Filter(DayCommands(f2, f2.days), RectKind)| <= 1
  {
    var f1 := FlooredLayout(labels, date, sel, isDayOff, afunc, 500, 40, 280, 200, true);
    var f2 := FlooredLayout(labels, NextMonthDate(date), sel, isDayOff, afunc, 500, 270, 280, 200, false);
    ConsecutiveGrids(labels, date, sel, isDayOff, afunc);
    MonthStartFields(date);
    MonthStartFields(NextMonthDate(date));
    SelectedIndexIsDayDifference(sel, f1.start);
    SelectedIndexIsDayDifference(sel, f2.start);
    assert !(0 <= f1.selected < f1.days && 0 <= f2.selected < f2.days);
    DayHighlights(f1, f1.days);
    DayHighlights(f2, f2.days);
  }

  /** With the truncating count as written, a clock time on the first
      month's last day selects the last cell of the first grid and the
      first cell of the second. */
  lemma AsWrittenHighlightsTwice(labels: seq<string>, date: Time, sel: Time, isDayOff: Time -> bool,
                                 afunc: Option<Time -> bool>)
    requires |labels| > 0 && sel.offset == date.offset
    requires var g2 := SecondGrid(labels, date, sel, isDayOff, afunc);
             DayNumber(sel) == DayNumber(g2.start) - 1 && SecondsOfDay(sel) > 0
    ensures var g1 := FirstGrid(labels, date, sel, isDayOff, afunc);
            var g2 := SecondGrid(labels, date, sel, isDayOff, afunc);
            && g1.selected == g1.days - 1
            && g2.selected == 0
  {
    var g1 := FirstGrid(labels, date, sel, isDayOff, afunc);
    var g2 := SecondGrid(labels, date, sel, isDayOff, afunc);
    ConsecutiveGrids(labels, date, sel, isDayOff, afunc);
    MonthStartFields(date);
    MonthStartFields(NextMonthDate(date));
    LastDayCounts(sel, g1.start, g2.start, g1.days);
  }

  /** The picture as written: when the page's date is the last day of its
      month at any clock time after midnight, the two grids fill two
      rectangles, on that day and on day 1 of the next month. */
  lemma AsWrittenTwoRectangles(labels: seq<string>, date: Time, isDayOff: Time -> bool,
                               afunc: Option<Time -> bool>)
    requires |labels| > 0
    requires Day(date) == DaysIn(Month(date), Year(date)) && SecondsOfDay(date) > 0
    ensures |Filter(MonthsCommands(labels, date, date, isDayOff, afunc), RectKind)| == 2
  {
    NextMonthStartsTomorrow(date);
    AsWrittenHighlightsTwice(labels, date, date, isDayOff, afunc);
    OneRectangle(labels, date, date, isDayOff, afunc, 500, 40, 280, 200, true);
    OneRectangle(labels, NextMonthDate(date), date, isDayOff, afunc, 500, 270, 280, 200, false);
    FourPartFilter([Text(Title(date), 600, 40, TextColor)],
                   CalendarCommands(labels, date, date, isDayOff, afunc, 500, 40, 280, 200, true),
                   [Text(Title(NextMonthDate(date)), 600, 270, TextColor)],
                   CalendarCommands(labels, NextMonthDate(date), date, isDayOff, afunc, 500, 270, 280, 200, false));
  }

  /** On the last day of a month, day 1 of the next month is the next day. */
  lemma NextMonthStartsTomorrow(date: Time)
    requires Day(date) == DaysIn(Month(date), Year(date))
    ensures DayNumber(MonthStart(NextMonthDate(date))) == DayNumber(date) + 1
  {
    NextMonthFirstDay(date);
    MonthStartFields(NextMonthDate(date));
  }

  /** The request of 2025-01-31 at 10:00, in any zone: the program
      highlights both January 31 and February 1. */
  lemma AsWrittenJanuary31(offset: int)
    ensures var date := MakeTime(2025, 1, 31, 10, 0, 0, offset);
            |Filter(MonthsCommands(DefaultWeekLabels, date, date, DefaultIsDayOff, None), RectKind)| == 2
  {
    var date := MakeTime(2025, 1, 31, 10, 0, 0, offset);
    MakeTimeFields(2025, 1, 31, 10, 0, 0, offset);
    AsWrittenTwoRectangles(DefaultWeekLabels, date, DefaultIsDayOff, None);
  }

  /** The rectangles of titles and grids, in the order MonthsCommands puts
      them. */
  lemma FourPartFilter(t1: seq<Command>, c1: seq<Command>, t2: seq<Command>, c2: seq<Command>)
    requires Filter(t1, RectKind) == [] && Filter(t2, RectKind) == []
    ensures |Filter(t1 + c1 + t2 + c2, RectKind)| == |Filter(c1, RectKind)| + |Filter(c2, RectKind)|
  {
    FilterAppend(t1 + c1 + t2, c2, RectKind);
    FilterAppend(t1 + c1, t2, RectKind);
    FilterAppend(t1, c1, RectKind);
  }

  /** The truncating count from two consecutive midnights n days apart to
      a clock time on the day before the second. */
  lemma LastDayCounts(sel: Time, s1: Time, s2: Time, n: int)
    requires s1.offset == sel.offset && s2.offset == sel.offset
    requires SecondsOfDay(s1) == 0 && SecondsOfDay(s2) == 0 && 0 < n <= 31
    requires DayNumber(s2) == DayNumber(s1) + n
    requires DayNumber(sel) == DayNumber(s2) - 1 && SecondsOfDay(sel) > 0
    ensures ElapsedDays(sel, s1) == n - 1 && ElapsedDays(sel, s2) == 0
  {
    assert s1.unix == DayNumber(s1) * SecondsPerDay - sel.offset;
    assert s2.unix == DayNumber(s2) * SecondsPerDay - sel.offset;
    assert sel.unix == (DayNumber(s2) - 1) * SecondsPerDay + SecondsOfDay(sel) - sel.offset;
    ElapsedDaysTruncatesIntoFirstCell(sel, s2);
    ElapsedDaysExact(sel, s1);
  }

  /** The weekday glyph of the caption is red on a Sunday and black on
      every other day, Saturdays and holidays included. */
  function GlyphColor(date: Time): Color {
    if Weekday(date) == Sunday then HolidayColor else TextColor
  }

  /** The caption "%2d月%2d日(", the weekday glyph and ")", each placed
      after the width `measure` gives the text before it. */
  function CaptionCommands(date: Time, measure: string -> int): seq<Command> {
    var s := FormatInt(Month(date), 2, false) + "月" + FormatInt(Day(date), 2, false) + "日(";
    var glyph := JapaneseWeekLabels[Weekday(date)];
    [Text(s, 40, 260, TextColor),
     Text(glyph, 40 + measure(s), 260, GlyphColor(date)),
     Text(")", 40 + measure(s) + measure(glyph), 260, TextColor)]
  }

  /** The caption, with the font metrics as the function `measure`. */
  method DrawCaption(img: Context, date: Time, measure: string -> int)
    modifies img
    ensures img.commands == old(img.commands) + CaptionCommands(date, measure)
    ensures img.color == TextColor
  {
    var px := 40;
    img.SetColor(TextColor);
    var s := FormatInt(Month(date), 2, false) + "月" + FormatInt(Day(date), 2, false) + "日(";
    img.DrawString(s, px, 260);
    px := px + measure(s);
    if Weekday(date) == 0 {
      img.SetColor(HolidayColor);
    } else {
      img.SetColor(TextColor);
    }
    s := JapaneseWeekLabels[Weekday(date)];
    img.DrawString(s, px, 260);
    px := px + measure(s);
    img.SetColor(TextColor);
    s := ")";
    img.DrawString(s, px, 260);
  }

  /** The glyph is the Japanese name of the weekday, and it is red exactly
      when it is the Sunday glyph 日. */
  lemma CaptionGlyph(date: Time, measure: string -> int)
    ensures var g := CaptionCommands(date, measure)[1];
            && g.s == JapaneseWeekLabels[Weekday(date)]
            && (g.color == HolidayColor <==> g.s == "日")
            && (g.color == HolidayColor ==> DefaultIsDayOff(date))
  {
    var w := Weekday(date);
    assert JapaneseWeekLabels[w] == "日" <==> w == 0;
  }

  /** DateEntry.Date in the zone of the calendar: midnight of the entry's
      (normalised) date. */
  function SinceDate(e: DateEntry, offset: int): (t: Time)
    ensures t.offset == offset && SecondsOfDay(t) == 0
  {
    DayOfLocal(Ordinal(NormMonth(e.year, e.month).0, NormMonth(e.year, e.month).1, e.day), 0);
    MakeTime(e.year, e.month, e.day, 0, 0, 0, offset)
  }

  /** int(SelectedDate.Sub(since).Hours()) / 24. */
  function DayCount(sel: Time, e: DateEntry, offset: int): int {
    ElapsedDays(sel, SinceDate(e, offset))
  }

  /** For a selected midnight in the same zone and a valid date less than
      about 290 years away, the count is the difference of the day
      numbers: negative for a date still to come. */
  lemma DayCountExact(sel: Time, e: DateEntry)
    requires ValidDate(Date(e.year, e.month, e.day)) && SecondsOfDay(sel) == 0
    requires -100000 <= DayNumber(sel) - Ordinal(e.year, e.month, e.day) <= 100000
    ensures DayCount(sel, e, sel.offset) == DayNumber(sel) - Ordinal(e.year, e.month, e.day)
  {
    var since := SinceDate(e, sel.offset);
    var k := DayNumber(sel) - Ordinal(e.year, e.month, e.day);
    SinceWholeDays(sel, e);
    WholeDays(k);
    ElapsedDaysAgrees(sel, since);
    SelectedIndexIsDayDifference(sel, since);
  }

  lemma SinceWholeDays(sel: Time, e: DateEntry)
    requires ValidDate(Date(e.year, e.month, e.day)) && SecondsOfDay(sel) == 0
    ensures var since := SinceDate(e, sel.offset);
            DayNumber(since) == Ordinal(e.year, e.month, e.day)
            && sel.unix - since.unix == (DayNumber(sel) - Ordinal(e.year, e.month, e.day)) * SecondsPerDay
  {
    var since := SinceDate(e, sel.offset);
    MakeTimeFields(e.year, e.month, e.day, 0, 0, 0, sel.offset);
    assert since.unix == Ordinal(e.year, e.month, e.day) * SecondsPerDay - sel.offset;
    assert sel.unix == DayNumber(sel) * SecondsPerDay - sel.offset;
  }

  lemma WholeDays(k: int)
    ensures (k * SecondsPerDay) % SecondsPerDay == 0
  {
  }

  /** Ten days from 2020-01-01 to 2020-01-11. */
  lemma DayCountExample(offset: int)
    ensures DayCount(MakeTime(2020, 1, 11, 0, 0, 0, offset), DateEntry(2020, 1, 1, ""), offset) == 10
  {
    var sel := MakeTime(2020, 1, 11, 0, 0, 0, offset);
    MakeTimeFields(2020, 1, 11, 0, 0, 0, offset);
    assert Ordinal(2020, 1, 11) - Ordinal(2020, 1, 1) == 10;
    DayCountExact(sel, DateEntry(2020, 1, 1, ""));
  }

  /** The day counter: "%5d日" and "since %d-%2d-%2d", in the current
      colour, or nothing without a DayCountSince. */
  function DayCountCommands(since: Option<DateEntry>, sel: Time, offset: int, color: Color): seq<Command> {
    match since
    case None => []
    case Some(e) =>
      [Text(FormatInt(DayCount(sel, e, offset), 5, false) + "日", 40, 400, color),
       Text("since " + FormatInt(e.year, 0, false) + "-" + FormatInt(e.month, 2, false) + "-"
            + FormatInt(e.day, 2, false), 160, 425, color)]
  }

  method DrawDayCount(img: Context, since: Option<DateEntry>, sel: Time, offset: int)
    modifies img
    ensures img.commands == old(img.commands) + DayCountCommands(since, sel, offset, old(img.color))
    ensures img.color == old(img.color)
  {
    if since.Some? {
      var e := since.value;
      var days := ElapsedDays(sel, SinceDate(e, offset));
      img.DrawString(FormatInt(days, 5, false) + "日", 40, 400);
      img.DrawString("since " + FormatInt(e.year, 0, false) + "-" + FormatInt(e.month, 2, false) + "-"
                     + FormatInt(e.day, 2, false), 160, 425);
    }
  }

  /** How the picture is encoded: PNG for a ".png" request, otherwise GIF
      with the three-colour palette. */
  datatype Encoding = Png | Gif(palette: seq<Color>)

  function EncodingFor(ext: string): (r: Encoding)
    ensures r.Png? <==> ext == ".png"
    ensures r.Gif? ==> r.palette == Palette
  {
    if ext == ".png" then Png else Gif(Palette)
  }

  /** The holiday map of writeImage: empty when the file cannot be read. */
  function HolidaysOf(file: Option<seq<string>>): map<DateKey, string> {
    match file
    case None => map[]
    case Some(lines) => HolidayMap(HolidayLines(lines))
  }

  /** loadHoliday when the file opens, and no holidays when it does not. */
  method LoadHolidays(file: Option<seq<string>>) returns (holidays: map<DateKey, string>)
    ensures holidays == HolidaysOf(file)
  {
    match file {
      case None =>
        holidays := map[];
      case Some(lines) =>
        holidays := LoadHoliday(lines);
    }
  }

  /** The closure writeImage installs as the calendar's IsDayOff. */
  function DayOffFunc(holidays: map<DateKey, string>): Time -> bool {
    (d: Time) => IsDayOff(holidays, d)
  }

  /** The anniversary closure writeImage hands to DrawCalendar. */
  function AnniversaryFunc(ann: map<DateKey, string>): Option<Time -> bool> {
    Some((d: Time) => IsAnniversary(ann, d))
  }

  /** The drawing half of writeImage, on a picture already filled with the
      background: a calendar for `date`, selected on `date`, drawn as two
      months, the caption and the day counter. */
  method DrawPage(img: Context, date: Time, isDayOff: Time -> bool, afunc: Option<Time -> bool>,
                  measure: string -> int, since: Option<DateEntry>, now: Time)
    modifies img
    ensures img.commands == old(img.commands)
                            + MonthsCommands(DefaultWeekLabels, date, date, isDayOff, afunc)
                            + CaptionCommands(date, measure)
                            + DayCountCommands(since, date, date.offset, TextColor)
  {
    var cal := new Calendar(now);
    cal.date := date;
    cal.selectedDate := date;
    cal.isDayOff := isDayOff;
    DrawMonths(img, cal, afunc);
    DrawCaption(img, date, measure);
    assert cal.date.offset == date.offset;
    DrawDayCount(img, since, cal.selectedDate, cal.date.offset);
  }

  /** writeImage: the configuration of the kind, the anniversary and
      holiday maps, and the whole picture. The holiday file's lines are
      given by `holidayFile` (None when it cannot be opened), the font
      metrics by `measure` and the clock, which NewCalendar reads before
      its date is replaced, by `now`. */
  method WriteImage(confMap: map<string, CalendarConfig>, confName: string, date: Time, ext: string,
                    holidayFile: string -> Option<seq<string>>, measure: string -> int, now: Time)
    returns (img: Context, enc: Encoding)
    ensures fresh(img) && enc == EncodingFor(ext)
    ensures var conf := old(Resolve(ValueOf(Lookup(confMap, DefaultName)), ValueOf(Lookup(confMap, confName)), confName));
            var isDayOff := DayOffFunc(HolidaysOf(holidayFile(conf.holiday)));
            var afunc := AnniversaryFunc(AnniversaryMap(conf.anniversary));
            && img.width == conf.width && img.height == conf.height
            && img.commands == [Rect(0, 0, conf.width, conf.height, BackgroundColor)]
                               + MonthsCommands(DefaultWeekLabels, date, date, isDayOff, afunc)
                               + CaptionCommands(date, measure)
                               + DayCountCommands(conf.dayCountSince, date, date.offset, TextColor)
  {
    ghost var rc := Resolve(ValueOf(Lookup(confMap, DefaultName)), ValueOf(Lookup(confMap, confName)), confName);
    var conf := LoadConfig(confMap, confName);
    assert conf.holiday == rc.holiday && conf.anniversary == rc.anniversary;
    assert conf.width == rc.width && conf.height == rc.height && conf.dayCountSince == rc.dayCountSince;
    var ann := BuildAnniversary(conf.anniversary);
    img := new Context(conf.width, conf.height);
    img.SetColor(BackgroundColor);
    img.FillRectangle(0, 0, conf.width, conf.height);
    assert img.commands == [Rect(0, 0, rc.width, rc.height, BackgroundColor)];
    var holidays := LoadHolidays(holidayFile(conf.holiday));
    ghost var isDayOff, afunc := DayOffFunc(holidays), AnniversaryFunc(ann);
    assert isDayOff == DayOffFunc(HolidaysOf(holidayFile(rc.holiday)));
    assert afunc == AnniversaryFunc(AnniversaryMap(rc.anniversary));
    DrawPage(img, date, DayOffFunc(holidays), AnniversaryFunc(ann), measure, conf.dayCountSince, now);
    assert img.commands == [Rect(0, 0, rc.width, rc.height, BackgroundColor)]
                           + MonthsCommands(DefaultWeekLabels, date, date, isDayOff, afunc)
                           + CaptionCommands(date, measure)
                           + DayCountCommands(rc.dayCountSince, date, date.offset, TextColor);
    enc := EncodingFor(ext);
  }
}
