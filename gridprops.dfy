/** What the trace DrawCalendar leaves says about the month it draws: one
    day number per day of the month in order, in its weekday column and
    week row, and at most one highlight, on the selected day. */
module GridProps {
  import opened Wrappers
  import opened Civil
  import opened GoTime
  import opened Canvas
  import opened Grid

  /** The three kinds of draw command. */
  datatype Kind = TextKind | RectKind | LineKind

  function KindOf(c: Command): (k: Kind)
    ensures k == TextKind <==> c.Text?
    ensures k == RectKind <==> c.Rect?
  {
    match c
    case Text(_, _, _, _) => TextKind
    case Rect(_, _, _, _, _) => RectKind
    case Line(_, _, _, _, _) => LineKind
  }

  /** The commands of one kind, in the order they were sent. */
  function Filter(cmds: seq<Command>, k: Kind): (r: seq<Command>)
    ensures |r| <= |cmds|
  {
    if cmds == [] then []
    else (if KindOf(cmds[0]) == k then [cmds[0]] else []) + Filter(cmds[1..], k)
  }

  lemma {:induction false} FilterAppend(a: seq<Command>, b: seq<Command>, k: Kind)
    ensures Filter(a + b, k) == Filter(a, k) + Filter(b, k)
  {
    if a == [] {
      assert a + b == b;
    } else {
      var h := if KindOf(a[0]) == k then [a[0]] else [];
      assert (a + b)[0] == a[0] && (a + b)[1..] == a[1..] + b;
      assert Filter(a + b, k) == h + Filter(a[1..] + b, k);
      FilterAppend(a[1..], b, k);
      assert h + (Filter(a[1..], k) + Filter(b, k)) == (h + Filter(a[1..], k)) + Filter(b, k);
    }
  }

  lemma FilterSingle(c: Command, k: Kind)
    ensures Filter([c], k) == if KindOf(c) == k then [c] else []
  {
    assert [c][1..] == [];
  }

  /** One cell sends exactly one day number, a highlight only when it is
      the selected cell, and an underline only when it is marked. */
  lemma CellFilters(colsize: int, rowsize: int, c: Cell, k: Kind)
    ensures Filter(CellCommands(colsize, rowsize, c), k)
            == match k
               case TextKind => [DayNumberText(rowsize, c)]
               case RectKind => Highlight(colsize, rowsize, c)
               case LineKind => Underline(colsize, rowsize, c)
  {
    var hl := Highlight(colsize, rowsize, c);
    var t := DayNumberText(rowsize, c);
    var ul := Underline(colsize, rowsize, c);
    FilterAppend(hl + [t], ul, k);
    FilterAppend(hl, [t], k);
    FilterSingle(t, k);
    if c.sel {
      FilterSingle(hl[0], k);
    }
    if c.marked {
      FilterSingle(ul[0], k);
    }
  }

  /** A run of cells sends one day number per cell, in cell order. */
  lemma {:induction false} CommandsTexts(colsize: int, rowsize: int, cs: seq<Cell>)
    ensures var ts := Filter(Commands(colsize, rowsize, cs), TextKind);
            |ts| == |cs| && forall i :: 0 <= i < |cs| ==> ts[i] == DayNumberText(rowsize, cs[i])
  {
    if cs != [] {
      var init, last := cs[..|cs| - 1], cs[|cs| - 1];
      CommandsTexts(colsize, rowsize, init);
      FilterAppend(Commands(colsize, rowsize, init), CellCommands(colsize, rowsize, last), TextKind);
      CellFilters(colsize, rowsize, last, TextKind);
      var ts0 := Filter(Commands(colsize, rowsize, init), TextKind);
      var ts := Filter(Commands(colsize, rowsize, cs), TextKind);
      assert ts == ts0 + [DayNumberText(rowsize, last)];
      forall i | 0 <= i < |cs|
        ensures ts[i] == DayNumberText(rowsize, cs[i])
      {
        if i < |cs| - 1 {
          assert cs[i] == init[i] && ts[i] == ts0[i];
        }
      }
    }
  }

  /** When cell j is the only selected cell of a run, the run sends its
      highlight and no other; with no selected cell, none. */
  lemma {:induction false} CommandsHighlights(colsize: int, rowsize: int, cs: seq<Cell>, j: int)
    requires forall i :: 0 <= i < |cs| ==> (cs[i].sel <==> i == j)
    ensures Filter(Commands(colsize, rowsize, cs), RectKind)
            == if 0 <= j < |cs| then Highlight(colsize, rowsize, cs[j]) else []
  {
    if cs != [] {
      var init, last := cs[..|cs| - 1], cs[|cs| - 1];
      assert forall i :: 0 <= i < |init| ==> init[i] == cs[i];
      CommandsHighlights(colsize, rowsize, init, j);
      FilterAppend(Commands(colsize, rowsize, init), CellCommands(colsize, rowsize, last), RectKind);
      CellFilters(colsize, rowsize, last, RectKind);
      var hs0 := Filter(Commands(colsize, rowsize, init), RectKind);
      assert Filter(Commands(colsize, rowsize, cs), RectKind) == hs0 + Highlight(colsize, rowsize, last);
      if j == |cs| - 1 {
        assert hs0 == [];
      } else {
        assert !last.sel;
        if 0 <= j < |init| {
          assert init[j] == cs[j];
        }
      }
    }
  }

  /** A run with no marked cell underlines nothing. */
  lemma {:induction false} CommandsNoUnderline(colsize: int, rowsize: int, cs: seq<Cell>)
    requires forall i :: 0 <= i < |cs| ==> !cs[i].marked
    ensures Filter(Commands(colsize, rowsize, cs), LineKind) == []
  {
    if cs != [] {
      var init, last := cs[..|cs| - 1], cs[|cs| - 1];
      assert forall i :: 0 <= i < |init| ==> init[i] == cs[i];
      CommandsNoUnderline(colsize, rowsize, init);
      FilterAppend(Commands(colsize, rowsize, init), CellCommands(colsize, rowsize, last), LineKind);
      CellFilters(colsize, rowsize, last, LineKind);
      assert !last.marked;
    }
  }

  /** The day numbers of cells 0 .. n-1: one per cell, in cell order, each
      at its weekday column and its week row, in the background colour on
      the selected cell and in the cell's ink elsewhere. */
  lemma DayTexts(g: Layout, n: nat)
    ensures var ts := Filter(DayCommands(g, n), TextKind);
            |ts| == n && forall d :: 0 <= d < n ==> ts[d] == DayNumberText(g.rowsize, CellOf(g, d))
  {
    CommandsTexts(g.colsize, g.rowsize, Cells(g, n));
  }

  /** Cells 0 .. n-1 hold one highlight when the selected cell is among
      them and none otherwise; it is filled in that cell's ink, the red of
      a day off or the text colour. */
  lemma DayHighlights(g: Layout, n: nat)
    ensures Filter(DayCommands(g, n), RectKind)
            == if 0 <= g.selected < n
               then [Rect(CellLeft(g, g.selected) + 3, CellTop(g, g.selected) + 1, g.colsize - 4, g.rowsize - 2,
                          Ink(g, g.selected))]
               else []
  {
    var cs := Cells(g, n);
    assert forall i :: 0 <= i < |cs| ==> (cs[i].sel <==> i == g.selected);
    CommandsHighlights(g.colsize, g.rowsize, cs, g.selected);
    assert DayCommands(g, n) == Commands(g.colsize, g.rowsize, cs);
    if 0 <= g.selected < n {
      assert cs[g.selected] == CellOf(g, g.selected);
      SelectedHighlight(g);
    }
  }

  lemma SelectedHighlight(g: Layout)
    requires 0 <= g.selected
    ensures Highlight(g.colsize, g.rowsize, CellOf(g, g.selected))
            == [Rect(CellLeft(g, g.selected) + 3, CellTop(g, g.selected) + 1, g.colsize - 4, g.rowsize - 2,
                     Ink(g, g.selected))]
  {
  }

  /** Without an anniversary predicate nothing is underlined. */
  lemma NoAnniversaryNoUnderline(g: Layout, n: nat)
    requires g.afunc.None?
    ensures Filter(DayCommands(g, n), LineKind) == []
  {
    CommandsNoUnderline(g.colsize, g.rowsize, Cells(g, n));
  }

  /** Cell d of a grid that starts on day 1 of the month of `date` is day
      d+1 of that month, at midnight in the zone of `date`. */
  lemma CellDate(date: Time, g: Layout, d: int)
    requires g.start == MonthStart(date)
    requires 0 <= d < DaysIn(Month(date), Year(date))
    ensures CivilOf(CellDay(g, d)) == Date(Year(date), Month(date), d + 1)
    ensures DayNumber(CellDay(g, d)) == DayNumber(g.start) + d
    ensures SecondsOfDay(CellDay(g, d)) == 0 && CellDay(g, d).offset == date.offset
  {
    var y, m := Year(date), Month(date);
    MonthStartFields(date);
    ShiftDays(g.start, d);
    assert DayNumber(g.start) == Ordinal(y, m, 1);
    var n := Ordinal(y, m, d + 1);
    assert DayNumber(CellDay(g, d)) == n;
    OrdinalRoundTrip(Date(y, m, d + 1));
    assert CivilOf(CellDay(g, d)) == FromOrdinal(n);
  }

  /** The grid of a month draws the day numbers 1 .. DaysIn, each once and
      in order. */
  lemma MonthDayNumbers(date: Time, g: Layout)
    requires g.start == MonthStart(date) && g.days == DaysIn(Month(date), Year(date))
    ensures var ts := Filter(DayCommands(g, g.days), TextKind);
            |ts| == g.days && forall d :: 0 <= d < g.days ==> ts[d].Text? && ts[d].s == DayText(d + 1)
  {
    DayTexts(g, g.days);
    forall d | 0 <= d < g.days
      ensures CellOf(g, d).dayNum == d + 1
    {
      CellDate(date, g, d);
    }
  }

  /** With the selected instant in the zone of `date`, the selected cell is
      the one whose date is the selected instant's date, whatever its clock
      time; there is such a cell exactly when that date lies in the month. */
  lemma SelectedCell(date: Time, sel: Time, g: Layout)
    requires g.start == MonthStart(date) && g.days == DaysIn(Month(date), Year(date))
    requires g.selected == SelectedIndex(sel, g.start) && sel.offset == date.offset
    ensures forall d :: 0 <= d < g.days ==> (d == g.selected <==> CivilOf(CellDay(g, d)) == CivilOf(sel))
    ensures 0 <= g.selected < g.days <==> Year(sel) == Year(date) && Month(sel) == Month(date)
  {
    SelectedCellDates(date, sel, g);
    SelectedCellInMonth(date, sel, g);
  }

  /** Two instants fall on the same local date exactly when their local day
      numbers agree. */
  lemma SameDayIff(t: Time, u: Time)
    ensures CivilOf(t) == CivilOf(u) <==> DayNumber(t) == DayNumber(u)
  {
  }

  lemma SelectedCellDates(date: Time, sel: Time, g: Layout)
    requires g.start == MonthStart(date) && g.days == DaysIn(Month(date), Year(date))
    requires g.selected == SelectedIndex(sel, g.start) && sel.offset == date.offset
    ensures forall d :: 0 <= d < g.days ==> (d == g.selected <==> CivilOf(CellDay(g, d)) == CivilOf(sel))
  {
    MonthStartFields(date);
    SelectedIndexIsDayDifference(sel, g.start);
    forall d | 0 <= d < g.days
      ensures d == g.selected <==> CivilOf(CellDay(g, d)) == CivilOf(sel)
    {
      CellDate(date, g, d);
      SameDayIff(CellDay(g, d), sel);
    }
  }

  lemma SelectedCellInMonth(date: Time, sel: Time, g: Layout)
    requires g.start == MonthStart(date) && g.days == DaysIn(Month(date), Year(date))
    requires g.selected == SelectedIndex(sel, g.start) && sel.offset == date.offset
    ensures 0 <= g.selected < g.days <==> Year(sel) == Year(date) && Month(sel) == Month(date)
  {
    MonthStartFields(date);
    SelectedIndexIsDayDifference(sel, g.start);
    var y, m := Year(date), Month(date);
    assert DayNumber(g.start) == Ordinal(y, m, 1);
    if Year(sel) == y && Month(sel) == m {
      assert DayNumber(sel) == Ordinal(y, m, Day(sel));
    }
    if 0 <= g.selected < g.days {
      var c := CellDay(g, g.selected);
      CellDate(date, g, g.selected);
      assert DayNumber(sel) == DayNumber(c);
      assert CivilOf(sel) == CivilOf(c);
    }
  }

  /** A grid for February has 29 cells in a leap year (2024, say) and 28
      otherwise. */
  lemma FebruaryGrid(date: Time)
    requires Month(date) == 2
    ensures var start := MonthStart(date);
            ElapsedDays(AddDate(start, 0, 1, 0), start) == if IsLeap(Year(date)) then 29 else 28
  {
    LayoutDays(date);
  }

  /** As written, the source counts the selected cell by truncating
      whole hours: an instant on the evening before the first of the month
      gets index 0 and the first cell is highlighted though it shows
      another date; the floored index the grid uses gives -1, no cell. */
  lemma AsWrittenSelectsFirstCell(date: Time, sel: Time, g: Layout)
    requires g.start == MonthStart(date) && g.days == DaysIn(Month(date), Year(date))
    requires sel.offset == date.offset
    requires DayNumber(sel) == DayNumber(g.start) - 1 && SecondsOfDay(sel) > 0
    ensures ElapsedDays(sel, g.start) == 0
    ensures CivilOf(CellDay(g, 0)) != CivilOf(sel)
    ensures SelectedIndex(sel, g.start) == -1
  {
    MonthStartFields(date);
    CellDate(date, g, 0);
    assert g.start.unix == DayNumber(g.start) * SecondsPerDay - date.offset;
    assert sel.unix == (DayNumber(g.start) - 1) * SecondsPerDay + SecondsOfDay(sel) - date.offset;
    ElapsedDaysTruncatesIntoFirstCell(sel, g.start);
  }

  /** A run of texts holds no rectangle. */
  lemma {:induction false} TextsNoRects(r: seq<Command>)
    requires forall i :: 0 <= i < |r| ==> r[i].Text?
    ensures Filter(r, RectKind) == []
  {
    if r != [] {
      TextsNoRects(r[1..]);
    }
  }

  /** The header fills nothing: the rectangles of a calendar are those of
      its day cells. */
  lemma CalendarRects(labels: seq<string>, date: Time, sel: Time, isDayOff: Time -> bool,
                      afunc: Option<Time -> bool>, x: int, y: int, w: int, h: int, showLabels: bool)
    requires |labels| > 0
    ensures var g := MonthLayout(labels, date, sel, isDayOff, afunc, x, y, w, h, showLabels);
            Filter(CalendarCommands(labels, date, sel, isDayOff, afunc, x, y, w, h, showLabels), RectKind)
            == Filter(DayCommands(g, g.days), RectKind)
  {
    var g := MonthLayout(labels, date, sel, isDayOff, afunc, x, y, w, h, showLabels);
    var header := if showLabels then HeaderCommands(labels, x, y, g.colsize, g.rowsize) else [];
    TextsNoRects(header);
    FilterAppend(header, DayCommands(g, g.days), RectKind);
    assert CalendarCommands(labels, date, sel, isDayOff, afunc, x, y, w, h, showLabels) == header + DayCommands(g, g.days);
  }

  /** A calendar whose selected cell lies in its month fills exactly one
      rectangle. */
  lemma OneRectangle(labels: seq<string>, date: Time, sel: Time, isDayOff: Time -> bool,
                     afunc: Option<Time -> bool>, x: int, y: int, w: int, h: int, showLabels: bool)
    requires |labels| > 0
    requires var g := MonthLayout(labels, date, sel, isDayOff, afunc, x, y, w, h, showLabels);
             0 <= g.selected < g.days
    ensures |Filter(CalendarCommands(labels, date, sel, isDayOff, afunc, x, y, w, h, showLabels), RectKind)| == 1
  {
    var g := MonthLayout(labels, date, sel, isDayOff, afunc, x, y, w, h, showLabels);
    CalendarRects(labels, date, sel, isDayOff, afunc, x, y, w, h, showLabels);
    DayHighlights(g, g.days);
  }

  /** The header draws label i in column i, the first label in the
      holiday colour and the rest in the text colour. */
  lemma HeaderLayout(labels: seq<string>, x: int, y: int, colsize: int, rowsize: int)
    ensures var r := HeaderCommands(labels, x, y, colsize, rowsize);
            && Filter(r, TextKind) == r
            && (|labels| > 0 ==> r[0].color == HolidayColor)
            && forall i :: 0 < i < |labels| ==> r[i].color == TextColor && r[i].x == x + i * colsize && r[i].s == labels[i]
  {
    var r := HeaderCommands(labels, x, y, colsize, rowsize);
    TextsFilter(r);
  }

  lemma {:induction false} TextsFilter(r: seq<Command>)
    requires forall i :: 0 <= i < |r| ==> r[i].Text?
    ensures Filter(r, TextKind) == r
  {
    if r != [] {
      TextsFilter(r[1..]);
    }
  }
}
