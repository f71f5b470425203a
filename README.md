# cal-server, modelled in Dafny

cal-server draws a calendar picture for an e-paper display. It serves the
picture over HTTP or writes it to a file. The picture shows:

- this month's grid with week labels and next month's grid, each with a
  `YYYY-MM` title;
- a large caption with the month, the day and a Japanese weekday glyph;
- an optional count of the days since a configured date.

A request path such as `/kind/2025-01-31.gif` names two things. The
directory is the configuration kind, a table of `config.toml` that is
merged over a `default` table. The file name is the date, and its
extension is the image format.

Holidays come from a file with one `Y/M/D,label` line per date. They make
a day a day off, just as Saturdays and Sundays are. Anniversaries from
the configuration underline a day, and they may use `*` for the year or
the month.

The model follows `main.go` function by function. Each module is listed
below with the form it takes.

- `Civil` is the proleptic Gregorian calendar on day numbers counted from
  1970-01-01. It provides days in a month, leap years, the weekday with
  Sunday = 0, and the day number and its inverse, with their round trip.
- `GoTime` is the part of Go's `time` package that the program uses. Its
  pieces:
  - an instant in whole seconds with a fixed zone offset;
  - the calendar fields;
  - `Date`, which normalises months and days as Go does;
  - `AddDate`;
  - `Sub`, which saturates at the limits of a 64-bit Duration;
  - `Hours()` truncated to an int;
  - the strict layout parser for `2006-01-02`.
- `GoStrings` and `GoPath` are the library pieces the parsers use. From
  `strings` and `strconv`: `Split`, `IndexAny`, `TrimSpace`, `ToLower`,
  `ParseInt`/`Atoi` with their error values, and `Sprintf`'s `%Nd` and
  `%0Nd`. From `path`: `Base`, `Ext`, `Dir` and `Clean`.
- `Canvas` is the drawing context as a class. Its state is the current
  colour and the list of draw commands issued so far.
- `Config` holds `CalendarConfig` as a class with the in-place `Merge`,
  and the order in which writeImage merges the tables.
- `Entries` holds `DateEntry`, its key, and `UnmarshalText` as a function
  from the old entry to the new one. The source's `Label` field is called
  `title`, because `label` is a keyword of Dafny.
- `Classify` holds:
  - the holiday map that `loadHoliday` fills in its loop (a method proved
    against a fold);
  - the anniversary map;
  - the day-off and anniversary predicates.
- `Grid` holds the `Calendar` class with `NextMonth`, and `DrawCalendar`:
  - its loops are methods with invariants;
  - they are proved to emit exactly the commands of a functional grid
    description (`Layout`, `Cell`, `DayCommands`);
  - the selected cell is the truncating count of main.go:101 as written,
    and `FlooredLayout` is the corrected selection (see Findings).
- `GridProps` holds what the grid shows:
  - one day number per day of the month, in order;
  - the highlight on the selected day only;
  - no underline without anniversaries;
  - the header geometry.
- `Page` is the rest of writeImage:
  - the two titled months;
  - the caption;
  - the day counter;
  - the choice of encoding;
  - the whole draw sequence of the picture.
- `Server` holds `parsePath`, the `offset` shift and the `x-expire-sec`
  value of the handler.
- `PosixTz` reads the fixed offset from `TZ`, as `applyPosixTZ` does.

How inputs are handled:

- `now`, the holiday file's lines, the decoded configuration map and the
  font metrics (`measure`) are parameters.
- There is no I/O.

Two behaviours of the code are easy to misread, and the model follows
the code:

- `path.Base` never returns `""`, so a file at the top level gets the
  kind `"."` and one right under the root gets `"/"`. The fallback to
  `"default"` at main.go:195-197 never fires.
- A day's column is its raw weekday (main.go:121). It is not its position
  among the week labels, whose number only sets the column width.

## Model

| member | source | states |
|---|---|---|
| Config.CalendarConfig.Merge | main.go:37-59 | The fields after the merge are MergeValue of the old fields and the old fields of conf, even when conf is the receiver itself; a nil conf changes nothing |
| Config.MergeNeutral | main.go:37-40 | Merging nil, or a table with no field set, leaves a configuration unchanged |
| Config.MergeFields | main.go:41-58 | Each field comes from conf when conf sets it (non-zero, non-empty, non-nil) and from the receiver otherwise; the anniversaries are the receiver's followed by conf's |
| Config.MergeAssociative | main.go:37-59 | Merging a and then b equals merging the merge of b into a: grouping does not matter, order does |
| Config.LoadConfig | main.go:241-245 | writeImage's configuration is the built-in 800x480, merged with the `default` table and then, for any other kind, with the kind's table (Resolve) |
| Config.ResolvePrecedence | main.go:241-245 | Width and height come from the kind if it sets them, else from `default`, else 800 and 480; the anniversaries are those of `default` then those of the kind, and `default`'s are not taken twice |
| Config.ResolveSizeNonzero | main.go:241-245 | The picture's width and height are never zero |
| Classify.DefaultIsDayOffCycle | main.go:77-79 | The default day-off test holds exactly on the two weekdays whose day number is 2 or 3 mod 7 (Saturday and Sunday), and it repeats every 7 days |
| Classify.WeekendResidues | main.go:77-79 | Saturday and Sunday are exactly the day numbers that leave remainder 3 or 2 mod 7 |
| Classify.DefaultIsDayOff | main.go:77-79 | Saturday or Sunday; a definition, characterised by day number in Classify.DefaultIsDayOffCycle |
| GoTime.ToDate | main.go:81-83 | Same zone, same calendar date, midnight: the instant moves back by exactly the seconds since local midnight |
| Grid.Calendar.constructor | main.go:88-90 | A new calendar has the default week labels, the default day-off test, today's midnight as its date and no selected date |
| Grid.Calendar.NextMonth | main.go:92-94 | The date becomes date.AddDate(0, 1, 1 - day); every other field is unchanged |
| Grid.NextMonthFirstDay | main.go:92-94 | NextMonth lands on day 1 of the following month (December goes to January of the next year) at the same clock time and zone |
| Grid.MonthAfter | main.go:93 | The month after (y, m) is a valid month exactly one month later |
| Grid.MonthStartFields | main.go:98 | The first cell is midnight of day 1 of the date's month and year, in the date's zone |
| Grid.LayoutDays | main.go:99-100 | numdays, computed from the two midnights as written, equals the number of days in the month |
| Grid.MonthLayout | main.go:97-117 | The grid starts at midnight of day 1 of the date's month and has one cell per day of that month; its selected cell is `int(Sub(start).Hours()) / 24` as written; its first row sits at y, or below the header when labels are drawn |
| Grid.FlooredLayout | main.go:101 | The corrected selection: the same grid and first day, with the floored day difference as the selected cell (what that selects is GridProps.SelectedCell) |
| GridProps.FebruaryGrid | main.go:98-100 | For February the grid has 29 days exactly in leap years and 28 otherwise |
| Grid.CalendarLayout | main.go:97-117 | The values computed before the loops are those of MonthLayout (colsize = w / len(labels), rowsize = (h - 2) / 7, y moved below the header when labels are drawn, the selected cell by the truncating count as written), and numdays is the number of days in the month |
| Grid.DrawCalendar | main.go:96-142 | The commands appended are exactly CalendarCommands of the calendar's state: the header if requested, then each day's cell in order; the colour left behind is that of the last cell |
| Grid.DrawHeader | main.go:107-115 | Appends one label per week label, label 0 in the holiday colour and the others in the text colour, at x + i*colsize, y + rowsize - 4 |
| GridProps.HeaderLayout | main.go:107-115 | Header label i is text label[i] at x + i*colsize, red for i = 0 and black otherwise |
| Grid.HeaderCommands | main.go:108-115 | The header has exactly one command per week label |
| Grid.DrawDays | main.go:119-141 | The loop appends DayCommands for days 0 .. numdays-1 and leaves the colour of the last cell |
| Grid.DrawDay | main.go:120-140 | One iteration appends the commands of cell d and moves y to the row of day d + 1 |
| Grid.DrawCell | main.go:122-137 | A cell is drawn in the day-off or text colour; a selected cell is a rectangle in that colour with its number in the background colour; a marked cell is underlined in the text colour |
| Grid.CellAt | main.go:120-122 | The values the loop computes for day d (weekday column, ink, mark, selection) are those of CellOf(g, d) |
| Grid.TopStep | main.go:138-140 | y moves down one row after a Saturday and stays put after any other day |
| Grid.RowStep | main.go:138-140 | The row index grows by one exactly after a Saturday |
| Grid.CellWeekday | main.go:120-121 | The weekday of cell d is the first day's weekday plus d, mod 7 |
| Grid.LastCellColor | main.go:119-141 | After the loop, the current colour is the colour the last cell leaves |
| Grid.AppendCell | main.go:119-141 | Appending cell d's commands to those of days 0 .. d-1 gives those of days 0 .. d |
| Grid.Cells | main.go:119 | The loop describes exactly one cell per day |
| GridProps.MonthDayNumbers | main.go:119-132 | The day numbers the grid writes are 1, 2, ..., days in the month, in order, one per cell |
| GridProps.DayTexts | main.go:132 | Cell i contributes exactly one text, its day number |
| GridProps.CommandsTexts | main.go:132 | The texts of a run of cells are their day-number texts, in order |
| GridProps.CellDate | main.go:120 | Cell d is midnight of day d + 1 of the month, d days after the first cell |
| GridProps.SelectedCell | main.go:101 | With the floored selection, cell d is selected iff it is the selected date's calendar day; some cell is selected iff the selected date lies in the grid's month |
| GridProps.SelectedCellDates | main.go:101 | Cell d is selected exactly when its calendar date equals the selected date's |
| GridProps.SelectedCellInMonth | main.go:101 | The selected index lies within the grid exactly when the selected date has the grid's year and month |
| GridProps.SameDayIff | main.go:101 | Two instants in the same zone fall on the same calendar date iff they have the same day number |
| GridProps.DayHighlights | main.go:127-131 | The only rectangle a grid fills is the selected cell's, if the selection falls inside the grid |
| GridProps.CalendarRects | main.go:107-131 | The header fills no rectangle: the rectangles of a calendar are those of its day cells |
| GridProps.OneRectangle | main.go:119-131 | A calendar whose selected cell lies inside its month fills exactly one rectangle |
| GridProps.TextsNoRects | main.go:107-115 | A run of texts, such as the header, holds no rectangle |
| GridProps.CommandsHighlights | main.go:127-131 | Over a run of cells with at most one selected, the rectangles are that cell's highlight and nothing else |
| GridProps.SelectedHighlight | main.go:127-131 | The highlight sits at x + wd*colsize + 3, y + 1, size colsize - 4 by rowsize - 2, in the cell's ink: red on a day off, black otherwise |
| GridProps.NoAnniversaryNoUnderline | main.go:133-137 | Without an anniversary function no cell is underlined |
| GridProps.CommandsNoUnderline | main.go:133-137 | Cells none of which is marked draw no line |
| GridProps.CellFilters | main.go:122-137 | A cell draws one text, one rectangle iff selected, and one line iff marked |
| GridProps.FilterAppend | main.go:119-141 | Selecting commands of one kind distributes over concatenation |
| GoTime.SelectedIndexIsDayDifference | main.go:101 | From a local midnight in the same zone, the floored selection is the difference of the day numbers |
| GoTime.ElapsedDaysAgrees | main.go:101 | For an instant after the first cell, or a whole number of days before it, the truncating count as written and the floored selection agree |
| GoTime.ElapsedDaysTruncatesIntoFirstCell | main.go:101 | As written: an instant less than a day before the first cell counts as day 0, while the floored selection gives -1 |
| GridProps.AsWrittenSelectsFirstCell | main.go:101 | As written: a clock time on the day before the month starts selects cell 0, which is not its date |
| GoTime.ElapsedDaysExact | main.go:100-101 | Within the range of a Duration, `int(d.Hours()) / 24` is the truncated quotient of the elapsed seconds by 86400 |
| GoTime.NestedQuot | main.go:100-101 | The two truncating divisions, by an hour in nanoseconds and by 24, are one truncating division by a day |
| GoTime.Sub | main.go:100-101 | t.Sub(u) in nanoseconds, saturated at the int64 Duration limits; this is a definition, and what the day counts make of it is GoTime.ElapsedDaysExact (within the range, the seconds divided by 86400) |
| GoTime.Quot | main.go:100-101 | Go's division truncates toward zero: the remainder a - q*b is smaller than b in size and has the sign of a |
| GoTime.ElapsedDays | main.go:100-101 | `int(t.Sub(u).Hours()) / 24` as written: never negative when t is not before u and never positive when t is not after u (its exact value is GoTime.ElapsedDaysExact) |
| GoTime.SelectedIndex | main.go:101 | The corrected count: the floored number of days i, so that i whole days are at most the seconds from start to sel and i + 1 days are more |
| GoTime.MakeTime | main.go:82 | time.Date in a fixed zone: the time is in the given zone, and its local seconds are the normalised date's day number times 86400 plus the clock seconds, which may run over into other days |
| GoTime.AddDate | main.go:93 | AddDate keeps the zone and the clock time since local midnight, whatever it adds (the day it lands on is GoTime.AddDays and Grid.NextMonthFirstDay) |
| GoTime.AddDays | main.go:120 | start.AddDate(0, 0, d) is d local days later at the same clock time and zone |
| GoTime.AddDaysShift | main.go:120 | In a fixed zone, adding d days moves the instant by exactly d * 86400 seconds |
| GoTime.AddDateZero | main.go:98 | AddDate(0, 0, 0) changes nothing |
| GoTime.MakeTimeFields | main.go:82 | time.Date with valid fields gives those fields back, in the given zone |
| GoTime.ClockFields | main.go:354 | Hour, minute and second are in range and recompose the seconds since local midnight |
| GoTime.NormMonth | main.go:93 | Date's month normalisation keeps the total month count and gives a month in 1..12 |
| Civil.OrdinalRoundTrip | main.go:82 | A valid date's day number converts back to the same date |
| Civil.FromOrdinal | main.go:82 | Every day number is the day number of a valid date |
| Civil.DaysIn | main.go:99-100 | Months have 28 to 31 days, and February has 29 exactly in leap years |
| Civil.DaysBeforeMonthStep | main.go:99-100 | Each month starts DaysIn days after the one before; the year starts at day 0 and its twelve months add up to its length |
| Civil.NextMonthFirst | main.go:99 | Day 1 of the following month comes exactly days-in-month days after day 1 of this month |
| Civil.YearUnique | main.go:82 | A day number falls in exactly one year |
| Civil.MonthUnique | main.go:82 | Within a year, a day number falls in exactly one month and day |
| Civil.DaysBeforeYearClosedForm | main.go:82 | The days before a year equal 365 per year plus the leap days, counted from 1970 |
| Civil.DaysBeforeYearMonotone | main.go:82 | Later years start at least 365 days per year later |
| Civil.WeekdayOf | main.go:121 | The weekday is in 0..6 |
| Entries.DateEntry.Key | main.go:151-153 | The entry's [3]int key; this is a definition, and what a key selects is Classify.HolidayMapLookup and Classify.AnniversaryIff |
| Entries.UnmarshalText | main.go:159-184 | The entry changes only when the date part splits into three fields on '/' or else on '-'; otherwise it is left as it was |
| Entries.UnmarshalFields | main.go:168-182 | With three date fields: a `*` year or month is -1 and any other field is strconv.ParseInt's value (GoStrings.ParseIntSyntaxError, GoStrings.ParseIntDigits and GoStrings.ParseIntNoDigits say which); a `*` day is 0; the label is the trimmed second comma field when there is one, otherwise the old label |
| Entries.FieldValue | main.go:168-176 | A field reads as -1 for `*` where a wildcard is allowed, and as a 32-bit value otherwise |
| Entries.DateFields | main.go:161-164 | The date part always gives at least one field |
| Entries.UnmarshalEntryText | main.go:159-184 | An entry written as `Y/M/D,label` (with `*` for a wildcard) reads back as the same entry, whatever the receiver was |
| Entries.UnmarshalEntryTextDash | main.go:159-184 | The same round trip holds for `Y-M-D,label` when no field is negative |
| Entries.UnmarshalBack | main.go:159-184 | The three date fields and the label of a line give back the entry they were written from |
| Entries.EntryTextFields | main.go:160-161 | `Y/M/D,label` splits into the date part and the label, and the date part into its three fields |
| Entries.EntryTextDashFields | main.go:160-164 | `Y-M-D,label` splits into the date part and the label, and the date part, having no '/', into its three '-' fields |
| Entries.IntTextParses | main.go:168-170 | A 32-bit integer written in decimal parses back to itself |
| Entries.FieldTextParses | main.go:168-176 | A year or month field written with `*` for the wildcard reads back as itself |
| Classify.LoadHoliday | main.go:201-217 | The scan loop builds HolidayMap of the parsed lines: each line is unmarshalled into a fresh entry and stored under its key when its year is not 0, later lines overwriting earlier ones |
| Classify.HolidayMap | main.go:209-215 | The map the loop builds, later entries overwriting earlier ones; a definition, whose keys and labels are Classify.HolidayMapLookup and Classify.HolidayKeysNonzeroYear |
| Classify.HolidayLines | main.go:209-211 | One entry per line, each read into a fresh entry; a definition, and that a written line reads back is Classify.HolidayLinesSingle |
| Classify.HolidayKeysNonzeroYear | main.go:212-214 | No key of the holiday map has year 0 |
| Classify.HolidayMapLookup | main.go:212-214 | A key is in the map iff some entry with a non-zero year has it, and its label is that of the last such entry |
| Classify.HolidayMapSingle | main.go:212-214 | One entry with a non-zero year gives a one-key map to its label |
| Classify.HolidayLinesSingle | main.go:209-211 | A written entry line parses back into that entry |
| Classify.OneLineHoliday | main.go:280-286 | The date of a one-line holiday file's entry is a day off |
| Classify.NewYearHoliday | main.go:280-286 | 2025-01-01 is a Wednesday, so not a weekend day, yet a file line for it makes it a day off |
| Classify.NewYearWeekday | main.go:77-79 | 2025-01-01 falls on a Wednesday |
| Classify.DayKey | main.go:284 | The exact key of a date, whose fields are the date's local calendar date; the day-off test through it is Classify.DayOffIff |
| Classify.IsDayOff | main.go:280-286 | The installed day-off test; a definition, stated line by line of the holiday file in Classify.DayOffIff |
| Classify.DayOffIff | main.go:280-286 | A date is a day off iff it is a Saturday or a Sunday, or its exact key comes from a holiday line with a non-zero year |
| Classify.BuildAnniversary | main.go:247-250 | The loop builds AnniversaryMap of the merged anniversary list, later entries overwriting earlier ones |
| Classify.AnniversaryMap | main.go:247-250 | The map the loop builds, later entries overwriting earlier ones; a definition, whose keys are Classify.AnniversaryMapKeys |
| Classify.AnniversaryMapKeys | main.go:247-250 | A key is in the anniversary map iff some listed entry has it |
| Classify.IsAnniversary | main.go:251-262 | anniversaryFunc's three lookups; a definition, stated entry by entry in Classify.AnniversaryIff |
| Classify.AnniversaryIff | main.go:251-262 | A date is an anniversary iff some entry's key is (y, m, d), (-1, m, d) or (-1, -1, d) for the date |
| Classify.KeyMarks | main.go:251-262 | An entry marks a date exactly when its key is one of the three lookups |
| Classify.YearWithWildcardMonthIsInert | main.go:251-262 | An entry with a concrete year and a wildcard month never changes which dates are anniversaries |
| Classify.MonthlyEntry | main.go:258 | `*/*/1` marks the first of every month and no other day |
| Classify.ExactEntry | main.go:252 | An entry with a concrete year and month marks exactly that calendar date |
| Page.DrawMonths | main.go:288-297 | Appends the first title and grid with labels, then, after NextMonth, the second title and grid without labels; the calendar ends on day 1 of the next month |
| Page.Title | main.go:290 | The "%4d-%02d" title of a month; a definition (the zero-padded month is GoStrings.FormatIntZeroPadded) |
| Page.FirstGrid | main.go:291 | The first grid has as many days as the date's month |
| Page.SecondGrid | main.go:293-297 | The second grid has as many days as the following month |
| Page.ConsecutiveGrids | main.go:288-297 | The second grid starts the day after the first ends, so together they show each day of the two months once |
| Page.AtMostOneHighlight | main.go:288-297 | The corrected selection: with FlooredLayout, a selected date in the calendar's zone fills at most one rectangle over the two grids |
| Page.AsWrittenHighlightsTwice | main.go:288-297 | As written: a clock time on the first month's last day selects the last cell of the first grid and the first cell of the second grid (see Findings) |
| Page.AsWrittenTwoRectangles | main.go:288-297 | As written: when the date is the last day of its month after midnight, the two months put two filled rectangles on the picture, on that day and on day 1 of the next month |
| Page.AsWrittenJanuary31 | main.go:288-297 | As written: at 2025-01-31 10:00 in any zone the picture has two filled rectangles, January 31 and February 1 |
| Page.NextMonthStartsTomorrow | main.go:293 | On a month's last day, the next month's first midnight is the next day |
| Page.FirstGridSelectsDate | main.go:279-291 | In the first grid the date selects the cell of its own day of the month: there the truncating count is exact |
| Page.DrawCaption | main.go:301-318 | Appends "%2d月%2d日(", the weekday glyph and ")", each after the measured width of the texts before it, and leaves the text colour |
| Page.CaptionGlyph | main.go:307-313 | The glyph is the Japanese weekday name; it is red iff it is Sunday's 日, so Saturdays and holidays stay black |
| Page.DrawDayCount | main.go:320-327 | The day count and its "since" line are drawn only when DayCountSince is set, in the current colour |
| Page.SinceDate | main.go:155-157 | DateEntry.Date in the calendar's zone is a local midnight there, whatever the entry's fields |
| Page.DayCount | main.go:322 | The count as written, through GoTime.ElapsedDays; a definition, whose exact value is Page.DayCountExact |
| Page.DayCountExact | main.go:322 | From a selected midnight, the count is the difference of the day numbers, negative for a date still to come |
| Page.DayCountExample | main.go:322 | 2020-01-11 is 10 days after 2020-01-01 |
| Page.EncodingFor | main.go:329-335 | PNG exactly for the extension ".png" (parsePath has already lower-cased it, main.go:198), and otherwise a GIF with the palette black, red, white |
| Canvas.PaletteIndices | main.go:333 | The palette has three distinct colours and holds every colour the drawing uses |
| Canvas.Rgba | main.go:73-75 | White has full red and blue, red has full red only, and every colour is opaque |
| Page.LoadHolidays | main.go:276 | An unreadable holiday file gives an empty map; a readable one gives the loop's map |
| Page.DrawPage | main.go:277-327 | Appends the two months, the caption and the day count for a calendar whose date and selection are the requested date |
| Page.WriteImage | main.go:238-336 | The picture has the resolved size; its commands are the background rectangle, the two months with the resolved day-off and anniversary tests, the caption and the day count; the encoding follows the extension |
| Canvas.Context.constructor | main.go:271 | A new context has the given size, no commands and black as its colour |
| Canvas.Context.SetColor | main.go:110-130 | Only the current colour changes |
| Canvas.Context.DrawString | main.go:114 | Appends one text in the current colour |
| Canvas.Context.FillRectangle | main.go:128-129 | Appends one filled rectangle in the current colour |
| Canvas.Context.StrokeLine | main.go:135-136 | Appends one line in the current colour |
| Server.ParsePath | main.go:186-199 | The kind is path.Base(path.Dir(p)); the date is `now` or a local midnight in `now`'s zone |
| Server.ParsePathOfDate | main.go:186-198 | For `dir/YYYY-MM-DD.ext` the date is that day's midnight in the local zone and the extension is `.ext` lower-cased |
| Server.ParsePathFallsBackToNow | main.go:190-193 | A stem that is not ten characters long, such as `index`, gives the date `now` |
| Server.ParsePathKind | main.go:194 | The kind of `kind/name` and of `/kind/name` is `kind` |
| Server.ParsePathTopLevel | main.go:194-197 | A top-level name gets the kind "." and a name under the root gets "/", never "default" |
| GoTime.ParseLayoutDate | main.go:190 | Only a ten-character `YYYY-MM-DD` parses, to a midnight in the given zone |
| GoTime.ParseLayoutDateName | main.go:190 | A valid date written YYYY-MM-DD parses back to its own midnight |
| GoTime.ParseLayoutDigits | main.go:190 | Four, two and two digits joined by '-' parse iff they form a valid date |
| GoPath.Base | main.go:194 | path.Base never returns "" and contains a slash only when it is "/" |
| GoPath.Ext | main.go:188 | The extension is a suffix that is empty or starts with its only dot and holds no slash |
| GoPath.ExtOfSuffix | main.go:188 | The extension of a dot-free stem followed by an extension is that extension |
| GoPath.BaseOfElement | main.go:187 | The base of `d/name` is `name` |
| GoPath.Clean | main.go:194 | Clean never returns "" |
| GoPath.Dir | main.go:194 | path.Dir never returns "" |
| GoPath.CleanIdempotent | main.go:194 | Cleaning a cleaned path changes nothing |
| GoPath.CleanShape | main.go:194 | A cleaned path is "/" or ".", or it ends without a slash and holds no doubled slash |
| GoPath.SplitPath | main.go:194 | The directory part and the last element make up the path, and the element has no slash |
| GoPath.CleanKindDir | main.go:194 | Clean(kind + "/") is kind |
| GoPath.CleanRootedKindDir | main.go:194 | Clean("/" + kind + "/") is "/" + kind |
| GoStrings.ToLower | main.go:198 | The length is kept, each ASCII capital becomes its small letter and every other character is kept |
| GoStrings.Split | main.go:160-163 | Split always gives at least one part, so `row[0]` and `offset[0]` exist |
| GoStrings.SplitPartsFree | main.go:160-163 | No part of a split holds the separator |
| GoStrings.SplitAt | main.go:160-163 | Splitting at the first separator gives the part before it followed by the split of the rest |
| GoStrings.SplitJoin | main.go:160-163 | Splitting the join of separator-free parts gives back the parts |
| GoStrings.JoinSplit | main.go:160-163 | Joining the parts of a split gives back the string |
| GoStrings.TrimSpace | main.go:181 | The result is the input without its leading and trailing white space, starting and ending with a non-space |
| GoStrings.TrimSpaceKeeps | main.go:181 | A string without surrounding space is kept |
| GoStrings.ParseInt | main.go:168-170 | The value lies in the signed range of the bit size |
| GoStrings.ParseIntNatDigits | main.go:168-170 | Decimal digits of a value that fits parse back to it, with or without a minus sign |
| GoStrings.ParseIntNoDigits | main.go:168-170 | A field without a digit reads as 0 |
| GoStrings.ParseIntSyntaxError | main.go:168-170 | A field that is an optional sign, digits whose value fits and then a non-digit reads as 0, whatever follows |
| GoStrings.ParseIntDigits | main.go:168-170 | A field that is an optional sign and one or more digits reads as its value, clamped to the range of the bit size |
| GoStrings.ParseIntSyntaxExamples | main.go:168-170 | "12a", "1 " and "1.5" read as 0 |
| GoStrings.ParseIntOverflowFirst | main.go:168-170 | "99999999999a" reads as 2^31 - 1: an overflow before the first non-digit clamps the value instead of giving 0 |
| GoStrings.ScanAllDigits | main.go:168-170 | The digit scan reads a string of digits as its value, or reports a range error when the value is too large |
| GoStrings.ScanErrorExtends | main.go:168-170 | Once the scan has stopped on an error, nothing after it is read |
| GoStrings.Atoi | main.go:372-377 | Atoi's value lies in the 64-bit range |
| GoStrings.IndexAny | main.go:362 | The first index of any of the characters, or -1 iff there is none |
| GoStrings.WrapInt64 | main.go:342 | The result is x reduced to the signed 64-bit range, and equals x when x fits |
| GoStrings.FormatIntZeroPadded | main.go:290 | `%0kd` of a value with at most k digits writes exactly its k low decimal digits, zeros in front |
| GoStrings.FormatInt | main.go:132 | A formatted integer is at least as wide as the requested width |
| Server.ShiftBySeconds | main.go:341-342 | Shifting keeps the zone |
| Server.ShiftBySecondsExact | main.go:341-342 | An offset whose nanoseconds fit a 64-bit Duration shifts the date by exactly that many seconds |
| Server.ExpireSeconds | main.go:353-355 | The header is between 1 and 86400 and is exactly the seconds from `now`'s local clock time to the next local midnight |
| PosixTz.PosixOffset | main.go:360-379 | TZ without '+' or '-' leaves the zone alone; otherwise the offset is a 64-bit value |
| PosixTz.PosixOffsetAt | main.go:362-371 | The offset is read from the first sign on, with sign +1 for '-' and -1 for '+' |
| PosixTz.TzTextRoundTrip | main.go:360-379 | Any offset written as name, POSIX sign and h:m:s reads back as itself |
| PosixTz.ClockValuesOfDigits | main.go:371-378 | Three decimal fields joined by ':' read as their values |
| PosixTz.JapanOffset | main.go:360-379 | `JST-9` is nine hours east: +32400 seconds |
| PosixTz.HoursOnly | main.go:373-378 | Missing minutes and seconds count as 0 |
| PosixTz.UnparsedMinutes | main.go:374 | A minutes field without digits counts as 0 |

## Left out

- Reading `config.toml`, the holiday file, fonts and the clock. The decoded configuration map, the holiday file's lines (None when it cannot be opened), a font-metrics function and `now` are parameters. `toml.DecodeFile`, `os.Open`, `bufio.Scanner` and `loadFont` are not part of this model, and neither is the Face7x13 fallback when the font fails to load.
- Rasterising, anti-aliasing, font faces and the float coordinates of `gg`. Drawing is a sequence of text, filled-rectangle and stroked-line commands at integer positions, each in the colour current when it is issued.
- GIF and PNG encoding, and `draw.Draw` onto the palette. Only the choice of encoding and the palette's order (black, red, white) are modelled.
- The HTTP server, response headers other than `x-expire-sec`, `log.Fatal`, the `offset` form value's retrieval and `main`'s file creation. They are plumbing around `parsePath`, `writeImage` and the shift.
- The assignment to `time.Local` in `applyPosixTZ`. The model returns the offset as an `Option<int>`, and the zone name is not kept.
- Time zones with daylight saving and zone databases. Every instant carries one fixed offset, so the `Hours() / 24` counts cannot lose an hour.
- Nanoseconds. Instants are whole seconds. A parsed date is a midnight, but `time.Now()` (main.go:192) carries nanoseconds, so `now` and the dates shifted from it are rounded down to whole seconds. Within one second after a local midnight the truncating day counts (main.go:101 and main.go:322) can then differ by one from the program's. `Hours()` is a float in Go; it is modelled as the exact truncating quotient, which agrees with the float for every whole-second duration.
- `MonthLabels`, `LinkFunc` and `Today`'s reading of the clock: they are unused or only read the clock.
- `DateEntry.Date`'s `time.Location`. SinceDate takes the calendar's zone offset instead.
- Entries.UnmarshalText: modelled as a function from the receiver's old value to its new one, not as an update through a pointer. Entries are values everywhere else in the program.
- Config.CalendarConfig.Merge: a nil `Anniversary` slice and an empty one are the same sequence. Appending either leaves the list as it was, so Merge's result does not change.
- GoStrings.ToLower: lower-cases ASCII letters only; Go's Unicode case mapping of other letters is not modelled.
- GoStrings.TrimSpace: white space is the Unicode White_Space set over single runes; Go's decoding of invalid UTF-8 is not modelled.
- PosixTz.PosixOffset: strings are sequences of runes, so `fixedtz[p+1:]` is cut after the sign's rune. Go cuts after its byte, which is the same because '+' and '-' are one byte long.
- Page.WriteImage: the day-off and anniversary tests are passed to the drawing as functions of the maps. Go's closures read the same maps, which nothing changes while drawing.

## Findings

| source | as written | input that shows it | evidently intended | confidence | as-written member | corrected member |
|---|---|---|---|---|---|---|
| main.go:101 | `int(c.SelectedDate.Sub(start).Hours()) / 24` truncates toward zero, so an instant less than a day before the grid's first day counts as day 0 | A request with no date in its path at 10:00 on 2025-01-31 (date = now): the January grid highlights the 31st, and the February grid also highlights the 1st, since -14 hours / 24 truncates to 0 | Only the cell of the selected calendar day is highlighted, so the count should be floored (or the selected date first reduced to its midnight) | not executed | Page.AsWrittenJanuary31, Page.AsWrittenTwoRectangles, GridProps.AsWrittenSelectsFirstCell | Grid.FlooredLayout, GridProps.SelectedCell, Page.AtMostOneHighlight |

The drawing, from Grid.DrawCalendar up to Page.WriteImage, follows the code as written. Grid.FlooredLayout is the same grid with the corrected selection.
