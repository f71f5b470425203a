/** The day classifiers of the calendar: weekends, the holiday map read line
    by line from the holiday file, and the anniversary map with its
    three-step wildcard lookup. */
module Classify {
  import opened Civil
  import opened GoTime
  import opened Entries

  /** The exact [3]int key of the local day holding t. */
  function DayKey(t: Time): (k: DateKey)
    ensures k == (Year(t), Month(t), Day(t))
    ensures CivilOf(t) == Date(k.0, k.1, k.2)
  {
    (Year(t), Month(t), Day(t))
  }

  /** DefaultIsDayOffFunc: Sunday or Saturday. */
  predicate DefaultIsDayOff(t: Time) {
    Weekday(t) == Sunday || Weekday(t) == Saturday
  }

  lemma WeekendResidues(n: int)
    ensures (WeekdayOf(n) == Sunday || WeekdayOf(n) == Saturday) <==> n % 7 == 2 || n % 7 == 3
    ensures WeekdayOf(n + 7) == WeekdayOf(n)
  {
    var r := n % 7;
    assert n == 7 * (n / 7) + r;
    assert n + 4 == 7 * (n / 7) + (r + 4);
    assert n + 7 + 4 == 7 * (n / 7 + 1) + (r + 4);
  }

  /** With 1970-01-01 a Thursday, the weekend is the days whose number is 2
      or 3 modulo 7, and a week later is again the same kind of day. */
  lemma DefaultIsDayOffCycle(t: Time)
    ensures DefaultIsDayOff(t) <==> DayNumber(t) % 7 == 2 || DayNumber(t) % 7 == 3
    ensures DefaultIsDayOff(AddDate(t, 0, 0, 7)) == DefaultIsDayOff(t)
  {
    WeekendResidues(DayNumber(t));
    AddDays(t, 7);
  }

  /** The entry a holiday-file line is read into (a fresh DateEntry{}). */
  function HolidayLine(line: string): DateEntry {
    UnmarshalText(ZeroEntry, line)
  }

  /** The entries the lines of the holiday file are read into, in order. */
  function HolidayLines(lines: seq<string>): (es: seq<DateEntry>)
    ensures |es| == |lines|
    ensures forall i :: 0 <= i < |lines| ==> es[i] == HolidayLine(lines[i])
  {
    seq(|lines|, i requires 0 <= i < |lines| => HolidayLine(lines[i]))
  }

  /** The entry is kept in the holiday map under key k: loadHoliday keeps
      only the entries whose year is not 0. */
  predicate Contributes(e: DateEntry, k: DateKey) {
    e.year != 0 && e.Key() == k
  }

  /** The map loadHoliday builds from the entries of the file, later
      entries overwriting earlier ones. */
  function HolidayMap(entries: seq<DateEntry>): map<DateKey, string>
    decreases |entries|
  {
    if entries == [] then map[]
    else
      var m := HolidayMap(entries[..|entries| - 1]);
      var e := entries[|entries| - 1];
      if e.year != 0 then m[e.Key() := e.title] else m
  }

  /** loadHoliday's scan loop over the lines of an opened file. */
  method LoadHoliday(lines: seq<string>) returns (ret: map<DateKey, string>)
    ensures ret == HolidayMap(HolidayLines(lines))
  {
    ret := map[];
    var i := 0;
    while i < |lines|
      invariant 0 <= i <= |lines|
      invariant ret == HolidayMap(HolidayLines(lines[..i]))
    {
      var d := UnmarshalText(ZeroEntry, lines[i]);
      if d.year != 0 {
        ret := ret[d.Key() := d.title];
      }
      assert HolidayLines(lines[..i + 1])[..i] == HolidayLines(lines[..i]);
      i := i + 1;
    }
    assert lines[..|lines|] == lines;
  }

  /** No key of the holiday map has year 0. */
  lemma {:induction false} HolidayKeysNonzeroYear(entries: seq<DateEntry>)
    ensures forall k :: k in HolidayMap(entries) ==> k.0 != 0
    decreases |entries|
  {
    if entries != [] {
      HolidayKeysNonzeroYear(entries[..|entries| - 1]);
    }
  }

  /** A key is in the holiday map iff some entry contributes it, and its
      label is the one of the last entry that does. */
  lemma {:induction false} HolidayMapLookup(entries: seq<DateEntry>, k: DateKey)
    ensures k in HolidayMap(entries) <==> exists i :: 0 <= i < |entries| && Contributes(entries[i], k)
    ensures k in HolidayMap(entries) ==>
              exists i :: 0 <= i < |entries| && Contributes(entries[i], k)
                          && HolidayMap(entries)[k] == entries[i].title
                          && forall j :: i < j < |entries| ==> !Contributes(entries[j], k)
    decreases |entries|
  {
    if entries != [] {
      var init := entries[..|entries| - 1];
      var n := |entries| - 1;
      HolidayMapLookup(init, k);
      assert forall i :: 0 <= i < n ==> init[i] == entries[i];
      if Contributes(entries[n], k) {
        assert HolidayMap(entries)[k] == entries[n].title;
      } else if k in HolidayMap(init) {
        var i :| 0 <= i < n && Contributes(init[i], k)
                 && HolidayMap(init)[k] == init[i].title
                 && forall j :: i < j < n ==> !Contributes(init[j], k);
        assert Contributes(entries[i], k);
      } else {
        assert forall i :: 0 <= i < n ==> !Contributes(entries[i], k);
      }
    }
  }

  /** The IsDayOffFunc that writeImage installs: the default weekend, or an
      exact key in the holiday map. */
  predicate IsDayOff(holidays: map<DateKey, string>, t: Time) {
    DefaultIsDayOff(t) || DayKey(t) in holidays
  }

  /** A day is off iff it falls on a weekend or some line of the holiday
      file names exactly its date with a non-zero year. */
  lemma DayOffIff(lines: seq<string>, t: Time)
    ensures IsDayOff(HolidayMap(HolidayLines(lines)), t)
            <==> DefaultIsDayOff(t) || exists i :: 0 <= i < |lines| && Contributes(HolidayLine(lines[i]), DayKey(t))
  {
    HolidayMapLookup(HolidayLines(lines), DayKey(t));
  }

  /** Every instant of 2025-01-01 (local time) falls on a Wednesday. */
  lemma NewYearWeekday(y: int, t: Time)
    requires y == 2025 && DayKey(t) == (y, 1, 1)
    ensures Weekday(t) == 3 && !DefaultIsDayOff(t)
  {
    DaysBeforeYearClosedForm(y);
    assert LeapsBefore(y) == 491;
    assert DayNumber(t) == 20089;
    assert DayNumber(t) + 4 == 7 * 2870 + 3;
  }

  lemma HolidayMapSingle(e: DateEntry)
    requires e.year != 0
    ensures HolidayMap([e]) == map[e.Key() := e.title]
  {
    assert [e][..0] == [];
  }

  lemma HolidayLinesSingle(e: DateEntry)
    requires Representable(e)
    ensures HolidayLines([EntryText(e)]) == [e]
  {
    UnmarshalEntryText(ZeroEntry, e);
  }

  /** A holiday file of one line naming a date in the slash form makes
      that date a day off. */
  lemma OneLineHoliday(e: DateEntry, t: Time)
    requires e.year != 0 && Representable(e) && DayKey(t) == e.Key()
    ensures IsDayOff(HolidayMap(HolidayLines([EntryText(e)])), t)
  {
    HolidayLinesSingle(e);
    HolidayMapSingle(e);
  }

  /** Example: a holiday file holding the line "2025/1/1,元日" makes
      Wednesday 2025-01-01 a day off, though it is no weekend. */
  lemma NewYearHoliday(y: int, e: DateEntry, t: Time)
    requires y == 2025 && e == DateEntry(y, 1, 1, "元日") && DayKey(t) == (y, 1, 1)
    ensures !DefaultIsDayOff(t) && IsDayOff(HolidayMap(HolidayLines([EntryText(e)])), t)
  {
    NewYearWeekday(y, t);
    NewYearEntry(e);
    OneLineHoliday(e, t);
  }

  lemma NewYearEntry(e: DateEntry)
    requires e == DateEntry(2025, 1, 1, "元日")
    ensures Representable(e) && e.year != 0 && e.Key() == (2025, 1, 1)
  {
    var title := e.title;
    assert forall i :: 0 <= i < |title| ==> title[i] != ',';
  }

  /** The anniversary map writeImage builds from the merged configuration,
      later entries overwriting earlier ones. */
  function AnniversaryMap(entries: seq<DateEntry>): map<DateKey, string>
    decreases |entries|
  {
    if entries == [] then map[]
    else
      var e := entries[|entries| - 1];
      AnniversaryMap(entries[..|entries| - 1])[e.Key() := e.title]
  }

  /** The loop over conf.Anniversary filling the map. */
  method BuildAnniversary(entries: seq<DateEntry>) returns (ret: map<DateKey, string>)
    ensures ret == AnniversaryMap(entries)
  {
    ret := map[];
    for i := 0 to |entries|
      invariant ret == AnniversaryMap(entries[..i])
    {
      ret := ret[entries[i].Key() := entries[i].title];
      assert entries[..i + 1][..i] == entries[..i];
    }
    assert entries[..|entries|] == entries;
  }

  /** The keys of the anniversary map are exactly the entries' keys. */
  lemma {:induction false} AnniversaryMapKeys(entries: seq<DateEntry>, k: DateKey)
    ensures k in AnniversaryMap(entries) <==> exists i :: 0 <= i < |entries| && entries[i].Key() == k
    decreases |entries|
  {
    if entries != [] {
      var init := entries[..|entries| - 1];
      AnniversaryMapKeys(init, k);
      assert forall i :: 0 <= i < |init| ==> init[i] == entries[i];
      if k in AnniversaryMap(init) {
        var i :| 0 <= i < |init| && init[i].Key() == k;
        assert entries[i].Key() == k;
      }
    }
  }

  /** anniversaryFunc: the exact key, then any year, then any year and month. */
  predicate IsAnniversary(ann: map<DateKey, string>, t: Time) {
    || (Year(t), Month(t), Day(t)) in ann
    || (Wildcard, Month(t), Day(t)) in ann
    || (Wildcard, Wildcard, Day(t)) in ann
  }

  /** Which days an entry marks, read field by field: the day must agree, a
      month or year must agree or be the wildcard, and a wildcard month only
      goes with a wildcard year. */
  predicate Marks(e: DateEntry, t: Time) {
    && e.day == Day(t)
    && (e.month == Month(t) || e.month == Wildcard)
    && (e.year == Year(t) || e.year == Wildcard)
    && (e.month == Wildcard ==> e.year == Wildcard)
  }

  lemma KeyMarks(e: DateEntry, t: Time)
    ensures Marks(e, t) <==> e.Key() in {(Year(t), Month(t), Day(t)), (Wildcard, Month(t), Day(t)), (Wildcard, Wildcard, Day(t))}
  {
  }

  /** A day is an anniversary iff some configured entry marks it. */
  lemma AnniversaryIff(entries: seq<DateEntry>, t: Time)
    ensures IsAnniversary(AnniversaryMap(entries), t)
            <==> exists i :: 0 <= i < |entries| && Marks(entries[i], t)
  {
    var k1, k2, k3 := (Year(t), Month(t), Day(t)), (Wildcard, Month(t), Day(t)), (Wildcard, Wildcard, Day(t));
    AnniversaryMapKeys(entries, k1);
    AnniversaryMapKeys(entries, k2);
    AnniversaryMapKeys(entries, k3);
    forall i | 0 <= i < |entries|
      ensures Marks(entries[i], t) <==> entries[i].Key() == k1 || entries[i].Key() == k2 || entries[i].Key() == k3
    {
      KeyMarks(entries[i], t);
    }
  }

  /** An entry with a concrete year and a wildcard month, (y, -1, d), adds
      no anniversary: none of the three lookups can reach its key. */
  lemma YearWithWildcardMonthIsInert(entries: seq<DateEntry>, e: DateEntry, t: Time)
    requires e.year != Wildcard && e.month == Wildcard
    ensures IsAnniversary(AnniversaryMap(entries + [e]), t) == IsAnniversary(AnniversaryMap(entries), t)
  {
    assert (entries + [e])[..|entries|] == entries;
    assert 1 <= Month(t);
  }

  /** An entry with wildcard year and month and day 1 marks the first of
      every month and nothing else. */
  lemma MonthlyEntry(title: string, t: Time)
    ensures IsAnniversary(AnniversaryMap([DateEntry(Wildcard, Wildcard, 1, title)]), t) <==> Day(t) == 1
  {
    AnniversaryIff([DateEntry(Wildcard, Wildcard, 1, title)], t);
  }

  /** An entry with a concrete year and month marks its own date only. */
  lemma ExactEntry(e: DateEntry, t: Time)
    requires e.year != Wildcard && e.month != Wildcard
    ensures IsAnniversary(AnniversaryMap([e]), t) <==> CivilOf(t) == Date(e.year, e.month, e.day)
  {
    AnniversaryIff([e], t);
  }
}
