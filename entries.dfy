/** DateEntry: a (year, month, day) key with a label, where -1 in the year or
    the month is a wildcard, and its text form "Y/M/D,label" or
    "Y-M-D,label" as read from the holiday file and the configuration. */
module Entries {
  import opened GoStrings

  /** The [3]int map key of an entry or of a concrete day. */
  type DateKey = (int, int, int)

  /** The wildcard that "*" stands for in the year or the month. */
  const Wildcard := -1

  datatype DateEntry = DateEntry(year: int, month: int, day: int, title: string) {
    /** The map key of this entry. */
    function Key(): (k: DateKey)
      ensures k.0 == year && k.1 == month && k.2 == day
    {
      (year, month, day)
    }
  }

  /** The zero value of a DateEntry. */
  const ZeroEntry := DateEntry(0, 0, 0, "")

  /** The date part of a row split on '/', or else on '-'. */
  function DateFields(datePart: string): (f: seq<string>)
    ensures |f| >= 1
  {
    var slash := Split(datePart, '/');
    if |slash| == 3 then slash else Split(datePart, '-')
  }

  function FieldValue(f: string, wildcardAllowed: bool): (v: int)
    ensures wildcardAllowed && f == "*" ==> v == Wildcard
    ensures -Cutoff(32) <= v < Cutoff(32)
  {
    if wildcardAllowed && f == "*" then Wildcard else ParseInt(f, 32)
  }

  /** d.UnmarshalText(ent): the receiver after the call. It never fails. When
      the date part does not have exactly three fields it changes nothing;
      otherwise it sets year, month and day (a "*" year or month is the
      wildcard, a field that does not parse is 0) and, when there is a
      second comma field, the label to that field trimmed. */
  function UnmarshalText(d: DateEntry, ent: string): (r: DateEntry)
    ensures r != d ==> |DateFields(Split(ent, ',')[0])| == 3
  {
    var row := Split(ent, ',');
    var date := DateFields(row[0]);
    if |date| != 3 then d
    else
      DateEntry(FieldValue(date[0], true), FieldValue(date[1], true), FieldValue(date[2], false),
                if |row| >= 2 then TrimSpace(row[1]) else d.title)
  }

  /** UnmarshalText once the row and the date fields are known, field by
      field: a "*" year or month is the wildcard and any other field is
      what ParseInt makes of it (see GoStrings.ParseIntSyntaxError and
      GoStrings.ParseIntDigits); a "*" day does not parse and is 0; the
      label is the second comma field trimmed, or the old label when there
      is none. */
  lemma UnmarshalFields(d: DateEntry, ent: string, row: seq<string>, f: seq<string>)
    requires Split(ent, ',') == row && DateFields(row[0]) == f && |f| == 3
    ensures var r := UnmarshalText(d, ent);
            && r.year == (if f[0] == "*" then Wildcard else ParseInt(f[0], 32))
            && r.month == (if f[1] == "*" then Wildcard else ParseInt(f[1], 32))
            && r.day == ParseInt(f[2], 32)
            && (f[2] == "*" ==> r.day == 0)
    ensures |row| >= 2 ==> UnmarshalText(d, ent).title == TrimSpace(row[1])
    ensures |row| < 2 ==> UnmarshalText(d, ent).title == d.title
  {
    if f[2] == "*" {
      assert "*"[0] == '*';
      ParseIntNoDigits("*", 32);
    }
  }

  /** Decimal text of any integer, as strconv.Itoa writes it. */
  function IntText(n: int): string {
    if n < 0 then "-" + NatDigits(-n) else NatDigits(n)
  }

  /** The text of a year or month field: "*" for the wildcard. */
  function FieldText(n: int): string {
    if n == Wildcard then "*" else IntText(n)
  }

  /** An entry written in the slash form "Y/M/D,label". */
  function EntryText(e: DateEntry): string {
    FieldText(e.year) + "/" + FieldText(e.month) + "/" + IntText(e.day) + "," + e.title
  }

  /** The fields the text form can carry back: 32-bit values, and a label
      that holds no comma and has no white space at either end. */
  predicate Representable(e: DateEntry) {
    && -Cutoff(32) <= e.year < Cutoff(32)
    && -Cutoff(32) <= e.month < Cutoff(32)
    && -Cutoff(32) <= e.day < Cutoff(32)
    && ',' !in e.title
    && (e.title == [] || (!IsSpace(e.title[0]) && !IsSpace(e.title[|e.title| - 1])))
  }

  lemma DigitsHoldNoPunctuation(s: string)
    requires AllDigits(s)
    ensures '/' !in s && ',' !in s && '-' !in s && s != "*"
  {
    forall i | 0 <= i < |s|
      ensures s[i] != '/' && s[i] != ',' && s[i] != '-' && s[i] != '*'
    {
      assert IsDigit(s[i]);
    }
    assert "*"[0] == '*';
  }

  lemma IntTextParses(n: int)
    requires -Cutoff(32) <= n < Cutoff(32)
    ensures ParseInt(IntText(n), 32) == n
    ensures '/' !in IntText(n) && ',' !in IntText(n) && IntText(n) != "*"
  {
    if n < 0 {
      ParseIntNatDigits(-n, 32);
      DigitsHoldNoPunctuation(NatDigits(-n));
      assert IntText(n) == ['-'] + NatDigits(-n);
    } else {
      ParseIntNatDigits(n, 32);
      DigitsHoldNoPunctuation(NatDigits(n));
    }
  }

  lemma FieldTextParses(n: int)
    requires -Cutoff(32) <= n < Cutoff(32)
    ensures FieldValue(FieldText(n), true) == n
    ensures '/' !in FieldText(n) && ',' !in FieldText(n)
  {
    IntTextParses(n);
  }

  lemma SplitThree(a: string, b: string, c: string, sep: char)
    requires sep !in a && sep !in b && sep !in c
    ensures Split(a + [sep] + b + [sep] + c, sep) == [a, b, c]
  {
    SplitAt(b, sep, c);
    assert a + [sep] + b + [sep] + c == a + [sep] + (b + [sep] + c);
    SplitAt(a, sep, b + [sep] + c);
  }

  lemma SplitTwo(a: string, b: string, sep: char)
    requires sep !in a && sep !in b
    ensures Split(a + [sep] + b, sep) == [a, b]
  {
    SplitAt(a, sep, b);
  }

  lemma EntryTextFields(e: DateEntry)
    requires Representable(e)
    ensures var datePart := FieldText(e.year) + "/" + FieldText(e.month) + "/" + IntText(e.day);
            Split(EntryText(e), ',') == [datePart, e.title]
            && DateFields(datePart) == [FieldText(e.year), FieldText(e.month), IntText(e.day)]
  {
    var y, m, dd := FieldText(e.year), FieldText(e.month), IntText(e.day);
    FieldTextParses(e.year);
    FieldTextParses(e.month);
    IntTextParses(e.day);
    var datePart := y + "/" + m + "/" + dd;
    SplitThree(y, m, dd, '/');
    assert ',' !in datePart;
    SplitTwo(datePart, e.title, ',');
  }

  /** A representable entry comes back from any text whose row and date
      fields are its own text forms. */
  lemma UnmarshalBack(d: DateEntry, ent: string, datePart: string, e: DateEntry)
    requires Representable(e)
    requires Split(ent, ',') == [datePart, e.title]
    requires DateFields(datePart) == [FieldText(e.year), FieldText(e.month), IntText(e.day)]
    ensures UnmarshalText(d, ent) == e
  {
    var a, b, c := FieldText(e.year), FieldText(e.month), IntText(e.day);
    FieldTextParses(e.year);
    FieldTextParses(e.month);
    IntTextParses(e.day);
    assert FieldValue(c, false) == e.day;
    TrimSpaceKeeps(e.title);
    UnmarshalFields(d, ent, [datePart, e.title], [a, b, c]);
  }

  /** Parsing the slash form of a representable entry gives the entry back,
      whatever the receiver held before. */
  lemma UnmarshalEntryText(d: DateEntry, e: DateEntry)
    requires Representable(e)
    ensures UnmarshalText(d, EntryText(e)) == e
  {
    EntryTextFields(e);
    UnmarshalBack(d, EntryText(e), FieldText(e.year) + "/" + FieldText(e.month) + "/" + IntText(e.day), e);
  }

  /** An entry written in the dash form "Y-M-D,label". */
  function EntryTextDash(e: DateEntry): string {
    FieldText(e.year) + "-" + FieldText(e.month) + "-" + IntText(e.day) + "," + e.title
  }

  lemma NatFieldText(n: int)
    requires n == Wildcard || 0 <= n < Cutoff(32)
    ensures '-' !in FieldText(n) && '/' !in FieldText(n) && ',' !in FieldText(n)
  {
    if n != Wildcard {
      assert forall i :: 0 <= i < |NatDigits(n)| ==> IsDigit(NatDigits(n)[i]);
    }
  }

  lemma EntryTextDashFields(e: DateEntry)
    requires Representable(e)
    requires e.year == Wildcard || e.year >= 0
    requires e.month == Wildcard || e.month >= 0
    requires e.day >= 0
    ensures var datePart := FieldText(e.year) + "-" + FieldText(e.month) + "-" + IntText(e.day);
            Split(EntryTextDash(e), ',') == [datePart, e.title]
            && DateFields(datePart) == [FieldText(e.year), FieldText(e.month), IntText(e.day)]
  {
    var y, m, dd := FieldText(e.year), FieldText(e.month), IntText(e.day);
    NatFieldText(e.year);
    NatFieldText(e.month);
    NatFieldText(e.day);
    var datePart := y + "-" + m + "-" + dd;
    assert '/' !in datePart && ',' !in datePart;
    assert Split(datePart, '/') == [datePart];
    SplitThree(y, m, dd, '-');
    SplitTwo(datePart, e.title, ',');
  }

  /** The dash form parses back too, for entries without negative fields
      other than the wildcard. */
  lemma UnmarshalEntryTextDash(d: DateEntry, e: DateEntry)
    requires Representable(e)
    requires e.year == Wildcard || e.year >= 0
    requires e.month == Wildcard || e.month >= 0
    requires e.day >= 0
    ensures UnmarshalText(d, EntryTextDash(e)) == e
  {
    EntryTextDashFields(e);
    UnmarshalBack(d, EntryTextDash(e), FieldText(e.year) + "-" + FieldText(e.month) + "-" + IntText(e.day), e);
  }
}
