/** The fixed zone offset applyPosixTZ reads from the TZ variable: the part
    after the first '+' or '-' is hours[:minutes[:seconds]] WEST of UTC
    (the POSIX convention of section 8.3 of the Base Definitions volume of
    POSIX.1), so the sign is inverted to get Go's offset east of UTC. */
module PosixTz {
  import opened Wrappers
  import opened GoStrings

  /** The offset in seconds east of UTC that applyPosixTZ installs as the
      local zone, or None when TZ holds no sign and the local zone is left
      as it is. A field that is missing or does not parse counts as 0; the
      sum wraps as Go's int does (reducing once at the end is the same as
      reducing after every step). */
  function PosixOffset(tz: string): (r: Option<int>)
    ensures r.None? <==> '+' !in tz && '-' !in tz
    ensures r.Some? ==> -Cutoff(64) <= r.value < Cutoff(64)
  {
    var p := IndexAny(tz, "+-");
    if p < 0 then None
    else
      Some(FieldsOffset(if tz[p] == '-' then 1 else -1, tz[p + 1..]))
  }

  /** The hours, minutes and seconds after the sign: the fields split on
      ':', each read by strconv.Atoi, 0 when absent. */
  function ClockValues(fields: string): (int, int, int) {
    var offset := Split(fields, ':');
    (Atoi(offset[0]), if |offset| >= 2 then Atoi(offset[1]) else 0, if |offset| >= 3 then Atoi(offset[2]) else 0)
  }

  /** sign * (hours*3600 + minutes*60 + seconds) in Go's int. */
  function FieldsOffset(sign: int, fields: string): (r: int)
    ensures -Cutoff(64) <= r < Cutoff(64)
  {
    var (hour, min, sec) := ClockValues(fields);
    WrapInt64(sign * (hour * 3600 + min * 60 + sec))
  }

  /** TZ is read from its first sign on. */
  lemma PosixOffsetAt(name: string, c: char, fields: string)
    requires '+' !in name && '-' !in name && (c == '+' || c == '-')
    ensures PosixOffset(name + [c] + fields) == Some(FieldsOffset(if c == '-' then 1 else -1, fields))
  {
    var tz := name + [c] + fields;
    assert forall j :: 0 <= j < |name| ==> name[j] !in "+-";
    IndexAnyAfter(name, c, fields, "+-");
    assert tz[|name|] == c && tz[|name| + 1..] == fields;
  }

  /** Three decimal fields read as their values. */
  lemma ClockValuesOfDigits(h: nat, m: nat, s: nat)
    requires h < Cutoff(64) && m < Cutoff(64) && s < Cutoff(64)
    ensures ClockValues(ClockText(h, m, s)) == (h, m, s)
  {
    ClockSplit(NatDigits(h), NatDigits(m), NatDigits(s));
    ParseIntNatDigits(h, 64);
    ParseIntNatDigits(m, 64);
    ParseIntNatDigits(s, 64);
  }

  /** hours:minutes:seconds in decimal. */
  function ClockText(h: nat, m: nat, s: nat): string {
    NatDigits(h) + [':'] + NatDigits(m) + [':'] + NatDigits(s)
  }

  /** A TZ value for a zone name and an offset east of UTC, written with
      the POSIX sign as hours:minutes:seconds. */
  function TzText(name: string, offset: int): string {
    var a := if offset < 0 then -offset else offset;
    name + [if offset > 0 then '-' else '+'] + ClockText(a / 3600, a % 3600 / 60, a % 3600 % 60)
  }

  lemma IndexAnyAfter(name: string, c: char, rest: string, chars: string)
    requires c in chars
    requires forall j :: 0 <= j < |name| ==> name[j] !in chars
    ensures IndexAny(name + [c] + rest, chars) == |name|
  {
    var s := name + [c] + rest;
    assert s[|name|] == c;
    assert forall j :: 0 <= j < |name| ==> s[j] == name[j];
  }

  lemma DigitsSplit(s: string)
    requires AllDigits(s)
    ensures Split(s, ':') == [s]
  {
    assert forall j :: 0 <= j < |s| ==> s[j] != ':';
  }

  /** Three digit strings joined by colons split back into the three. */
  lemma ClockSplit(h: string, m: string, s: string)
    requires AllDigits(h) && AllDigits(m) && AllDigits(s)
    ensures Split(h + [':'] + m + [':'] + s, ':') == [h, m, s]
  {
    var t := m + [':'] + s;
    assert h + [':'] + m + [':'] + s == h + [':'] + t;
    DigitsSplit(s);
    SplitAt(m, ':', s);
    DigitsSplit(h);
    SplitAt(h, ':', t);
  }

  /** Every offset written by TzText, with a zone name free of signs,
      reads back as itself. */
  lemma TzTextRoundTrip(name: string, offset: int)
    requires '+' !in name && '-' !in name
    requires -Cutoff(64) < offset < Cutoff(64)
    ensures PosixOffset(TzText(name, offset)) == Some(offset)
  {
    var a := if offset < 0 then -offset else offset;
    var c := if offset > 0 then '-' else '+';
    var h, m, s := a / 3600, a % 3600 / 60, a % 3600 % 60;
    SignedClock(offset);
    assert TzText(name, offset) == name + [c] + ClockText(h, m, s);
    TzPartsRoundTrip(name, c, h, m, s, offset);
  }

  /** A TZ value built from a sign and three non-negative fields reads as
      the offset those fields stand for. */
  lemma TzPartsRoundTrip(name: string, c: char, h: nat, m: nat, s: nat, offset: int)
    requires '+' !in name && '-' !in name && (c == '+' || c == '-')
    requires h < Cutoff(64) && m < Cutoff(64) && s < Cutoff(64)
    requires (if c == '-' then 1 else -1) * (h * 3600 + m * 60 + s) == offset
    requires -Cutoff(64) <= offset < Cutoff(64)
    ensures PosixOffset(name + [c] + ClockText(h, m, s)) == Some(offset)
  {
    var fields := ClockText(h, m, s);
    PosixOffsetAt(name, c, fields);
    ClockValuesOfDigits(h, m, s);
    FieldsOffsetIs(if c == '-' then 1 else -1, fields, h, m, s, offset);
  }

  lemma FieldsOffsetIs(sign: int, fields: string, h: int, m: int, s: int, offset: int)
    requires ClockValues(fields) == (h, m, s)
    requires sign * (h * 3600 + m * 60 + s) == offset
    requires -Cutoff(64) <= offset < Cutoff(64)
    ensures FieldsOffset(sign, fields) == offset
  {
  }

  /** The sign and the three fields TzText writes give back the offset. */
  lemma SignedClock(offset: int)
    ensures var a := if offset < 0 then -offset else offset;
            var sign := if offset > 0 then 1 else -1;
            sign * ((a / 3600) * 3600 + (a % 3600 / 60) * 60 + a % 3600 % 60) == offset
  {
    var a := if offset < 0 then -offset else offset;
    var r := a % 3600;
    assert a == (a / 3600) * 3600 + r;
    assert r == (r / 60) * 60 + r % 60;
  }

  /** Japan's TZ value: nine hours east of UTC. */
  lemma JapanOffset()
    ensures PosixOffset("JST-9") == Some(32400)
  {
    assert "JST-9" == "JST" + ['-'] + "9";
    PosixOffsetAt("JST", '-', "9");
    DigitsSplit("9");
    assert NatDigits(9) == "9";
    ParseIntNatDigits(9, 64);
    FieldsOffsetIs(1, "9", 9, 0, 0, 32400);
  }

  /** Missing minutes and seconds count as zero. */
  lemma HoursOnly(name: string, c: char, h: nat)
    requires '+' !in name && '-' !in name && (c == '+' || c == '-')
    requires h < 1_000_000
    ensures PosixOffset(name + [c] + NatDigits(h)) == Some((if c == '-' then 1 else -1) * h * 3600)
  {
    PosixOffsetAt(name, c, NatDigits(h));
    DigitsSplit(NatDigits(h));
    ParseIntNatDigits(h, 64);
    FieldsOffsetIs(if c == '-' then 1 else -1, NatDigits(h), h, 0, 0, (if c == '-' then 1 else -1) * h * 3600);
  }

  /** A minutes field without digits counts as zero. */
  lemma UnparsedMinutes(name: string, c: char, h: nat, junk: string)
    requires '+' !in name && '-' !in name && (c == '+' || c == '-')
    requires h < 1_000_000
    requires ':' !in junk && forall i :: 0 <= i < |junk| ==> !IsDigit(junk[i])
    ensures PosixOffset(name + [c] + (NatDigits(h) + [':'] + junk)) == Some((if c == '-' then 1 else -1) * h * 3600)
  {
    var hs := NatDigits(h);
    var fields := hs + [':'] + junk;
    PosixOffsetAt(name, c, fields);
    assert ':' !in hs by {
      DigitsSplit(hs);
    }
    SplitAt(hs, ':', junk);
    assert Split(junk, ':') == [junk];
    ParseIntNatDigits(h, 64);
    ParseIntNoDigits(junk, 64);
    assert ClockValues(fields) == (h, 0, 0);
    FieldsOffsetIs(if c == '-' then 1 else -1, fields, h, 0, 0, (if c == '-' then 1 else -1) * h * 3600);
  }
}
