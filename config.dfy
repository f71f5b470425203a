/** The per-kind calendar configuration: the fields of one table of the
    configuration file, the field-by-field Merge of one table into
    another, and the order writeImage merges them in: the built-in size,
    then the "default" table, then the table named by the request. */
module Config {
  import opened Wrappers
  import opened Entries

  /** The contents of a CalendarConfig. An absent DayCountSince is None.
      A nil Anniversary slice and an empty one are the same sequence: Merge
      appends either, and appending nothing leaves the list as it was. */
  datatype ConfigValue = ConfigValue(width: int, height: int, font: string, holiday: string,
                                     anniversary: seq<DateEntry>, dayCountSince: Option<DateEntry>)

  /** A table with none of its fields set. */
  const EmptyConfig := ConfigValue(0, 0, "", "", [], None)

  /** The configuration writeImage starts from: 800 by 480, nothing else. */
  const BuiltIn := ConfigValue(800, 480, "", "", [], None)

  const DefaultName := "default"

  /** What Merge leaves in c after merging conf (None for a nil pointer). */
  function MergeValue(c: ConfigValue, conf: Option<ConfigValue>): ConfigValue {
    match conf
    case None => c
    case Some(o) =>
      ConfigValue(if o.width != 0 then o.width else c.width,
                  if o.height != 0 then o.height else c.height,
                  if o.font != "" then o.font else c.font,
                  if o.holiday != "" then o.holiday else c.holiday,
                  c.anniversary + o.anniversary,
                  if o.dayCountSince.Some? then o.dayCountSince else c.dayCountSince)
  }

  class CalendarConfig {
    var width: int
    var height: int
    var font: string
    var holiday: string
    var anniversary: seq<DateEntry>
    var dayCountSince: Option<DateEntry>

    constructor (v: ConfigValue)
      ensures Value() == v
    {
      width := v.width;
      height := v.height;
      font := v.font;
      holiday := v.holiday;
      anniversary := v.anniversary;
      dayCountSince := v.dayCountSince;
    }

    function Value(): ConfigValue
      reads this
    {
      ConfigValue(width, height, font, holiday, anniversary, dayCountSince)
    }

    /** Merges conf into this configuration field by field. conf may be
        this very object: each field of conf is read before that field is
        written, so the result is still MergeValue of the old contents. */
    method Merge(conf: CalendarConfig?)
      modifies this
      ensures Value() == MergeValue(old(Value()), if conf == null then None else Some(old(conf.Value())))
    {
      if conf == null {
        return;
      }
      if conf.width != 0 {
        width := conf.width;
      }
      if conf.height != 0 {
        height := conf.height;
      }
      if conf.font != "" {
        font := conf.font;
      }
      if conf.holiday != "" {
        holiday := conf.holiday;
      }
      anniversary := anniversary + conf.anniversary;
      if conf.dayCountSince.Some? {
        dayCountSince := conf.dayCountSince;
      }
    }
  }

  /** A nil table changes nothing, and neither does a table with no field
      set. */
  lemma MergeNeutral(c: ConfigValue)
    ensures MergeValue(c, None) == c
    ensures MergeValue(c, Some(EmptyConfig)) == c
  {
    assert c.anniversary + [] == c.anniversary;
  }

  /** Each field of the result comes from conf when conf sets it, and from
      c otherwise; both anniversary lists are kept, c's first. */
  lemma MergeFields(c: ConfigValue, o: ConfigValue)
    ensures var r := MergeValue(c, Some(o));
            && r.width == (if o.width != 0 then o.width else c.width)
            && r.height == (if o.height != 0 then o.height else c.height)
            && r.font == (if o.font != "" then o.font else c.font)
            && r.holiday == (if o.holiday != "" then o.holiday else c.holiday)
            && |r.anniversary| == |c.anniversary| + |o.anniversary|
            && r.anniversary[..|c.anniversary|] == c.anniversary
            && r.anniversary[|c.anniversary|..] == o.anniversary
            && (o.dayCountSince.Some? ==> r.dayCountSince == o.dayCountSince)
            && (o.dayCountSince.None? ==> r.dayCountSince == c.dayCountSince)
  {
    var r := MergeValue(c, Some(o));
    assert r.anniversary == c.anniversary + o.anniversary;
  }

  /** Merging a into c and then b is merging into c the result of merging b
      into a: the order of the tables matters, their grouping does not. */
  lemma MergeAssociative(c: ConfigValue, a: ConfigValue, b: ConfigValue)
    ensures MergeValue(MergeValue(c, Some(a)), Some(b)) == MergeValue(c, Some(MergeValue(a, Some(b))))
  {
    assert (c.anniversary + a.anniversary) + b.anniversary == c.anniversary + (a.anniversary + b.anniversary);
  }

  /** The configuration writeImage draws with: the built-in one, merged
      with the "default" table and then, unless the request names
      "default" itself, with the table of the requested kind. */
  function Resolve(defaultConf: Option<ConfigValue>, kindConf: Option<ConfigValue>, confName: string): ConfigValue {
    var c := MergeValue(BuiltIn, defaultConf);
    if confName != DefaultName then MergeValue(c, kindConf) else c
  }

  /** The kind's table wins over the "default" table, which wins over the
      built-in size; the anniversaries of both tables are kept, and those
      of "default" are not taken twice when it is the kind asked for. */
  lemma ResolvePrecedence(defaultConf: Option<ConfigValue>, kindConf: Option<ConfigValue>, confName: string)
    ensures var r := Resolve(defaultConf, kindConf, confName);
            var kind := if confName != DefaultName then kindConf else None;
            && r.width == (if kind.Some? && kind.value.width != 0 then kind.value.width
                           else if defaultConf.Some? && defaultConf.value.width != 0 then defaultConf.value.width
                           else 800)
            && r.height == (if kind.Some? && kind.value.height != 0 then kind.value.height
                            else if defaultConf.Some? && defaultConf.value.height != 0 then defaultConf.value.height
                            else 480)
            && r.anniversary == (if defaultConf.Some? then defaultConf.value.anniversary else [])
                                + (if kind.Some? then kind.value.anniversary else [])
  {
    var d := if defaultConf.Some? then defaultConf.value.anniversary else [];
    var k := if confName != DefaultName && kindConf.Some? then kindConf.value.anniversary else [];
    assert MergeValue(BuiltIn, defaultConf).anniversary == d;
    assert Resolve(defaultConf, kindConf, confName).anniversary == d + k;
  }

  /** The picture is never given a zero width or height: the built-in size
      is non-zero and a merge only replaces a size by a non-zero one. */
  lemma ResolveSizeNonzero(defaultConf: Option<ConfigValue>, kindConf: Option<ConfigValue>, confName: string)
    ensures Resolve(defaultConf, kindConf, confName).width != 0
    ensures Resolve(defaultConf, kindConf, confName).height != 0
  {
    ResolvePrecedence(defaultConf, kindConf, confName);
  }

  /** confMap[name] for a Go map of pointers: nil when the kind is absent. */
  function Lookup(confMap: map<string, CalendarConfig>, name: string): CalendarConfig? {
    if name in confMap then confMap[name] else null
  }

  function ValueOf(c: CalendarConfig?): Option<ConfigValue>
    reads c
  {
    if c == null then None else Some(c.Value())
  }

  /** The first lines of writeImage, with the decoded configuration file as
      the map confMap. */
  method LoadConfig(confMap: map<string, CalendarConfig>, confName: string) returns (conf: CalendarConfig)
    ensures fresh(conf)
    ensures conf.Value() == Resolve(ValueOf(Lookup(confMap, DefaultName)), ValueOf(Lookup(confMap, confName)), confName)
  {
    conf := new CalendarConfig(BuiltIn);
    conf.Merge(Lookup(confMap, DefaultName));
    if confName != DefaultName {
      conf.Merge(Lookup(confMap, confName));
    }
  }
}
