/** What the HTTP handler and the command line make of a request before
    drawing: the configuration kind, the date and the image format read
    from the path, the date shifted by the offset parameter, and the
    number of seconds the picture stays valid. */
module Server {
  import opened Wrappers
  import opened Civil
  import opened GoTime
  import opened GoStrings
  import opened GoPath

  /** The three results of parsePath. */
  datatype Request = Request(confName: string, date: Time, ext: string)

  /** parsePath: the file name without its extension is read as
      YYYY-MM-DD in the local zone (the zone of `now`), falling back to
      `now` itself; the configuration kind is the name of the enclosing
      directory; the extension is lower-cased. */
  function ParsePath(p: string, now: Time): (r: Request)
    ensures r.confName == Base(Dir(p))
    ensures r.date == now || (r.date.offset == now.offset && SecondsOfDay(r.date) == 0)
  {
    var name := Base(p);
    var ext := Ext(name);
    var stem := name[..|name| - |ext|];
    var date := match ParseLayoutDate(stem, now.offset)
                case Some(t) => t
                case None => now;
    var confName := Base(Dir(p));
    Request(if confName == "" then "default" else confName, date, ToLower(ext))
  }

  /** An extension as Ext finds it: a dot and no further dot or slash. */
  predicate IsExtension(ext: string) {
    ext == "" || (ext[0] == '.' && '/' !in ext && '.' !in ext[1..])
  }

  lemma DateNameHoldsNoSeparator(dt: Date)
    requires ValidDate(dt) && 0 <= dt.year <= 9999
    ensures '/' !in DateName(dt) && '.' !in DateName(dt) && DateName(dt) != ""
  {
    DateNameDigits(dt);
    var s := DateName(dt);
    assert forall i :: 0 <= i < |s| ==> IsDigit(s[i]) || s[i] == '-' by {
      var ys, ms, ds := FixedDigits(dt.year, 4), FixedDigits(dt.month, 2), FixedDigits(dt.day, 2);
      assert s == ys + "-" + ms + "-" + ds;
      assert forall i :: 0 <= i < |s| ==>
        s[i] == if i < 4 then ys[i] else if i == 4 then '-' else if i < 7 then ms[i - 5] else if i == 7 then '-' else ds[i - 8];
    }
  }

  /** A path whose last element is a date written YYYY-MM-DD and an
      extension gives that date at local midnight and the extension in
      lower case, whatever directory it lies in. */
  lemma ParsePathOfDate(dir: string, dt: Date, ext: string, now: Time)
    requires ValidDate(dt) && 0 <= dt.year <= 9999 && IsExtension(ext)
    ensures var r := ParsePath(dir + "/" + DateName(dt) + ext, now);
            && r.date == MakeTime(dt.year, dt.month, dt.day, 0, 0, 0, now.offset)
            && CivilOf(r.date) == dt && SecondsOfDay(r.date) == 0
            && r.ext == ToLower(ext)
  {
    DateNameHoldsNoSeparator(dt);
    NameParts(dir, DateName(dt), ext);
    ParseLayoutDateName(dt, now.offset);
  }

  /** The last element of dir/stem+ext is stem+ext, its extension ext and
      its stem stem. */
  lemma NameParts(dir: string, stem: string, ext: string)
    requires '/' !in stem && '.' !in stem && IsExtension(ext) && stem + ext != ""
    ensures var name := Base(dir + "/" + stem + ext);
            name == stem + ext && Ext(name) == ext && name[..|name| - |ext|] == stem
  {
    var name := stem + ext;
    assert dir + "/" + stem + ext == dir + "/" + name;
    BaseOfElement(dir, name);
    ExtOfSuffix(stem, ext);
    assert name[..|name| - |ext|] == stem;
  }

  /** A file name whose stem is not ten characters long, such as
      index.gif, is no date: the date falls back to the clock. */
  lemma ParsePathFallsBackToNow(dir: string, stem: string, ext: string, now: Time)
    requires '/' !in stem && '.' !in stem && |stem| != 10 && IsExtension(ext) && stem + ext != ""
    ensures ParsePath(dir + "/" + stem + ext, now).date == now
  {
    NameParts(dir, stem, ext);
  }

  lemma KindOfRootedPath(kind: string, name: string)
    requires kind != "" && kind != "." && kind != ".." && '/' !in kind
    requires name != "" && '/' !in name
    ensures Base(Dir("/" + kind + "/" + name)) == kind
  {
    SplitOfLast("/" + kind + "/", name);
    CleanRootedKindDir(kind);
    BaseOfElement("", kind);
    assert "" + "/" + kind == "/" + kind;
  }

  lemma KindOfRelativePath(kind: string, name: string)
    requires kind != "" && kind != "." && kind != ".." && '/' !in kind
    requires name != "" && '/' !in name
    ensures Base(Dir(kind + "/" + name)) == kind
  {
    SplitOfLast(kind + "/", name);
    CleanKindDir(kind);
    assert TrimSlashes(kind) == kind;
  }

  /** The kind is the directory the file lies in, with or without a
      leading slash. */
  lemma ParsePathKind(kind: string, name: string, now: Time)
    requires kind != "" && kind != "." && kind != ".." && '/' !in kind
    requires name != "" && '/' !in name
    ensures ParsePath(kind + "/" + name, now).confName == kind
    ensures ParsePath("/" + kind + "/" + name, now).confName == kind
  {
    KindOfRelativePath(kind, name);
    KindOfRootedPath(kind, name);
  }

  /** SplitPath of a path ending in an element without a slash. */
  lemma SplitOfLast(d: string, name: string)
    requires d != [] && d[|d| - 1] == '/' && '/' !in name
    ensures SplitPath(d + name) == (d, name)
  {
    var p := d + name;
    assert p[|d| - 1] == '/';
    assert p[|d|..] == name;
    assert p[..|d|] == d;
  }

  /** The directory of a top-level name is "." and that of a name right
      under the root is "/". */
  lemma TopLevelDirs(name: string)
    requires name != "" && '/' !in name
    ensures Base(Dir(name)) == "." && Base(Dir("/" + name)) == "/"
  {
    TopLevelDir(name);
    RootLevelDir(name);
  }

  lemma TopLevelDir(name: string)
    requires name != "" && '/' !in name
    ensures Base(Dir(name)) == "."
  {
    assert SplitPath(name) == ("", name);
  }

  lemma RootLevelDir(name: string)
    requires name != "" && '/' !in name
    ensures Base(Dir("/" + name)) == "/"
  {
    SplitOfLast("/", name);
    CleanRoot();
    assert TrimSlashes("/") == "";
  }

  /** A file at the top level, or right under the root, gets the kind "."
      or "/": the "default" fallback for an empty name never applies, since
      path.Base never returns "". */
  lemma ParsePathTopLevel(name: string, now: Time)
    requires name != "" && '/' !in name
    ensures ParsePath(name, now).confName == "."
    ensures ParsePath("/" + name, now).confName == "/"
  {
    TopLevelDirs(name);
  }

  /** handler: the date moved by the offset parameter, in seconds. The
      seconds are turned into a Duration by Go's wrapping int64 product,
      and Add keeps whole seconds, rounding down. */
  function ShiftBySeconds(date: Time, offsetSec: int): (r: Time)
    ensures r.offset == date.offset
  {
    var d := WrapInt64(offsetSec * NanosPerSecond);
    Time(date.unix + d / NanosPerSecond, date.offset)
  }

  /** Any offset of less than about 292 years moves the instant by exactly
      that many seconds. */
  lemma ShiftBySecondsExact(date: Time, offsetSec: int)
    requires -Cutoff(64) <= offsetSec * NanosPerSecond < Cutoff(64)
    ensures ShiftBySeconds(date, offsetSec).unix == date.unix + offsetSec
  {
  }

  /** The x-expire-sec header: the seconds from the local clock time of
      `now` to the next local midnight. */
  function ExpireSeconds(now: Time): (r: int)
    ensures 1 <= r <= SecondsPerDay
    ensures LocalSeconds(now) + r == (DayNumber(now) + 1) * SecondsPerDay
  {
    ClockFields(now);
    SecondsPerDay - (Hour(now) * 3600 + Minute(now) * 60 + Second(now))
  }
}
