/** The parts of Go's slash-separated path package the server uses to take
    a request path apart: Base, Ext, Split, Clean and Dir. */
module GoPath {
  import opened GoStrings

  /** p without its trailing slashes. */
  function TrimSlashes(p: string): (r: string)
    ensures |r| <= |p| && r == p[..|r|]
    ensures r == [] || r[|r| - 1] != '/'
    ensures forall i :: |r| <= i < |p| ==> p[i] == '/'
  {
    if p != [] && p[|p| - 1] == '/' then TrimSlashes(p[..|p| - 1]) else p
  }

  /** path.Base: the last element, trailing slashes removed; "." for the
      empty path and "/" for a path of slashes only. */
  function Base(p: string): (r: string)
    ensures r != ""
    ensures '/' in r ==> r == "/"
  {
    if p == "" then "."
    else
      var q := TrimSlashes(p);
      var b := q[LastIndexOf(q, '/') + 1..];
      if b == "" then "/" else b
  }

  /** path.Ext: the suffix from the last dot of the last element, or "". */
  function Ext(p: string): (r: string)
    ensures |r| <= |p| && r == p[|p| - |r|..]
    ensures r != "" ==> r[0] == '.' && '/' !in r && '.' !in r[1..]
  {
    if p == [] || p[|p| - 1] == '/' then ""
    else if p[|p| - 1] == '.' then "."
    else
      var e := Ext(p[..|p| - 1]);
      if e == "" then "" else e + [p[|p| - 1]]
  }

  /** path.Split: everything up to and including the last slash, and the
      rest. */
  function SplitPath(p: string): (r: (string, string))
    ensures r.0 + r.1 == p && '/' !in r.1
    ensures r.0 == "" || r.0[|r.0| - 1] == '/'
  {
    var i := LastIndexOf(p, '/');
    (p[..i + 1], p[i + 1..])
  }

  /** The elements a cleaned path keeps: no empty ones and no "."; ".."
      only at the front, and not at all in a rooted path. */
  predicate CleanElems(out: seq<string>, rooted: bool) {
    && (forall i :: 0 <= i < |out| ==> out[i] != "" && out[i] != "." && '/' !in out[i])
    && (forall i :: 0 <= i < |out| && out[i] == ".." ==> !rooted && forall j :: 0 <= j < i ==> out[j] == "..")
  }

  /** One element of Clean's scan: drop empty elements and ".", let ".."
      remove the element before it, or stay when there is none (keeping it
      only in a relative path), and keep every other element. */
  function CleanStep(out: seq<string>, e: string, rooted: bool): seq<string> {
    if e == "" || e == "." then out
    else if e == ".." then
      if |out| > 0 && out[|out| - 1] != ".." then out[..|out| - 1]
      else if rooted then out
      else out + [".."]
    else out + [e]
  }

  /** Clean's scan over the elements, left to right. */
  function CleanScan(es: seq<string>, rooted: bool): (out: seq<string>)
    requires forall i :: 0 <= i < |es| ==> '/' !in es[i]
    ensures CleanElems(out, rooted)
  {
    if es == [] then []
    else
      var out := CleanScan(es[..|es| - 1], rooted);
      var r := CleanStep(out, es[|es| - 1], rooted);
      assert forall i :: 0 <= i < |r| - 1 ==> r[i] == out[i];
      r
  }

  /** path.Clean, element by element: the kept elements joined by single
      slashes, behind a slash for a rooted path; "." when nothing is left
      of a relative path. */
  function Clean(p: string): (r: string)
    ensures r != ""
  {
    if p == "" then "."
    else
      var rooted := p[0] == '/';
      SplitPartsFree(p, '/');
      var body := Join(CleanScan(Split(p, '/'), rooted), '/');
      var r := if rooted then "/" + body else body;
      if r == "" then "." else r
  }

  /** path.Dir: Clean of everything up to the last slash. */
  function Dir(p: string): (r: string)
    ensures r != ""
  {
    Clean(SplitPath(p).0)
  }

  /** path.Base of a path ending in a non-empty element without a slash is
      that element. */
  lemma BaseOfElement(d: string, name: string)
    requires name != "" && '/' !in name
    ensures Base(d + "/" + name) == name
  {
    var q := d + "/" + name;
    assert TrimSlashes(q) == q;
    var i := LastIndexOf(q, '/');
    assert q[|d|] == '/';
    assert q[|d| + 1..] == name;
    assert q[i + 1..] == name;
  }

  /** Ext of a name without dots is empty. */
  lemma {:induction false} ExtNoDot(s: string)
    requires '.' !in s
    ensures Ext(s) == ""
  {
    if s != [] && s[|s| - 1] != '/' {
      ExtNoDot(s[..|s| - 1]);
    }
  }

  /** path.Ext finds exactly the extension of stem + ext when the stem has
      no dot and ext is a dot followed by no dot or slash. */
  lemma {:induction false} ExtOfSuffix(stem: string, ext: string)
    requires '.' !in stem
    requires ext != "" ==> ext[0] == '.' && '/' !in ext && '.' !in ext[1..]
    ensures Ext(stem + ext) == ext
  {
    if ext == "" {
      assert stem + ext == stem;
      ExtNoDot(stem);
    } else if |ext| > 1 {
      var p := stem + ext;
      var e := ext[..|ext| - 1];
      assert p[..|p| - 1] == stem + e;
      assert e[1..] == ext[1..|ext| - 1];
      ExtOfSuffix(stem, e);
      assert p[|p| - 1] == ext[|ext| - 1] && ext[|ext| - 1] in ext[1..];
      assert e + [ext[|ext| - 1]] == ext;
    }
  }

  /** Clean's answer never ends in a slash unless it is the root, and never
      holds an empty element. */
  lemma CleanShape(p: string)
    ensures var r := Clean(p);
            r == "/" || r == "." || (r[|r| - 1] != '/' && forall i :: 0 <= i < |r| - 1 ==> !(r[i] == '/' && r[i + 1] == '/'))
  {
    if p != "" {
      var rooted := p[0] == '/';
      SplitPartsFree(p, '/');
      var out := CleanScan(Split(p, '/'), rooted);
      JoinShape(out);
    }
  }

  /** Joining non-empty slash-free elements gives a string that does not
      start or end with a slash and has no doubled slash. */
  lemma {:induction false} JoinShape(out: seq<string>)
    requires forall i :: 0 <= i < |out| ==> out[i] != "" && '/' !in out[i]
    ensures var s := Join(out, '/');
            (out == [] <==> s == "")
            && (s != "" ==> s[0] != '/' && s[|s| - 1] != '/')
            && forall i :: 0 <= i < |s| - 1 ==> !(s[i] == '/' && s[i + 1] == '/')
  {
    if |out| > 1 {
      var rest := out[1..];
      JoinShape(rest);
      var t := Join(rest, '/');
      assert Join(out, '/') == out[0] + "/" + t;
      var s := Join(out, '/');
      forall i | 0 <= i < |s| - 1
        ensures !(s[i] == '/' && s[i + 1] == '/')
      {
        if i < |out[0]| {
          assert s[i] == out[0][i];
        } else if i > |out[0]| {
          assert s[i] == t[i - |out[0]| - 1] && s[i + 1] == t[i - |out[0]|];
        } else {
          assert s[i + 1] == t[0];
        }
      }
    } else if |out| == 1 {
      assert Join(out, '/') == out[0];
    }
  }

  /** A clean element list with one more clean element after it is what
      the scan's step makes of it. */
  lemma CleanStepKeeps(init: seq<string>, e: string, rooted: bool)
    requires CleanElems(init + [e], rooted)
    ensures CleanElems(init, rooted)
    ensures CleanStep(init, e, rooted) == init + [e]
  {
    var es := init + [e];
    assert forall i :: 0 <= i < |init| ==> es[i] == init[i];
    assert es[|init|] == e;
    if e == ".." && |init| > 0 {
      assert init[|init| - 1] == "..";
    }
  }

  /** Scanning elements that are already clean, after elements that leave
      nothing, gives those elements back. */
  lemma {:induction false} CleanScanKeeps(pre: seq<string>, es: seq<string>, rooted: bool)
    requires forall i :: 0 <= i < |pre| ==> '/' !in pre[i]
    requires CleanElems(es, rooted)
    requires CleanScan(pre, rooted) == []
    ensures forall i :: 0 <= i < |pre + es| ==> '/' !in (pre + es)[i]
    ensures CleanScan(pre + es, rooted) == es
  {
    var all := pre + es;
    SlashFreeAppend(pre, es, rooted);
    if es == [] {
      assert all == pre;
    } else {
      var init := es[..|es| - 1];
      var e := es[|es| - 1];
      assert init + [e] == es;
      CleanStepKeeps(init, e, rooted);
      CleanScanKeeps(pre, init, rooted);
      assert all[..|all| - 1] == pre + init && all[|all| - 1] == e;
      assert CleanScan(all, rooted) == CleanStep(CleanScan(pre + init, rooted), e, rooted);
    }
  }

  lemma SlashFreeAppend(pre: seq<string>, es: seq<string>, rooted: bool)
    requires forall i :: 0 <= i < |pre| ==> '/' !in pre[i]
    requires CleanElems(es, rooted)
    ensures forall i :: 0 <= i < |pre + es| ==> '/' !in (pre + es)[i]
  {
    var all := pre + es;
    assert forall i :: 0 <= i < |all| ==> all[i] == if i < |pre| then pre[i] else es[i - |pre|];
  }

  /** A rooted clean path is its own clean form. */
  lemma CleanRootedFixed(out: seq<string>)
    requires CleanElems(out, true)
    ensures Clean("/" + Join(out, '/')) == "/" + Join(out, '/')
  {
    var body := Join(out, '/');
    var r := "/" + body;
    JoinShape(out);
    SplitAt("", '/', body);
    assert r == "" + "/" + body;
    SplitPartsFree(r, '/');
    if out == [] {
      assert Split("", '/') == [""];
      assert Split(r, '/') == ["", ""];
      assert CleanScan(["", ""], true) == [];
    } else {
      SplitJoin(out, '/');
      assert CleanScan([""], true) == [];
      CleanScanKeeps([""], out, true);
    }
  }

  /** A relative clean path is its own clean form. */
  lemma CleanRelativeFixed(out: seq<string>)
    requires CleanElems(out, false) && out != []
    ensures Clean(Join(out, '/')) == Join(out, '/')
  {
    var r := Join(out, '/');
    JoinShape(out);
    SplitJoin(out, '/');
    assert [] + out == out;
    CleanScanKeeps([], out, false);
  }

  /** path.Clean is idempotent: a cleaned path is its own clean form. */
  lemma CleanIdempotent(p: string)
    ensures Clean(Clean(p)) == Clean(p)
  {
    if p == "" || Clean(p) == "." {
      assert Split(".", '/') == ["."];
      assert CleanScan(["."], false) == [];
    } else {
      var rooted := p[0] == '/';
      SplitPartsFree(p, '/');
      var out := CleanScan(Split(p, '/'), rooted);
      if rooted {
        CleanRootedFixed(out);
      } else {
        CleanRelativeFixed(out);
      }
    }
  }

  /** The root is clean. */
  lemma CleanRoot()
    ensures Clean("/") == "/"
  {
    SplitAt("", '/', "");
    assert "/" == "" + ['/'] + "";
    assert Split("", '/') == [""];
    assert Split("/", '/') == ["", ""];
    assert ["", ""][..1] == [""];
    assert CleanScan(["", ""], true) == [];
  }

  /** The elements of kind/ and of /kind/. */
  lemma SplitKindDir(kind: string)
    requires '/' !in kind
    ensures Split(kind + "/", '/') == [kind, ""]
  {
    SplitAt(kind, '/', "");
    assert kind + "/" == kind + ['/'] + "";
  }

  lemma SplitRootedKindDir(kind: string)
    requires '/' !in kind
    ensures Split("/" + kind + "/", '/') == ["", kind, ""]
  {
    RootedDirText(kind);
    SplitKindDir(kind);
    SplitAt("", '/', kind + "/");
    assert [""] + [kind, ""] == ["", kind, ""];
  }

  lemma RootedDirText(kind: string)
    ensures "/" + kind + "/" == "" + ['/'] + (kind + "/")
  {
  }

  /** Clean's scan keeps an ordinary element between empty ones. */
  lemma CleanScanKind(kind: string, rooted: bool)
    requires kind != "" && kind != "." && kind != ".." && '/' !in kind
    ensures CleanScan([kind, ""], rooted) == [kind]
    ensures CleanScan(["", kind, ""], rooted) == [kind]
  {
    assert [kind, ""][..1] == [kind] && [kind][..0] == [];
    assert CleanScan([kind], rooted) == [kind];
    var es := ["", kind, ""];
    assert es[..2] == ["", kind] && ["", kind][..1] == [""] && [""][..0] == [];
    assert CleanScan([""], rooted) == [];
    assert CleanScan(["", kind], rooted) == [kind];
  }

  /** The directory part of kind/name cleans to kind when kind is an
      ordinary element. */
  lemma CleanKindDir(kind: string)
    requires kind != "" && kind != "." && kind != ".." && '/' !in kind
    ensures Clean(kind + "/") == kind
  {
    SplitKindDir(kind);
    CleanScanKind(kind, false);
    assert Join([kind], '/') == kind;
  }

  /** The directory part of /kind/name cleans to /kind. */
  lemma CleanRootedKindDir(kind: string)
    requires kind != "" && kind != "." && kind != ".." && '/' !in kind
    ensures Clean("/" + kind + "/") == "/" + kind
  {
    SplitRootedKindDir(kind);
    CleanScanKind(kind, true);
    assert Join([kind], '/') == kind;
  }
}
