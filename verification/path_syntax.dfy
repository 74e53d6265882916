/** The `-p` path: a section name and an optional key, separated by the
    one-character path separator (`-P`, `.` by default). A separator inside a
    section name is written with a backslash before it; a path that starts with
    the separator addresses the pairs that precede every section header. */
module PathSyntax {
  import opened Outcomes
  import opened Text
  import opened IniModel

  /** Size of the buffer the section name is gathered in (glibc's `BUFSIZ`). */
  const BufSiz: nat := 8192

  /** The character that makes the next separator part of the section name. */
  const Escape: char := '\\'

  /** A path the C program reads without a NULL dereference or an overrun of
      the section buffer. */
  predicate ValidPath(path: string) {
    0 < |path| < BufSiz
  }

  /** What a path asks for. `section` is the name passed to `get_section`;
      `keysOnly` selects listing keys without values; `noInherit` is set when
      the path disables DEFAULT inheritance. */
  datatype Target = Target(section: string, key: Option<string>, keysOnly: bool, noInherit: bool)

  /** The section name gathered from `segs`, appended to `buf`: while the name
      ends with a backslash, that backslash becomes the separator and the next
      segment is appended. Also returns how many segments were used. */
  function Gather(segs: seq<string>, buf: string, sep: char): (r: (string, nat))
    requires |segs| > 0 && |buf + segs[0]| > 0
    ensures 0 < r.1 <= |segs|
    decreases |segs|
  {
    var b := buf + segs[0];
    if b[|b| - 1] == Escape then
      var b' := b[..|b| - 1] + [sep];
      if |segs| > 1 then
        var g := Gather(segs[1..], b', sep);
        (g.0, g.1 + 1)
      else (b', 1)
    else (b, 1)
  }

  lemma SplitLeading(s: string, c: char)
    ensures Split(s, c)[0] == "" <==> |s| == 0 || s[0] == c
  {
  }

  /** The path parsing at the start of `main`: the section (the unnamed
      section's token when the path starts with the separator), the key in the
      segment after it, and whether keys alone are listed. */
  function ParsePath(path: string, sep: char): (r: Target)
    requires ValidPath(path)
    ensures r.noInherit <==> path[0] == sep
    ensures r.noInherit ==> r.section == NoSectionToken
    ensures r.key.Some? ==> r.key.value != "" && sep !in r.key.value
  {
    var segs := Split(path, sep);
    SplitLeading(path, sep);
    var unnamed := segs[0] == "";
    var g: (string, nat) := if unnamed then (NoSectionToken, 1) else Gather(segs, "", sep);
    var keys := unnamed && (|path| < 2 || path[1] != sep);
    if g.1 < |segs| && segs[g.1] == "" then Target(g.0, None, !keys, unnamed)
    else if g.1 < |segs| then Target(g.0, Some(segs[g.1]), keys, unnamed)
    else Target(g.0, None, keys, unnamed)
  }

  /** `name` written as a path segment: every separator in it preceded by a
      backslash. */
  function EscapeName(name: string, sep: char): (r: string)
    ensures |r| >= |name|
    decreases |name|
  {
    if |name| == 0 then ""
    else EscapeChar(name[0], sep) + EscapeName(name[1..], sep)
  }

  function EscapeChar(ch: char, sep: char): string {
    if ch == sep then [Escape, sep] else [ch]
  }

  lemma {:induction false} EscapeAppend(x: string, y: string, sep: char)
    ensures EscapeName(x + y, sep) == EscapeName(x, sep) + EscapeName(y, sep)
    decreases |x|
  {
    if |x| > 0 {
      var xy := x + y;
      assert xy[0] == x[0] && xy[1..] == x[1..] + y;
      var h := EscapeChar(x[0], sep);
      assert EscapeName(xy, sep) == h + EscapeName(x[1..] + y, sep);
      assert EscapeName(x, sep) == h + EscapeName(x[1..], sep);
      EscapeAppend(x[1..], y, sep);
      assert h + (EscapeName(x[1..], sep) + EscapeName(y, sep))
          == (h + EscapeName(x[1..], sep)) + EscapeName(y, sep);
    } else {
      assert x + y == y;
    }
  }

  lemma {:induction false} EscapeFirst(name: string, sep: char)
    requires |name| > 0 && sep != Escape
    ensures |EscapeName(name, sep)| > 0 && EscapeName(name, sep)[0] != sep
  {
  }

  /** A name without the separator is written as it is. */
  lemma {:induction false} EscapePlain(name: string, sep: char)
    requires sep !in name
    ensures EscapeName(name, sep) == name
    decreases |name|
  {
    if |name| > 0 {
      EscapePlain(name[1..], sep);
      assert [name[0]] + name[1..] == name;
    }
  }

  /** Position of the first `sep` in `s`, or `|s|` when there is none. */
  function SepIndex(s: string, sep: char): (r: nat)
    ensures r <= |s|
    ensures sep !in s[..r]
    ensures r < |s| ==> s[r] == sep
    decreases |s|
  {
    if |s| == 0 then 0
    else if s[0] == sep then 0
    else
      var k := SepIndex(s[1..], sep);
      assert s[..k + 1] == [s[0]] + s[1..][..k];
      k + 1
  }

  lemma EscapeAtSep(a: string, rest: string, sep: char)
    requires sep !in a
    ensures EscapeName(a + [sep] + rest, sep) == (a + [Escape]) + [sep] + EscapeName(rest, sep)
  {
    var t := [sep] + rest;
    var e := EscapeName(rest, sep);
    assert EscapeName(t, sep) == [Escape, sep] + e by {
      assert t[0] == sep && t[1..] == rest;
      assert EscapeChar(sep, sep) == [Escape, sep];
    }
    assert EscapeName(a + [sep] + rest, sep) == a + EscapeName(t, sep) by {
      assert a + [sep] + rest == a + t;
      EscapeAppend(a, t, sep);
      EscapePlain(a, sep);
    }
    assert a + ([Escape, sep] + e) == (a + [Escape]) + [sep] + e;
  }

  /** A segment ending in a backslash joins the next one, the backslash
      turned into the separator. */
  lemma GatherEscapedSegment(a: string, tail: seq<string>, more: seq<string>, buf: string, sep: char,
                             x: string, n: nat)
    requires |tail| > 0
    requires Gather(tail + more, buf + a + [sep], sep) == (x, n)
    ensures Gather(([a + [Escape]] + tail) + more, buf, sep) == (x, n + 1)
  {
    var segs := ([a + [Escape]] + tail) + more;
    assert segs[0] == a + [Escape] && segs[1..] == tail + more;
    var b := buf + segs[0];
    assert b[..|b| - 1] + [sep] == buf + a + [sep];
  }

  /** The segments of a name whose first separator is escaped. */
  lemma SegmentsAtSep(a: string, rest: string, sep: char)
    requires sep != Escape && sep !in a
    ensures Split(EscapeName(a + [sep] + rest, sep), sep) == [a + [Escape]] + Split(EscapeName(rest, sep), sep)
  {
    EscapeAtSep(a, rest, sep);
    SplitAppend(a + [Escape], EscapeName(rest, sep), sep);
  }

  /** A last segment that does not end in a backslash ends the name. */
  lemma GatherPlainSegment(x: string, more: seq<string>, buf: string)
    requires |buf + x| > 0 && (buf + x)[|buf + x| - 1] != Escape
    ensures forall sep :: Gather([x] + more, buf, sep) == (buf + x, 1)
  {
    assert ([x] + more)[0] == x;
  }

  lemma Regroup(buf: string, a: string, sep: char, rest: string)
    ensures buf + a + [sep] + rest == buf + (a + [sep] + rest)
  {
  }

  /** One escaped separator: the name's first segment joins the gathering of
      the rest. */
  lemma GatherEscapedStep(segs: seq<string>, tail: seq<string>, more: seq<string>, buf: string,
                          a: string, rest: string, sep: char)
    requires segs == [a + [Escape]] + tail && |tail| > 0
    requires Gather(tail + more, buf + a + [sep], sep) == (buf + a + [sep] + rest, |tail|)
    ensures Gather(segs + more, buf, sep) == (buf + (a + [sep] + rest), |segs|)
  {
    GatherEscapedSegment(a, tail, more, buf, sep, buf + a + [sep] + rest, |tail|);
    Regroup(buf, a, sep, rest);
  }

  /** A name without a separator is one segment, and ends the gathering. */
  lemma GatherPlainName(name: string, buf: string, more: seq<string>, sep: char)
    requires sep !in name
    requires |name| > 0 ==> name[|name| - 1] != Escape
    requires |name| == 0 ==> |buf| > 0 && buf[|buf| - 1] != Escape
    ensures var segs := Split(EscapeName(name, sep), sep);
            Gather(segs + more, buf, sep) == (buf + name, |segs|)
  {
    EscapePlain(name, sep);
    SplitPlain(name, sep);
    assert Split(EscapeName(name, sep), sep) + more == [name] + more;
    GatherPlainSegment(name, more, buf);
  }

  /** Gathering the segments of an escaped name gives the name back and stops
      exactly after them, whatever segments follow. */
  lemma {:induction false} GatherEscaped(name: string, buf: string, more: seq<string>, sep: char)
    requires sep != Escape
    requires |name| > 0 ==> name[|name| - 1] != Escape
    requires |name| == 0 ==> |buf| > 0 && buf[|buf| - 1] != Escape
    ensures var segs := Split(EscapeName(name, sep), sep);
            Gather(segs + more, buf, sep) == (buf + name, |segs|)
    decreases |name|
  {
    var i := SepIndex(name, sep);
    if i == |name| {
      assert name[..i] == name;
      GatherPlainName(name, buf, more, sep);
    } else {
      var a, rest := name[..i], name[i + 1..];
      assert name == a + [sep] + rest;
      var tail := Split(EscapeName(rest, sep), sep);
      GatherEscaped(rest, buf + a + [sep], more, sep);
      SegmentsAtSep(a, rest, sep);
      GatherEscapedStep(Split(EscapeName(name, sep), sep), tail, more, buf, a, rest, sep);
    }
  }

  /** `.` (one separator): every pair of the unnamed section, with values. */
  lemma ParseDot(sep: char)
    ensures ParsePath([sep], sep) == Target(NoSectionToken, None, false, true)
  {
    assert Split([sep], sep) == ["", ""] by {
      assert [sep][1..] == "";
    }
  }

  /** `..` (two separators): the keys of the unnamed section. */
  lemma ParseDotDot(sep: char)
    ensures ParsePath([sep, sep], sep) == Target(NoSectionToken, None, true, true)
  {
    assert Split([sep, sep], sep) == ["", "", ""] by {
      assert [sep, sep][1..] == [sep];
      assert [sep][1..] == "";
      assert Split([sep], sep) == ["", ""];
    }
  }

  /** `.key`: one value of the unnamed section. */
  lemma ParseDotKey(key: string, sep: char)
    requires key != "" && sep !in key && |key| + 1 < BufSiz
    ensures ParsePath([sep] + key, sep) == Target(NoSectionToken, Some(key), true, true)
  {
    SplitAppend("", key, sep);
    SplitPlain(key, sep);
    assert "" + [sep] + key == [sep] + key;
  }

  /** A name that does not end in a backslash, as the escaped path reads it. */
  predicate PathName(name: string, sep: char) {
    sep != Escape && name != "" && name[|name| - 1] != Escape
  }

  /** The parse of a path whose first segment starts a section name: the
      name gathered from the segments, and the segment after them. */
  lemma ParseNamed(path: string, sep: char, segs: seq<string>, name: string, n: nat)
    requires ValidPath(path) && path[0] != sep
    requires Split(path, sep) == segs && |segs| > 0 && |segs[0]| > 0
    requires Gather(segs, "", sep) == (name, n)
    ensures ParsePath(path, sep)
         == if n < |segs| && segs[n] == "" then Target(name, None, true, false)
            else if n < |segs| then Target(name, Some(segs[n]), false, false)
            else Target(name, None, false, false)
  {
    SplitLeading(path, sep);
  }

  /** The segments of a path that starts with an escaped name. */
  lemma EscapedSegments(name: string, rest: string, sep: char)
    requires PathName(name, sep)
    ensures var segs := Split(EscapeName(name, sep), sep);
            && Split(EscapeName(name, sep) + [sep] + rest, sep) == segs + Split(rest, sep)
            && Gather(segs + Split(rest, sep), "", sep) == (name, |segs|)
            && |segs[0]| > 0
  {
    var e := EscapeName(name, sep);
    EscapeFirst(name, sep);
    SplitLeading(e, sep);
    SplitConcat(e, rest, sep);
    GatherEscaped(name, "", Split(rest, sep), sep);
    assert "" + name == name;
  }

  /** A section name written with its separators escaped reads back as that
      name, and the section's pairs are listed with their values (`a`,
      `a\.b`). */
  lemma ParseName(name: string, sep: char)
    requires PathName(name, sep) && |EscapeName(name, sep)| < BufSiz
    ensures ParsePath(EscapeName(name, sep), sep) == Target(name, None, false, false)
  {
    var e := EscapeName(name, sep);
    var segs := Split(e, sep);
    EscapeFirst(name, sep);
    SplitLeading(e, sep);
    GatherEscaped(name, "", [], sep);
    assert segs + [] == segs;
    assert "" + name == name;
    ParseNamed(e, sep, segs, name, |segs|);
  }

  /** A separator after the escaped name lists the section's keys alone (`a.`). */
  lemma ParseNameDot(name: string, sep: char)
    requires PathName(name, sep) && |EscapeName(name, sep)| + 1 < BufSiz
    ensures ParsePath(EscapeName(name, sep) + [sep], sep) == Target(name, None, true, false)
  {
    var e := EscapeName(name, sep);
    var segs := Split(e, sep);
    EscapedSegments(name, "", sep);
    assert e + [sep] + "" == e + [sep];
    EscapeFirst(name, sep);
    ParseNamed(e + [sep], sep, segs + [""], name, |segs|);
  }

  /** Two separators after the escaped name list the keys alone as well (`a..`). */
  lemma ParseNameDotDot(name: string, sep: char)
    requires PathName(name, sep) && |EscapeName(name, sep)| + 2 < BufSiz
    ensures ParsePath(EscapeName(name, sep) + [sep, sep], sep) == Target(name, None, true, false)
  {
    var e := EscapeName(name, sep);
    var segs := Split(e, sep);
    EscapedSegments(name, [sep], sep);
    assert e + [sep] + [sep] == e + [sep, sep];
    assert Split([sep], sep) == ["", ""] by {
      assert [sep][1..] == "";
    }
    EscapeFirst(name, sep);
    ParseNamed(e + [sep, sep], sep, segs + ["", ""], name, |segs|);
  }

  /** A key after the escaped name selects that key's value (`a.x`). */
  lemma ParseNameKey(name: string, key: string, sep: char)
    requires PathName(name, sep) && key != "" && sep !in key
    requires |EscapeName(name, sep)| + 1 + |key| < BufSiz
    ensures ParsePath(EscapeName(name, sep) + [sep] + key, sep) == Target(name, Some(key), false, false)
  {
    var e := EscapeName(name, sep);
    var segs := Split(e, sep);
    EscapedSegments(name, key, sep);
    SplitPlain(key, sep);
    EscapeFirst(name, sep);
    ParseNamed(e + [sep] + key, sep, segs + [key], name, |segs|);
  }
}
