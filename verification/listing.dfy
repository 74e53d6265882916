/** The listings of iniq: the pairs of one section with DEFAULT inheritance
    (`print_pairs`), one value (`print_value`), the section names
    (`print_sections`) and the full dump (`print_output`). */
module Listing {
  import opened Outcomes
  import opened Text
  import opened IniModel
  import opened Format

  predicate HasKey(ps: seq<Pair>, k: string) {
    exists i :: 0 <= i < |ps| && ps[i].key == k
  }

  /** The DEFAULT pairs a section inherits: those whose key the section does
      not define itself, in DEFAULT's order. */
  function Inherited(dps: seq<Pair>, own: seq<Pair>): (r: seq<Pair>)
    ensures forall p :: p in r <==> p in dps && !HasKey(own, p.key)
    ensures |r| <= |dps|
    decreases |dps|
  {
    if |dps| == 0 then []
    else
      var init := Inherited(dps[..|dps| - 1], own);
      var last := dps[|dps| - 1];
      assert dps == dps[..|dps| - 1] + [last];
      if HasKey(own, last.key) then init else init + [last]
  }

  /** What a section listing shows, in order: the inherited DEFAULT pairs,
      then all of the section's own pairs. */
  function Items(s: Section, d: Option<Section>): seq<Pair> {
    (if d.Some? then Inherited(d.value.pairs, s.pairs) else []) + s.pairs
  }

  /** Number of pairs in `ps` with key `k`. */
  function KeyCount(ps: seq<Pair>, k: string): nat
    decreases |ps|
  {
    if |ps| == 0 then 0
    else KeyCount(ps[..|ps| - 1], k) + (if ps[|ps| - 1].key == k then 1 else 0)
  }

  lemma {:induction false} KeyCountAppend(x: seq<Pair>, y: seq<Pair>, k: string)
    ensures KeyCount(x + y, k) == KeyCount(x, k) + KeyCount(y, k)
    decreases |y|
  {
    if |y| == 0 {
      assert x + y == x;
    } else {
      assert (x + y)[..|x + y| - 1] == x + y[..|y| - 1];
      KeyCountAppend(x, y[..|y| - 1], k);
    }
  }

  lemma {:induction false} KeyCountInherited(dps: seq<Pair>, own: seq<Pair>, k: string)
    ensures KeyCount(Inherited(dps, own), k) == if HasKey(own, k) then 0 else KeyCount(dps, k)
    decreases |dps|
  {
    if |dps| > 0 {
      var init := dps[..|dps| - 1];
      KeyCountInherited(init, own, k);
      var last := dps[|dps| - 1];
      if !HasKey(own, last.key) {
        KeyCountAppend(Inherited(init, own), [last], k);
        assert [last][..0] == [];
      }
    }
  }

  /** The merge never duplicates a key: a key the section defines appears
      exactly as often as in the section, any other key exactly as often as
      in DEFAULT. */
  lemma ItemsKeyCount(s: Section, d: Option<Section>, k: string)
    ensures KeyCount(Items(s, d), k)
         == if HasKey(s.pairs, k) || d.None? then KeyCount(s.pairs, k)
            else KeyCount(d.value.pairs, k) + KeyCount(s.pairs, k)
  {
    var inh := if d.Some? then Inherited(d.value.pairs, s.pairs) else [];
    KeyCountAppend(inh, s.pairs, k);
    if d.Some? {
      KeyCountInherited(d.value.pairs, s.pairs, k);
    }
  }

  lemma {:induction false} InheritNothing(dps: seq<Pair>, own: seq<Pair>)
    requires forall i :: 0 <= i < |dps| ==> HasKey(own, dps[i].key)
    ensures Inherited(dps, own) == []
    decreases |dps|
  {
    if |dps| > 0 {
      InheritNothing(dps[..|dps| - 1], own);
    }
  }

  /** DEFAULT listed as itself inherits nothing from itself. */
  lemma SelfInheritsNothing(s: Section)
    ensures Items(s, Some(s)) == s.pairs
  {
    forall i | 0 <= i < |s.pairs|
      ensures HasKey(s.pairs, s.pairs[i].key)
    {
    }
    InheritNothing(s.pairs, s.pairs);
  }

  /** Position of the first pair with key `k`: the scan of `print_value`. */
  function FirstKeyIndex(ps: seq<Pair>, k: string): (r: Option<nat>)
    ensures r.Some? ==> r.value < |ps| && ps[r.value].key == k
    ensures forall j :: 0 <= j < |ps| && (r.None? || j < r.value) ==> ps[j].key != k
    decreases |ps|
  {
    if |ps| == 0 then None
    else if ps[0].key == k then Some(0)
    else Shift(FirstKeyIndex(ps[1..], k), 1)
  }

  /** The first pair with key `k`, if any. */
  function Lookup(ps: seq<Pair>, k: string): (r: Option<Pair>)
    ensures r.Some? <==> HasKey(ps, k)
    ensures r.Some? ==> r.value in ps && r.value.key == k
  {
    match FirstKeyIndex(ps, k)
    case None => None
    case Some(i) => Some(ps[i])
  }

  lemma LookupAppend(x: seq<Pair>, y: seq<Pair>, k: string)
    ensures Lookup(x + y, k) == if HasKey(x, k) then Lookup(x, k) else Lookup(y, k)
  {
    var xy := x + y;
    if HasKey(x, k) {
      var i := FirstKeyIndex(x, k).value;
      assert xy[i] == x[i];
      assert forall j :: 0 <= j < i ==> xy[j] == x[j];
      assert FirstKeyIndex(xy, k) == Some(i);
    } else if HasKey(y, k) {
      var i := FirstKeyIndex(y, k).value;
      assert xy[|x| + i] == y[i];
      assert forall j :: |x| <= j < |x| + i ==> xy[j] == y[j - |x|];
      assert forall j :: 0 <= j < |x| ==> xy[j] == x[j];
      assert FirstKeyIndex(xy, k) == Some(|x| + i);
    } else {
      assert forall j :: 0 <= j < |xy| ==> xy[j] == if j < |x| then x[j] else y[j - |x|];
      assert !HasKey(xy, k);
    }
  }

  /** A key the section does not define is inherited exactly when DEFAULT has it. */
  lemma InheritedHasKey(dps: seq<Pair>, own: seq<Pair>, k: string)
    requires !HasKey(own, k)
    ensures HasKey(Inherited(dps, own), k) <==> HasKey(dps, k)
  {
    var inh := Inherited(dps, own);
    if HasKey(dps, k) {
      var p := Lookup(dps, k).value;
      assert p in inh;
      var i :| 0 <= i < |inh| && inh[i] == p;
    }
    if HasKey(inh, k) {
      var p := Lookup(inh, k).value;
      assert p in dps;
      var i :| 0 <= i < |dps| && dps[i] == p;
    }
  }

  lemma {:induction false} LookupInherited(dps: seq<Pair>, own: seq<Pair>, k: string)
    requires !HasKey(own, k)
    ensures Lookup(Inherited(dps, own), k) == Lookup(dps, k)
    decreases |dps|
  {
    if |dps| > 0 {
      var init := dps[..|dps| - 1];
      var last := dps[|dps| - 1];
      var inh := Inherited(init, own);
      LookupInherited(init, own, k);
      InheritedHasKey(init, own, k);
      assert dps == init + [last];
      LookupAppend(init, [last], k);
      if !HasKey(own, last.key) {
        assert Inherited(dps, own) == inh + [last];
        LookupAppend(inh, [last], k);
      } else {
        assert Inherited(dps, own) == inh;
        assert last.key != k;
        assert Lookup([last], k) == None;
      }
    }
  }

  /** The listing and the single-value lookup agree: the first pair with a
      key among the listed items is the section's own when it has one, and
      otherwise DEFAULT's. */
  lemma ItemsLookup(s: Section, d: Option<Section>, k: string)
    ensures Lookup(Items(s, d), k)
         == if HasKey(s.pairs, k) || d.None? then Lookup(s.pairs, k) else Lookup(d.value.pairs, k)
  {
    var inh := if d.Some? then Inherited(d.value.pairs, s.pairs) else [];
    LookupAppend(inh, s.pairs, k);
    if d.Some? {
      if !HasKey(s.pairs, k) {
        LookupInherited(d.value.pairs, s.pairs, k);
        if !HasKey(inh, k) {
          assert Lookup(inh, k) == None;
        }
      }
    }
  }

  /** Each item rendered by `print_pair`; the first refused format stops all. */
  function RenderEach(fmt: Option<string>, items: seq<Pair>, keysOnly: bool): (r: Result<seq<string>, Error>)
    ensures r.Failure? <==> |items| > 0 && fmt.Some? && PairFormatInvalid(fmt.value, keysOnly)
    ensures r.Failure? ==> r.error == BadPairFormat
    ensures r.Success? ==> |r.value| == |items|
    ensures r.Success? ==> forall i :: 0 <= i < |items| ==> RenderPair(fmt, items[i], keysOnly) == Success(r.value[i])
    decreases |items|
  {
    if |items| == 0 then Success([])
    else
      var init :- RenderEach(fmt, items[..|items| - 1], keysOnly);
      var last :- RenderPair(fmt, items[|items| - 1], keysOnly);
      Success(init + [last])
  }

  /** The rendered items joined by `sep`, with no leading or trailing separator. */
  function RenderJoined(fmt: Option<string>, items: seq<Pair>, keysOnly: bool, sep: char): Result<string, Error> {
    var parts :- RenderEach(fmt, items, keysOnly);
    Success(Join(parts, [sep]))
  }

  /** A section listing: its items rendered and joined by `sep`. */
  function RenderPairs(fmt: Option<string>, s: Section, d: Option<Section>, keysOnly: bool, sep: char): Result<string, Error> {
    RenderJoined(fmt, Items(s, d), keysOnly, sep)
  }

  lemma RenderEachSnoc(fmt: Option<string>, items: seq<Pair>, p: Pair, keysOnly: bool, parts: seq<string>, x: string)
    requires RenderEach(fmt, items, keysOnly) == Success(parts)
    requires RenderPair(fmt, p, keysOnly) == Success(x)
    ensures RenderEach(fmt, items + [p], keysOnly) == Success(parts + [x])
  {
    assert (items + [p])[..|items|] == items;
  }

  lemma JoinSnoc(parts: seq<string>, x: string, sep: string)
    ensures Join(parts + [x], sep) == if |parts| == 0 then x else Join(parts, sep) + sep + x
  {
    assert (parts + [x])[..|parts|] == parts;
  }

  /** The first loop of `print_pairs`: inherited DEFAULT pairs, a separator
      before each but the first. A dry run only counts. */
  method PrintInherited(fmt: Option<string>, dps: seq<Pair>, own: seq<Pair>, keysOnly: bool, sep: char, dryRun: bool)
    returns (out: Result<string, Error>, n: nat)
    ensures out.Success? ==> n == |Inherited(dps, own)|
    ensures dryRun ==> out == Success("")
    ensures !dryRun ==> out == RenderJoined(fmt, Inherited(dps, own), keysOnly, sep)
  {
    var text := "";
    ghost var parts: seq<string> := [];
    n := 0;
    var k := 0;
    while k < |dps|
      invariant k <= |dps|
      invariant n == |Inherited(dps[..k], own)|
      invariant !dryRun ==> RenderEach(fmt, Inherited(dps[..k], own), keysOnly) == Success(parts)
      invariant !dryRun ==> text == Join(parts, [sep])
      invariant dryRun ==> text == ""
    {
      assert dps[..k + 1][..k] == dps[..k];
      if !HasKey(own, dps[k].key) {
        if !dryRun {
          var r := RenderPair(fmt, dps[k], keysOnly);
          if r.Failure? {
            return Failure(r.error), n;
          }
          if n > 0 {
            text := text + [sep];
          }
          text := text + r.value;
          RenderEachSnoc(fmt, Inherited(dps[..k], own), dps[k], keysOnly, parts, r.value);
          JoinSnoc(parts, r.value, [sep]);
          parts := parts + [r.value];
        }
        n := n + 1;
      }
      k := k + 1;
    }
    assert dps[..|dps|] == dps;
    out := Success(text);
  }

  /** Standard output after the rendered `parts` of `items`, with a
      separator already printed for a next item when `pending`. */
  ghost predicate Printed(fmt: Option<string>, items: seq<Pair>, keysOnly: bool, sep: char,
                          parts: seq<string>, text: string, pending: bool) {
    && RenderEach(fmt, items, keysOnly) == Success(parts)
    && text == Join(parts, [sep]) + (if pending then [sep] else [])
  }

  lemma PrintedStep(fmt: Option<string>, items: seq<Pair>, p: Pair, keysOnly: bool, sep: char,
                    parts: seq<string>, text: string, pending: bool, x: string, more: bool)
    requires Printed(fmt, items, keysOnly, sep, parts, text, pending)
    requires pending <==> |parts| > 0
    requires RenderPair(fmt, p, keysOnly) == Success(x)
    ensures Printed(fmt, items + [p], keysOnly, sep, parts + [x], text + x + (if more then [sep] else []), more)
  {
    RenderEachSnoc(fmt, items, p, keysOnly, parts, x);
    JoinSnoc(parts, x, [sep]);
  }

  /** One item that cannot be rendered fails the whole listing. */
  lemma RenderFailsOn(fmt: Option<string>, items: seq<Pair>, p: Pair, keysOnly: bool, sep: char)
    requires p in items
    requires RenderPair(fmt, p, keysOnly).Failure?
    ensures RenderJoined(fmt, items, keysOnly, sep) == Failure(BadPairFormat)
  {
  }

  /** With nothing pending, the printed text is the joined rendering. */
  lemma PrintedDone(fmt: Option<string>, items: seq<Pair>, keysOnly: bool, sep: char,
                    parts: seq<string>, text: string)
    requires Printed(fmt, items, keysOnly, sep, parts, text, false)
    ensures RenderJoined(fmt, items, keysOnly, sep) == Success(text)
  {
    assert Join(parts, [sep]) + [] == Join(parts, [sep]);
  }

  lemma SliceSnoc(a: seq<Pair>, b: seq<Pair>, j: nat)
    requires j < |b|
    ensures a + b[..j + 1] == (a + b[..j]) + [b[j]]
  {
  }

  /** The second loop of `print_pairs`: the section's own pairs, each
      followed by a separator except the last, continuing the output of the
      inherited pairs. A dry run only counts. */
  method PrintOwn(fmt: Option<string>, ghost inh: seq<Pair>, own: seq<Pair>, keysOnly: bool, sep: char,
                  dryRun: bool, text0: string, ghost parts0: seq<string>)
    returns (out: Result<string, Error>, n: nat)
    requires !dryRun ==> Printed(fmt, inh, keysOnly, sep, parts0, text0, |parts0| > 0 && |own| > 0)
    requires dryRun ==> text0 == ""
    ensures out.Success? ==> n == |own|
    ensures dryRun ==> out == Success("")
    ensures !dryRun ==> out == RenderJoined(fmt, inh + own, keysOnly, sep)
  {
    var text := text0;
    ghost var parts := parts0;
    ghost var done := inh;
    ghost var all := inh + own;
    assert inh + own[..0] == inh;
    n := 0;
    while n < |own|
      invariant n <= |own|
      invariant done == inh + own[..n]
      invariant !dryRun ==> Printed(fmt, done, keysOnly, sep, parts, text, |parts| > 0 && n < |own|)
      invariant dryRun ==> text == ""
    {
      SliceSnoc(inh, own, n);
      if !dryRun {
        var r := RenderPair(fmt, own[n], keysOnly);
        if r.Failure? {
          assert own[n] in all;
          RenderFailsOn(fmt, all, own[n], keysOnly, sep);
          return Failure(r.error), n;
        }
        PrintedStep(fmt, done, own[n], keysOnly, sep, parts, text, |parts| > 0, r.value, n + 1 < |own|);
        text := text + r.value + (if n + 1 < |own| then [sep] else []);
        parts := parts + [r.value];
      }
      done := done + [own[n]];
      n := n + 1;
    }
    assert own[..|own|] == own;
    if !dryRun {
      PrintedDone(fmt, done, keysOnly, sep, parts, text);
    }
    out := Success(text);
  }

  /** `print_pairs`: the inherited DEFAULT pairs, a separator between the two
      groups when both are non-empty, then the own pairs; the count of all
      items printed. A dry run only counts. */
  method PrintPairs(fmt: Option<string>, s: Section, d: Option<Section>, keysOnly: bool, sep: char, dryRun: bool)
    returns (out: Result<string, Error>, n: nat)
    ensures out.Success? ==> n == |Items(s, d)|
    ensures dryRun ==> out == Success("")
    ensures !dryRun ==> out == RenderPairs(fmt, s, d, keysOnly, sep)
  {
    var text := "";
    ghost var parts: seq<string> := [];
    n := 0;
    ghost var inh: seq<Pair> := [];
    if d.Some? {
      var r;
      r, n := PrintInherited(fmt, d.value.pairs, s.pairs, keysOnly, sep, dryRun);
      inh := Inherited(d.value.pairs, s.pairs);
      if r.Failure? {
        assert r == Failure(BadPairFormat) && RenderPairs(fmt, s, d, keysOnly, sep) == r by {
          assert |Items(s, d)| >= |inh| > 0;
          assert RenderEach(fmt, Items(s, d), keysOnly) == Failure(BadPairFormat);
        }
        return r, n;
      }
      text := r.value;
      if !dryRun {
        parts := RenderEach(fmt, inh, keysOnly).value;
        assert Printed(fmt, inh, keysOnly, sep, parts, text, false) && |parts| == n;
      }
      if !dryRun && n > 0 && |s.pairs| > 0 {
        text := text + [sep];
      }
    }
    assert !dryRun ==> Printed(fmt, inh, keysOnly, sep, parts, text, |parts| > 0 && |s.pairs| > 0);
    assert inh + s.pairs == Items(s, d);
    var m;
    out, m := PrintOwn(fmt, inh, s.pairs, keysOnly, sep, dryRun, text, parts);
    n := n + m;
  }

  /** `print_value`: the first pair of the section with the key, rendered
      with the value-only format `%v` unless a format is given and followed
      by a newline; absent when there is no section or no such key. */
  function PrintValue(fmt: Option<string>, s: Option<Section>, key: string): (r: Option<Result<string, Error>>)
    ensures r.None? <==> s.None? || !HasKey(s.value.pairs, key)
    ensures r.Some? ==> (r.value.Failure? <==> fmt.Some? && PairFormatInvalid(fmt.value, false))
    ensures r.Some? && r.value.Failure? ==> r.value.error == BadPairFormat
    ensures r.Some? && fmt.None? ==> r.value == Success(Quote(Lookup(s.value.pairs, key).value.value) + "\n")
    ensures r.Some? ==>
      r.value == (var line :- RenderPair(Some(fmt.GetOr(ValueMark)), Lookup(s.value.pairs, key).value, false);
                  Success(line + "\n"))
  {
    match s
    case None => None
    case Some(sec) =>
      match Lookup(sec.pairs, key)
      case None => None
      case Some(p) =>
        var f := fmt.GetOr(ValueMark);
        RenderValueOnly("", "", p, false);
        assert "" + ValueMark + "" == ValueMark;
        assert "" + Quote(p.value) + "" == Quote(p.value);
        Some(var line :- RenderPair(Some(f), p, false); Success(line + "\n"))
  }

  /** A section shown by the section listing: not the unnamed one, and not
      DEFAULT unless `-d`. */
  predicate Listed(name: string, includeDefault: bool) {
    name != "" && (includeDefault || name != DefaultName)
  }

  function ListedNames(m: Model, includeDefault: bool): (r: seq<string>)
    ensures forall n :: n in r <==> n in Names(m) && Listed(n, includeDefault)
    decreases |m|
  {
    if |m| == 0 then []
    else
      var init := ListedNames(m[..|m| - 1], includeDefault);
      var last := m[|m| - 1].name;
      assert Names(m) == Names(m[..|m| - 1]) + [last];
      if Listed(last, includeDefault) then init + [last] else init
  }

  /** Each name as the section format prints it. */
  function RenderedNames(fmt: Option<string>, names: seq<string>): (r: seq<string>)
    ensures |r| == |names|
    ensures forall i :: 0 <= i < |names| ==> r[i] == RenderSectionName(fmt, names[i])
    ensures fmt.None? ==> r == names
  {
    seq(|names|, i requires 0 <= i < |names| => RenderSectionName(fmt, names[i]))
  }

  /** The loop of `print_sections`: a line for each listed section, in model
      order, through the section format. */
  function SectionLines(fmt: Option<string>, m: Model, includeDefault: bool): (r: string)
    ensures r == Lines(RenderedNames(fmt, ListedNames(m, includeDefault)))
    decreases |m|
  {
    if |m| == 0 then ""
    else
      var init := m[..|m| - 1];
      var last := m[|m| - 1].name;
      var names := ListedNames(init, includeDefault);
      assert Listed(last, includeDefault) ==>
        RenderedNames(fmt, names + [last]) == RenderedNames(fmt, names) + [RenderSectionName(fmt, last)];
      SectionLines(fmt, init, includeDefault)
        + (if Listed(last, includeDefault) then RenderSectionName(fmt, last) + "\n" else "")
  }

  /** `print_sections`: the listed names one per line, and the number of
      ALL sections, hidden ones included. */
  function PrintSections(fmt: Option<string>, m: Model, includeDefault: bool): (r: Result<(string, nat), Error>)
    ensures r.Failure? <==> fmt.Some? && !Contains(fmt.value, SectionMark)
    ensures r.Failure? ==> r.error == BadSectionFormat
    ensures r.Success? ==> r.value.1 == |m|
    ensures r.Success? ==> r.value.0 == Lines(RenderedNames(fmt, ListedNames(m, includeDefault)))
    ensures r.Success? && fmt.None? ==> r.value.0 == Lines(ListedNames(m, includeDefault))
  {
    if fmt.Some? && !Contains(fmt.value, SectionMark) then Failure(BadSectionFormat)
    else Success((SectionLines(fmt, m, includeDefault), |m|))
  }

  /** A section shown by the full dump: every one but DEFAULT unless `-d`. */
  predicate Dumped(s: Section, includeDefault: bool) {
    includeDefault || s.name != DefaultName
  }

  /** One line of the full dump: the section as the pseudo-pair
      `section=<name>`, a space when it has items, its items joined by
      spaces, a newline. */
  function OutputLine(fmt: Option<string>, s: Section, d: Option<Section>): Result<string, Error> {
    var head :- RenderPair(fmt, Pair("section", s.name), false);
    var body :- RenderPairs(fmt, s, d, false, ' ');
    Success(head + (if |Items(s, d)| > 0 then " " else "") + body + "\n")
  }

  /** `print_output`: the dump lines of the shown sections, in model order. */
  function PrintOutput(fmt: Option<string>, m: Model, d: Option<Section>, includeDefault: bool): (r: Result<string, Error>)
    ensures r.Failure? <==>
      && fmt.Some? && PairFormatInvalid(fmt.value, false)
      && exists j :: 0 <= j < |m| && Dumped(m[j], includeDefault)
    ensures r.Failure? ==> r.error == BadPairFormat
    decreases |m|
  {
    if |m| == 0 then Success("")
    else
      var init := m[..|m| - 1];
      var last := m[|m| - 1];
      assert forall j :: 0 <= j < |init| ==> init[j] == m[j];
      var head :- PrintOutput(fmt, init, d, includeDefault);
      if Dumped(last, includeDefault) then
        var line :- OutputLine(fmt, last, d);
        Success(head + line)
      else Success(head)
  }

  /** The sections the full dump shows, in model order. */
  function DumpedSections(m: Model, includeDefault: bool): (r: seq<Section>)
    ensures forall s :: s in r <==> s in m && Dumped(s, includeDefault)
    decreases |m|
  {
    if |m| == 0 then []
    else
      var last := m[|m| - 1];
      assert m == m[..|m| - 1] + [last];
      var init := DumpedSections(m[..|m| - 1], includeDefault);
      if Dumped(last, includeDefault) then init + [last] else init
  }

  /** The dump line of each section, empty where the format refuses it. */
  function DumpLines(fmt: Option<string>, ss: seq<Section>, d: Option<Section>): (r: seq<string>)
    ensures |r| == |ss|
    ensures forall i :: 0 <= i < |ss| && OutputLine(fmt, ss[i], d).Success? ==> r[i] == OutputLine(fmt, ss[i], d).value
  {
    seq(|ss|, i requires 0 <= i < |ss| =>
      match OutputLine(fmt, ss[i], d)
      case Success(line) => line
      case Failure(_) => "")
  }

  lemma ConcatSnoc(xs: seq<string>, x: string)
    ensures Concat(xs + [x]) == Concat(xs) + x
  {
    assert (xs + [x])[..|xs|] == xs;
  }

  lemma DumpLinesSnoc(fmt: Option<string>, ss: seq<Section>, s: Section, d: Option<Section>, line: string)
    requires OutputLine(fmt, s, d) == Success(line)
    ensures DumpLines(fmt, ss + [s], d) == DumpLines(fmt, ss, d) + [line]
  {
    var a := DumpLines(fmt, ss + [s], d);
    var b := DumpLines(fmt, ss, d) + [line];
    forall i | 0 <= i < |a|
      ensures a[i] == b[i]
    {
      if i < |ss| {
        assert (ss + [s])[i] == ss[i];
      }
    }
  }

  /** One more section: the dump so far, then that section's line when it is shown. */
  lemma DumpStep(fmt: Option<string>, m: Model, d: Option<Section>, includeDefault: bool)
    requires |m| > 0 && PrintOutput(fmt, m, d, includeDefault).Success?
    ensures var init := m[..|m| - 1];
            var last := m[|m| - 1];
            var head := PrintOutput(fmt, init, d, includeDefault);
            && head.Success?
            && DumpedSections(m, includeDefault)
               == DumpedSections(init, includeDefault) + (if Dumped(last, includeDefault) then [last] else [])
            && (Dumped(last, includeDefault) ==>
                  && OutputLine(fmt, last, d).Success?
                  && PrintOutput(fmt, m, d, includeDefault).value == head.value + OutputLine(fmt, last, d).value)
            && (!Dumped(last, includeDefault) ==> PrintOutput(fmt, m, d, includeDefault).value == head.value)
  {
  }

  /** A dump that succeeds printed the line of every shown section, one after
      another in model order, and nothing else. */
  lemma {:induction false} DumpText(fmt: Option<string>, m: Model, d: Option<Section>, includeDefault: bool)
    ensures var r := PrintOutput(fmt, m, d, includeDefault);
            var ds := DumpedSections(m, includeDefault);
            r.Success? ==>
              && (forall i :: 0 <= i < |ds| ==> OutputLine(fmt, ds[i], d).Success?)
              && r.value == Concat(DumpLines(fmt, ds, d))
    decreases |m|
  {
    var r := PrintOutput(fmt, m, d, includeDefault);
    if |m| > 0 && r.Success? {
      var init := m[..|m| - 1];
      var last := m[|m| - 1];
      var di := DumpedSections(init, includeDefault);
      DumpStep(fmt, m, d, includeDefault);
      DumpText(fmt, init, d, includeDefault);
      if Dumped(last, includeDefault) {
        var line := OutputLine(fmt, last, d).value;
        DumpLinesSnoc(fmt, di, last, d, line);
        ConcatSnoc(DumpLines(fmt, di, d), line);
      } else {
        assert DumpedSections(m, includeDefault) == di;
      }
    }
  }
}
