/** The in-memory configuration of iniq: an ordered list of sections, each
    an ordered list of key/value pairs, built one parser callback at a time
    (iniq.c `handler`) and searched by name and index (`get_section`). */
module IniModel {
  import opened Outcomes

  /** The section whose pairs every other section inherits. */
  const DefaultName: string := "DEFAULT"

  /** The path token that addresses the unnamed section, stored under "". */
  const NoSectionToken: string := "."

  datatype Pair = Pair(key: string, value: string)

  datatype Section = Section(name: string, pairs: seq<Pair>)

  /** Sections in the order the handler created them. */
  type Model = seq<Section>

  /** One callback of the INI tokenizer: a pair under `section`, or a bare
      `[section]` header when `pair` is absent. */
  datatype Entry = Entry(section: string, pair: Option<Pair>)

  /** The two global flags the handler reads (`-D` and `-c`). */
  datatype IngestFlags = IngestFlags(disableDefault: bool, combineSections: bool)

  predicate HasNamed(m: Model, n: string) {
    exists j :: 0 <= j < |m| && m[j].name == n
  }

  function Names(m: Model): (r: seq<string>)
    ensures |r| == |m|
    ensures forall j :: 0 <= j < |m| ==> r[j] == m[j].name
  {
    seq(|m|, j requires 0 <= j < |m| => m[j].name)
  }

  /** With `-D`, entries under DEFAULT are never stored. */
  predicate Dropped(f: IngestFlags, e: Entry) {
    f.disableDefault && e.section == DefaultName
  }

  /** The handler appends a fresh section node: the name is new, or the
      entry is a bare header of a non-DEFAULT section while `-c` is off. */
  predicate OpensSection(m: Model, f: IngestFlags, e: Entry) {
    && !Dropped(f, e)
    && (|| !HasNamed(m, e.section)
        || (e.pair.None? && e.section != DefaultName && !f.combineSections))
  }

  /** `r` is `m` with at most one section added at the end and pairs added
      only at the ends of sections: nothing renamed, reordered or removed. */
  predicate Grows(m: Model, r: Model) {
    && |m| <= |r|
    && forall i :: 0 <= i < |m| ==> r[i].name == m[i].name && m[i].pairs <= r[i].pairs
  }

  /** `p` went to the end of the last section named `name` in `r`, and every
      other existing section is untouched. */
  predicate AppendedToLast(m: Model, r: Model, name: string, p: Pair) {
    && |m| <= |r|
    && LastNamed(r, name).Some?
    && var j := LastNamed(r, name).value;
    && r[j].pairs == (if j < |m| then m[j].pairs else []) + [p]
    && forall i :: 0 <= i < |m| && i != j ==> r[i] == m[i]
  }

  /** Index of the last section called `name`; the handler's search loop
      keeps overwriting its match, so the last one wins. */
  function LastNamed(m: Model, name: string): (r: Option<nat>)
    ensures r.Some? ==> r.value < |m| && m[r.value].name == name
    ensures forall j :: 0 <= j < |m| && (r.None? || r.value < j) ==> m[j].name != name
    decreases |m|
  {
    if |m| == 0 then None
    else if m[|m| - 1].name == name then Some(|m| - 1)
    else LastNamed(m[..|m| - 1], name)
  }

  /** One handler callback. */
  function AddEntry(m: Model, f: IngestFlags, e: Entry): (r: Model)
    ensures Dropped(f, e) ==> r == m
    ensures Grows(m, r)
    ensures |r| == if OpensSection(m, f, e) then |m| + 1 else |m|
    ensures OpensSection(m, f, e) ==> r[|m|].name == e.section
    ensures e.pair.None? ==> r[..|m|] == m && (OpensSection(m, f, e) ==> r[|m|].pairs == [])
    ensures !Dropped(f, e) && e.pair.Some? ==> AppendedToLast(m, r, e.section, e.pair.value)
  {
    if Dropped(f, e) then m
    else
      var found := LastNamed(m, e.section);
      var grown :=
        if found.None? || !(e.pair.Some? || e.section == DefaultName || f.combineSections)
        then m + [Section(e.section, [])]
        else m;
      match e.pair
      case None => grown
      case Some(p) =>
        var j := if |grown| > |m| then |m| else found.value;
        grown[j := grown[j].(pairs := grown[j].pairs + [p])]
  }

  /** The configuration after the tokenizer has reported `es` in file order. */
  function Ingest(f: IngestFlags, es: seq<Entry>): Model
    decreases |es|
  {
    if |es| == 0 then [] else AddEntry(Ingest(f, es[..|es| - 1]), f, es[|es| - 1])
  }

  lemma GrowsTransitive(a: Model, b: Model, c: Model)
    requires Grows(a, b) && Grows(b, c)
    ensures Grows(a, c)
  {
    forall i | 0 <= i < |a|
      ensures a[i].pairs <= c[i].pairs
    {
      assert a[i].pairs <= b[i].pairs <= c[i].pairs;
    }
  }

  /** Later callbacks only ever add: the configuration after a prefix of the
      input is kept, in order, inside the final one. */
  lemma {:induction false} IngestOnlyAppends(f: IngestFlags, es: seq<Entry>, k: nat)
    requires k <= |es|
    ensures Grows(Ingest(f, es[..k]), Ingest(f, es))
    decreases |es| - k
  {
    if k < |es| {
      IngestOnlyAppends(f, es, k + 1);
      assert es[..k + 1][..k] == es[..k];
      GrowsTransitive(Ingest(f, es[..k]), Ingest(f, es[..k + 1]), Ingest(f, es));
    } else {
      assert es[..k] == es;
    }
  }

  /** At most one section carries the name `n`. */
  predicate NameOnce(m: Model, n: string) {
    forall i, j :: 0 <= i < j < |m| && m[i].name == n ==> m[j].name != n
  }

  predicate UniqueNames(m: Model) {
    forall i, j :: 0 <= i < j < |m| ==> m[i].name != m[j].name
  }

  /** A name the handler never duplicates stays single: DEFAULT always,
      and every name when `-c` is on. */
  lemma AddEntryKeepsNameOnce(m: Model, f: IngestFlags, e: Entry, n: string)
    requires NameOnce(m, n)
    requires f.combineSections || n == DefaultName
    ensures NameOnce(AddEntry(m, f, e), n)
  {
    var r := AddEntry(m, f, e);
    if OpensSection(m, f, e) && e.section == n {
      assert !HasNamed(m, n);
    }
  }

  /** DEFAULT is stored at most once, whatever the flags. */
  lemma {:induction false} IngestSingleDefault(f: IngestFlags, es: seq<Entry>)
    ensures NameOnce(Ingest(f, es), DefaultName)
    decreases |es|
  {
    if |es| > 0 {
      IngestSingleDefault(f, es[..|es| - 1]);
      AddEntryKeepsNameOnce(Ingest(f, es[..|es| - 1]), f, es[|es| - 1], DefaultName);
    }
  }

  /** With `-c`, every section name is stored at most once. */
  lemma {:induction false} IngestCombinedUnique(f: IngestFlags, es: seq<Entry>)
    requires f.combineSections
    ensures UniqueNames(Ingest(f, es))
    decreases |es|
  {
    if |es| > 0 {
      var m := Ingest(f, es[..|es| - 1]);
      IngestCombinedUnique(f, es[..|es| - 1]);
      var r := AddEntry(m, f, es[|es| - 1]);
      forall i, j | 0 <= i < j < |r|
        ensures r[i].name != r[j].name
      {
        AddEntryKeepsNameOnce(m, f, es[|es| - 1], r[i].name);
      }
    }
  }

  /** Section names of the entries the handler keeps, in input order. */
  function KeptSections(f: IngestFlags, es: seq<Entry>): seq<string>
    decreases |es|
  {
    if |es| == 0 then []
    else
      var init := KeptSections(f, es[..|es| - 1]);
      if Dropped(f, es[|es| - 1]) then init else init + [es[|es| - 1].section]
  }

  /** `s` without repeats, each element where it first appears. */
  function FirstAppearances(s: seq<string>): (r: seq<string>)
    ensures forall x :: x in r <==> x in s
    decreases |s|
  {
    if |s| == 0 then []
    else
      var init := FirstAppearances(s[..|s| - 1]);
      if s[|s| - 1] in init then init else init + [s[|s| - 1]]
  }

  /** With `-c`, sections are listed in the order their names first appear
      in the input. */
  lemma {:induction false} IngestCombinedOrder(f: IngestFlags, es: seq<Entry>)
    requires f.combineSections
    ensures Names(Ingest(f, es)) == FirstAppearances(KeptSections(f, es))
    decreases |es|
  {
    if |es| > 0 {
      var m := Ingest(f, es[..|es| - 1]);
      var e := es[|es| - 1];
      IngestCombinedOrder(f, es[..|es| - 1]);
      var r := AddEntry(m, f, e);
      if !Dropped(f, e) {
        if HasNamed(m, e.section) {
          var j :| 0 <= j < |m| && m[j].name == e.section;
          assert Names(m)[j] == e.section;
          assert Names(r) == Names(m);
        } else {
          assert e.section !in Names(m);
          assert Names(r) == Names(m) + [e.section];
        }
      } else {
        assert Names(r) == Names(m);
      }
    }
  }

  /** Pairs of the kept entries under section `n`, in input order. */
  function PairsUnder(f: IngestFlags, es: seq<Entry>, n: string): seq<Pair>
    decreases |es|
  {
    if |es| == 0 then []
    else
      var init := PairsUnder(f, es[..|es| - 1], n);
      var e := es[|es| - 1];
      if !Dropped(f, e) && e.section == n && e.pair.Some? then init + [e.pair.value] else init
  }

  /** With `-c`, each section holds exactly the pairs written under its
      name, in file order, and a name never seen holds nothing. */
  ghost predicate PairsInFileOrder(f: IngestFlags, es: seq<Entry>) {
    var r := Ingest(f, es);
    && (forall j :: 0 <= j < |r| ==> r[j].pairs == PairsUnder(f, es, r[j].name))
    && (forall n :: !HasNamed(r, n) ==> PairsUnder(f, es, n) == [])
  }

  lemma CombinedPairsStep(f: IngestFlags, es: seq<Entry>)
    requires f.combineSections && |es| > 0
    requires PairsInFileOrder(f, es[..|es| - 1])
    ensures PairsInFileOrder(f, es)
  {
    var init := es[..|es| - 1];
    var m := Ingest(f, init);
    var e := es[|es| - 1];
    var r := Ingest(f, es);
    assert r == AddEntry(m, f, e);
    IngestCombinedUnique(f, es);
    forall n | !HasNamed(r, n)
      ensures PairsUnder(f, es, n) == []
    {
      if !Dropped(f, e) && e.pair.Some? {
        assert r[LastNamed(r, e.section).value].name == e.section;
      }
    }
    if !Dropped(f, e) && e.pair.Some? {
      var t := LastNamed(r, e.section).value;
      forall j | 0 <= j < |r|
        ensures r[j].pairs == PairsUnder(f, es, r[j].name)
      {
        if j == t {
          if t == |m| {
            assert !HasNamed(m, e.section);
          }
        } else {
          assert r[j].name != r[t].name;
          assert j < |m|;
        }
      }
    } else {
      forall j | 0 <= j < |r|
        ensures r[j].pairs == PairsUnder(f, es, r[j].name)
      {
        if j == |m| {
          assert !HasNamed(m, r[j].name);
        }
      }
    }
  }

  lemma {:induction false} IngestCombinedPairs(f: IngestFlags, es: seq<Entry>)
    requires f.combineSections
    ensures PairsInFileOrder(f, es)
    decreases |es|
  {
    if |es| > 0 {
      IngestCombinedPairs(f, es[..|es| - 1]);
      CombinedPairsStep(f, es);
    }
  }

  /** The stored name a path token stands for: "." is the unnamed section. */
  function StoredName(name: string): string {
    if name == NoSectionToken then "" else name
  }

  /** The sections called `n`, in model order. */
  function Named(m: Model, n: string): (r: seq<Section>)
    ensures |r| <= |m|
    ensures forall i :: 0 <= i < |r| ==> r[i].name == n
    ensures |r| > 0 <==> HasNamed(m, n)
    decreases |m|
  {
    if |m| == 0 then []
    else
      var rest := Named(m[1..], n);
      assert HasNamed(m, n) <==> m[0].name == n || HasNamed(m[1..], n) by {
        if HasNamed(m[1..], n) {
          var j :| 0 <= j < |m[1..]| && m[1..][j].name == n;
          assert m[j + 1].name == n;
        }
        if HasNamed(m, n) && m[0].name != n {
          var j :| 0 <= j < |m| && m[j].name == n;
          assert m[1..][j - 1].name == n;
        }
      }
      if m[0].name == n then [m[0]] + rest else rest
  }

  /** A name stored once yields at most one match. */
  lemma {:induction false} NameOnceNamed(m: Model, n: string)
    requires NameOnce(m, n)
    ensures |Named(m, n)| <= 1
    decreases |m|
  {
    if |m| > 0 {
      assert NameOnce(m[1..], n);
      NameOnceNamed(m[1..], n);
      if m[0].name == n {
        forall j | 0 <= j < |m[1..]|
          ensures m[1..][j].name != n
        {
          assert m[j + 1].name != n;
        }
      }
    }
  }

  /** The scan of `get_section`: skip matches while counting the index down. */
  function FindNth(m: Model, n: string, i: nat): (r: Option<Section>)
    ensures r.Some? <==> i < |Named(m, n)|
    ensures r.Some? ==> r.value == Named(m, n)[i]
    decreases |m|
  {
    if |m| == 0 then None
    else if m[0].name == n then (if i == 0 then Some(m[0]) else FindNth(m[1..], n, i - 1))
    else FindNth(m[1..], n, i)
  }

  /** The `i`-th (from 0) section called `name`, "." standing for "". */
  function GetSection(m: Model, name: string, i: nat): (r: Option<Section>)
    ensures r.Some? <==> i < |Named(m, StoredName(name))|
    ensures r.Some? ==> r.value == Named(m, StoredName(name))[i]
    ensures r.Some? ==> r.value in m && r.value.name == StoredName(name)
  {
    var r := FindNth(m, StoredName(name), i);
    if r.Some? then
      NamedIn(m, StoredName(name), i);
      r
    else r
  }

  lemma {:induction false} NamedIn(m: Model, n: string, i: nat)
    requires i < |Named(m, n)|
    ensures Named(m, n)[i] in m
    decreases |m|
  {
    if m[0].name == n {
      if i > 0 {
        NamedIn(m[1..], n, i - 1);
      }
    } else {
      NamedIn(m[1..], n, i);
    }
  }

  function ProbeCount(m: Model, name: string, i: nat): (r: nat)
    requires i <= |Named(m, StoredName(name))|
    ensures r == |Named(m, StoredName(name))|
    decreases |m| - i
  {
    if GetSection(m, name, i).Some? then ProbeCount(m, name, i + 1) else i
  }

  /** Count mode: probe indexes 0, 1, ... until `get_section` fails. */
  function CountSections(m: Model, name: string): (r: nat)
    ensures r == |Named(m, StoredName(name))|
    ensures r > 0 <==> HasNamed(m, StoredName(name))
  {
    ProbeCount(m, name, 0)
  }
}
