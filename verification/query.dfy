/** The dispatch at the end of `main`: what one run of iniq prints for a
    parsed configuration and its command-line options, and whether it ends
    with a failure status. */
module Query {
  import opened Outcomes
  import opened Text
  import opened IniModel
  import opened Format
  import opened Listing
  import opened PathSyntax

  /** The command-line options that shape the query (`-d -D -c -n -i -f -o -P -p`). */
  datatype Options = Options(
    includeDefault: bool,
    disableDefault: bool,
    combineSections: bool,
    countSections: bool,
    sectionIndex: nat,
    format: Option<string>,
    outputAll: bool,
    pathSep: char,
    path: Option<string>)

  predicate ValidOptions(o: Options) {
    o.path.Some? ==> ValidPath(o.path.value)
  }

  /** The section that others inherit from: the first DEFAULT, unless `-D`
      or a path into the unnamed section turned inheritance off. */
  function Inheritance(m: Model, o: Options, noInherit: bool): (d: Option<Section>)
    ensures d.Some? ==> d.value in m && d.value.name == DefaultName
    ensures d.Some? <==> !o.disableDefault && !noInherit && HasNamed(m, DefaultName)
  {
    if o.disableDefault || noInherit then None else GetSection(m, DefaultName, 0)
  }

  /** `-o`: the dump of every shown section; an empty configuration prints
      nothing and fails. */
  function DumpAll(fmt: Option<string>, m: Model, d: Option<Section>, includeDefault: bool): (r: Result<string, Error>)
    ensures r.Success? ==> |m| > 0
    ensures |m| == 0 ==> r == Failure(Empty(""))
    ensures r.Failure? ==> r.error == BadPairFormat || r.error == Empty("")
  {
    var text :- PrintOutput(fmt, m, d, includeDefault);
    if |m| > 0 then Success(text) else Failure(Empty(text))
  }

  /** A key lookup: the section's own value, else DEFAULT's, else the key is
      not found. The value printed is the one the section's listing shows
      first for that key. */
  function ValueOf(fmt: Option<string>, s: Section, d: Option<Section>, key: string, section: string): (r: Result<string, Error>)
    ensures var found := Lookup(Items(s, d), key);
            && (found.None? ==> r == Failure(KeyNotFound(key, section)))
            && (found.Some? && fmt.None? ==> r == Success(Quote(found.value.value) + "\n"))
            && (found.Some? && fmt.Some? && PairFormatInvalid(fmt.value, false) ==> r == Failure(BadPairFormat))
            && (found.Some? ==>
                  r == (var line :- RenderPair(Some(fmt.GetOr(ValueMark)), found.value, false);
                        Success(line + "\n")))
    ensures r.Failure? ==> r.error == BadPairFormat || r.error == KeyNotFound(key, section)
  {
    ItemsLookup(s, d, key);
    match PrintValue(fmt, Some(s), key)
    case Some(r) => r
    case None =>
      if d.None? then Failure(KeyNotFound(key, section))
      else
        match PrintValue(fmt, d, key)
        case Some(r) => r
        case None => Failure(KeyNotFound(key, section))
  }

  /** A run with a path, on the section the path selects. */
  function RunSection(m: Model, o: Options, t: Target, s: Section): (r: Result<string, Error>)
    ensures r.Failure? ==> r.error == BadPairFormat || r.error.KeyNotFound? || r.error.Empty?
  {
    var d := Inheritance(m, o, t.noInherit);
    if o.outputAll then DumpAll(o.format, m, d, o.includeDefault)
    else if t.key.Some? then ValueOf(o.format, s, d, t.key.value, t.section)
    else
      var text :- RenderPairs(o.format, s, d, t.keysOnly, '\n');
      Success(text + "\n")
  }

  /** A run with a path: counting, or a lookup of the selected section. */
  function RunPath(m: Model, o: Options, t: Target): Result<string, Error> {
    if o.countSections then
      var n := CountSections(m, t.section);
      var text := Decimal(n) + "\n";
      if n > 0 then Success(text) else Failure(Empty(text))
    else
      match GetSection(m, t.section, o.sectionIndex)
      case None => Failure(SectionNotFound(t.section, o.sectionIndex))
      case Some(s) => RunSection(m, o, t, s)
  }

  /** A run without a path: the dump, or the section listing. */
  function RunSections(m: Model, o: Options): Result<string, Error> {
    var d := Inheritance(m, o, false);
    if o.outputAll then DumpAll(o.format, m, d, o.includeDefault)
    else
      var listing :- PrintSections(o.format, m, o.includeDefault);
      if listing.1 == 0 then Failure(NoSections) else Success(listing.0)
  }

  /** One run of iniq over the configuration `m`. */
  function Run(m: Model, o: Options): Result<string, Error>
    requires ValidOptions(o)
  {
    if o.path.Some? then RunPath(m, o, ParsePath(o.path.value, o.pathSep))
    else RunSections(m, o)
  }

  /** A run over the entries of a file, in file order. */
  function RunFile(entries: seq<Entry>, o: Options): Result<string, Error>
    requires ValidOptions(o)
  {
    Run(Ingest(IngestFlags(o.disableDefault, o.combineSections), entries), o)
  }

  /** `-n`: the number of sections the path's section name matches, printed in
      decimal; the run fails exactly when there is none. */
  lemma CountQuery(m: Model, o: Options)
    requires ValidOptions(o) && o.path.Some? && o.countSections
    ensures var name := StoredName(ParsePath(o.path.value, o.pathSep).section);
            var r := Run(m, o);
            && (r.Success? <==> HasNamed(m, name))
            && (var text := if r.Success? then r.value else r.error.printed;
                && |text| > 1 && text[|text| - 1] == '\n'
                && DigitsValue(text[..|text| - 1]) == |Named(m, name)|)
  {
    var t := ParsePath(o.path.value, o.pathSep);
    var n := CountSections(m, t.section);
    DecimalRoundTrip(n);
    assert (Decimal(n) + "\n")[..|Decimal(n)|] == Decimal(n);
  }

  /** A section name (or index) that matches nothing ends the run, whatever
      else was asked for, unless only counting. */
  lemma MissingSectionQuery(m: Model, o: Options)
    requires ValidOptions(o) && o.path.Some? && !o.countSections
    ensures var t := ParsePath(o.path.value, o.pathSep);
            o.sectionIndex >= |Named(m, StoredName(t.section))|
            <==> Run(m, o) == Failure(SectionNotFound(t.section, o.sectionIndex))
  {
  }

  /** A key lookup prints the value the section's listing shows first for
      that key: its own pair when it has one, else the one inherited from
      DEFAULT; a key in neither is not found. */
  lemma ValueQuery(m: Model, o: Options, s: Section)
    requires ValidOptions(o) && o.path.Some? && !o.countSections && !o.outputAll
    requires var t := ParsePath(o.path.value, o.pathSep);
             t.key.Some? && GetSection(m, t.section, o.sectionIndex) == Some(s)
    ensures var t := ParsePath(o.path.value, o.pathSep);
            Run(m, o) == ValueOf(o.format, s, Inheritance(m, o, t.noInherit), t.key.value, t.section)
  {
  }

  /** Listing a section prints its items (inherited first, then its own),
      each on its own line and the last ending with a newline; keys alone
      when `keysOnly`. The first item the format refuses fails the run. */
  lemma ListQuery(m: Model, o: Options, s: Section)
    requires ValidOptions(o) && o.path.Some? && !o.countSections && !o.outputAll
    requires var t := ParsePath(o.path.value, o.pathSep);
             t.key.None? && GetSection(m, t.section, o.sectionIndex) == Some(s)
    ensures var t := ParsePath(o.path.value, o.pathSep);
            var d := Inheritance(m, o, t.noInherit);
            Run(m, o) == (var parts :- RenderEach(o.format, Items(s, d), t.keysOnly);
                          Success(Join(parts, "\n") + "\n"))
    ensures var t := ParsePath(o.path.value, o.pathSep);
            var d := Inheritance(m, o, t.noInherit);
            o.format.None? ==>
              Run(m, o) == Success(Join(RenderedItems(Items(s, d), t.keysOnly), "\n") + "\n")
  {
    var t := ParsePath(o.path.value, o.pathSep);
    var d := Inheritance(m, o, t.noInherit);
    RenderEachPlain(Items(s, d), t.keysOnly);
  }

  /** Each item as printed with no format: the key, or `key=value`, each
      quoted when it holds a space. */
  function RenderedItems(items: seq<Pair>, keysOnly: bool): (r: seq<string>)
    ensures |r| == |items|
    ensures forall i :: 0 <= i < |items| ==>
      r[i] == if keysOnly then Quote(items[i].key) else Quote(items[i].key) + "=" + Quote(items[i].value)
  {
    seq(|items|, i requires 0 <= i < |items| =>
      if keysOnly then Quote(items[i].key) else Quote(items[i].key) + "=" + Quote(items[i].value))
  }

  lemma RenderEachPlain(items: seq<Pair>, keysOnly: bool)
    ensures RenderEach(None, items, keysOnly) == Success(RenderedItems(items, keysOnly))
  {
    var r := RenderEach(None, items, keysOnly);
    var want := RenderedItems(items, keysOnly);
    assert r.Success?;
    var parts := r.value;
    forall i | 0 <= i < |items|
      ensures parts[i] == want[i]
    {
      var p := RenderPair(None, items[i], keysOnly);
      assert p.Success? && parts[i] == p.value;
    }
    assert parts == want;
  }

  /** With no format, a dump line is `section=<name>`, then the section's
      items as `key=value` separated by spaces, then a newline. */
  lemma DumpLinePlain(s: Section, d: Option<Section>)
    ensures var items := Items(s, d);
            OutputLine(None, s, d)
            == Success("section=" + Quote(s.name) + (if |items| > 0 then " " else "")
                       + Join(RenderedItems(items, false), " ") + "\n")
  {
    var items := Items(s, d);
    RenderEachPlain(items, false);
    assert Quote("section") == "section" by {
      assert ' ' !in "section";
    }
    assert "section" + "=" == "section=";
    assert RenderPairs(None, s, d, false, ' ') == Success(Join(RenderedItems(items, false), " "));
  }

  /** A path into the unnamed section never shows DEFAULT's pairs. */
  lemma UnnamedQuery(m: Model, o: Options)
    requires ValidOptions(o) && o.path.Some? && o.path.value[0] == o.pathSep
    ensures Inheritance(m, o, ParsePath(o.path.value, o.pathSep).noInherit) == None
    ensures ParsePath(o.path.value, o.pathSep).section == NoSectionToken
    ensures forall s: Section :: Items(s, Inheritance(m, o, ParsePath(o.path.value, o.pathSep).noInherit)) == s.pairs
  {
  }

  /** With no path, a section format without `%s` is refused before anything
      else. Otherwise the listed section names are printed one per line
      through the format, and the run fails exactly when the configuration
      has no section at all, hidden ones included. */
  lemma SectionsQuery(m: Model, o: Options)
    requires ValidOptions(o) && o.path.None? && !o.outputAll
    ensures var refused := o.format.Some? && !Contains(o.format.value, SectionMark);
            && (refused ==> Run(m, o) == Failure(BadSectionFormat))
            && (!refused ==> (|m| == 0 <==> Run(m, o) == Failure(NoSections)))
            && (!refused && |m| > 0 ==>
                  Run(m, o) == Success(Lines(RenderedNames(o.format, ListedNames(m, o.includeDefault)))))
    ensures o.format.None? && |m| > 0 ==> Run(m, o) == Success(Lines(ListedNames(m, o.includeDefault)))
  {
  }

  /** `-o` fails exactly on an empty configuration or a pair format that
      cannot render the section lines; when it succeeds it printed the line
      of each shown section, in order, and nothing else. */
  lemma DumpQuery(m: Model, o: Options)
    requires ValidOptions(o) && o.path.None? && o.outputAll
    ensures Run(m, o).Success? <==>
      && |m| > 0
      && !(o.format.Some? && PairFormatInvalid(o.format.value, false)
           && exists j :: 0 <= j < |m| && Dumped(m[j], o.includeDefault))
    ensures var d := Inheritance(m, o, false);
            Run(m, o).Success? ==>
              Run(m, o).value == Concat(DumpLines(o.format, DumpedSections(m, o.includeDefault), d))
  {
    DumpText(o.format, m, Inheritance(m, o, false), o.includeDefault);
  }
}
