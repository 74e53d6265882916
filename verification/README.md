# iniq, modelled in Dafny

iniq reads an INI file and answers a query about it. The query is given as
options and an optional `-p` path, which has the form `section.key`. iniq can
list the section names (`print_sections`) or the pairs of one section
(`print_pairs`). Those pairs include any inherited from the `DEFAULT`
section. It can also print one value (`print_value`), dump everything
(`print_output`, `-o`), or count the sections of a name (`-n`). This project
models the core of `iniq.c`:

- **the `inih` callback `handler`**, which builds the in-memory list of
  sections and pairs;
- **the section lookup `get_section`**;
- **the renderers**: `quote_str`, `print_pair`, `print_pairs`, `print_value`,
  `print_sections` and `print_output`;
- **path parsing and dispatch** at the end of `main`.

Each part is modelled as pure functions, or as methods for the two loops of
`print_pairs`. The modules are:

| module | file | what it holds |
|---|---|---|
| `Outcomes` | outcomes.dfy | `Option`, `Result` and the `Error` kinds. Each `die` call of the program is one `Error`. |
| `Text` | text.dfy | Substring search, `strsep`-style splitting, joining, and decimal rendering of a count. |
| `IniModel` | ini_model.dfy | Sections and pairs; `handler` as `AddEntry` and a whole file as `Ingest`; `get_section`; the count of `-n`. |
| `Format` | format.dfy | `quote_str`, and `print_pair` with its `%k`/`%v` rewriting, plus what that rewriting means. |
| `Listing` | listing.dfy | DEFAULT inheritance, `print_pairs` (as methods with loops), `print_value`, `print_sections`, `print_output`. |
| `PathSyntax` | path_syntax.dfy | The `-p` path: segments, escaped separators, the unnamed section, and the key. |
| `Query` | query.dfy | One run of `main` after parsing. It gives the printed text on success, or the error together with what was printed before the exit. |

A configuration is a `seq<Section>` in file order. Pairs before the first
header belong to the section named `""`, which a path writes as `.`. A run
returns `Success(stdout)` for exit status 0. Otherwise it returns
`Failure(e)`. Here `e` is either the message `die` would print, or `Empty`
carrying the text printed before a failing exit status (`-n` with no match,
`-o` on an empty file). A refused pair format never loses printed text.
Whether `print_pair` dies depends only on the format and the keys flag,
and both are the same for every call in a run. So the first call dies
before anything is printed (iniq.c:132-136, 176, 188, 237).

Some behaviours of the code that are easy to get wrong:

- **Where pairs go.** A pair goes to the *last* section with its name. The
  handler's search loop keeps its last match.
- **Order in a listing.** Inherited DEFAULT pairs come *before* the section's
  own pairs.
- **The path `.`.** It lists the unnamed section's pairs *with* their
  values. Only `..` lists keys alone.
- **Lines of `-o`.** Each line starts with the pseudo-pair
  `section=<name>`, rendered through the pair format.
- **Exit status of `-o`.** It counts every section, DEFAULT included, even
  when DEFAULT is not shown.

## Model

| member | source | states |
|---|---|---|
| IniModel.AddEntry | iniq.c:248-301 | With `-D`, a DEFAULT entry changes nothing. Otherwise a section is appended exactly when the name is new, or when it is a bare header of a non-DEFAULT section while `-c` is off; the new section carries the entry's name. A header adds no pairs. A pair is appended to the end of the LAST section with that name, and every other section is unchanged. Nothing is renamed, reordered or removed. |
| IniModel.IngestOnlyAppends | iniq.c:266-298 | Feeding more entries only adds: the configuration built from a prefix of the file survives, in order, inside the final one. |
| IniModel.IngestSingleDefault | iniq.c:254-281 | Whatever the flags, DEFAULT is stored at most once, because a repeated `[DEFAULT]` header reuses the section. |
| IniModel.IngestCombinedUnique | iniq.c:266-281 | With `-c`, no section name is stored twice. |
| IniModel.IngestCombinedOrder | iniq.c:266-281 | With `-c`, sections appear in the order their names first occur among the kept entries. |
| IniModel.IngestCombinedPairs | iniq.c:283-298 | With `-c`, each section holds exactly the pairs written under its name, in file order. A name never seen holds nothing. |
| IniModel.GetSection | iniq.c:303-316 | `"."` stands for the unnamed section. The result is present exactly when the index is below the number of sections with that name, and it is the index-th of them (from 0), in file order. |
| IniModel.NameOnceNamed | iniq.c:311 | A name stored once matches at most one section, so only index 0 can find it. |
| IniModel.CountSections | iniq.c:449-453 | Probing indexes 0, 1, … until the lookup fails gives the number of sections with that name. The count is positive exactly when such a section exists. |
| Format.Quote | iniq.c:86-106 | The string is unchanged exactly when it has no space or is already wrapped in matching single or double quotes. Otherwise it is wrapped in single quotes. |
| Format.QuoteIdempotent | iniq.c:91-97 | Quoting an already quoted string changes nothing. |
| Format.RenderPair | iniq.c:108-158 | It fails (the `die`) exactly when a format lacks `%k` and either only keys are wanted or it also lacks `%v`. With no format it prints the quoted key alone in keys mode, and `key=value` otherwise. |
| Format.RenderKeyThenValue | iniq.c:139-151 | For `a%kb%vc`, the quoted key and the quoted value land in place, in keys mode as well. |
| Format.RenderValueThenKey | iniq.c:147-149 | For `a%vb%kc`, the arguments are swapped, so each still lands in place. |
| Format.RenderKeyOnly | iniq.c:140-146 | For `a%kb`, the quoted key lands in place in either mode. |
| Format.RenderValueOnly | iniq.c:132-149 | For `a%vb`, the quoted value lands in place. In keys mode the format is refused. |
| Format.RenderNoPlaceholder | iniq.c:129-137 | A format with no `%` is refused as a pair format. |
| Format.SectionNameInPlace | iniq.c:205 | A section format `a%sb` prints the name in place of `%s`. |
| Listing.Inherited | iniq.c:166-180 | A DEFAULT pair is inherited exactly when the section does not define its key. No more pairs are inherited than DEFAULT has. |
| Listing.ItemsKeyCount | iniq.c:160-191 | The merged listing never duplicates a key. A key the section defines appears as often as in the section; any other key appears as often as in DEFAULT. |
| Listing.SelfInheritsNothing | iniq.c:166-180 | When DEFAULT itself is listed, it inherits none of its own pairs. |
| Listing.RenderEach | iniq.c:166-188 | Rendering the items fails exactly when there is an item and the format is refused. On success there is one rendering per item, each the one `print_pair` gives. |
| Listing.PrintInherited | iniq.c:166-180 | The first loop prints the inherited DEFAULT pairs, joined by the separator, and counts them. A dry run prints nothing. |
| Listing.PrintOwn | iniq.c:182-188 | The second loop continues the output: a separator after the inherited pairs when both groups are non-empty, then the own pairs joined by the separator. The whole output is the joined rendering of inherited + own. |
| Listing.PrintPairs | iniq.c:160-191 | `print_pairs` prints the items (inherited, then own) joined by the separator, with none leading or trailing, and returns their number. A dry run prints nothing and still counts. |
| Listing.ItemsLookup | iniq.c:467-472 | Looking a key up in the merged listing finds the section's own pair when it has one, and otherwise DEFAULT's. |
| Listing.PrintValue | iniq.c:212-226 | The result is absent exactly when there is no section or no pair with the key. Otherwise the first pair with the key is rendered through the given format, or `%v` when none is given, and followed by a newline. With no format that is the quoted value. The format fails exactly when it is refused with `keys` off. |
| Listing.ListedNames | iniq.c:201-204 | A name is listed exactly when some section has it, it is not empty, and it is not DEFAULT unless `-d` is given. |
| Listing.PrintSections | iniq.c:193-210 | A section format without `%s` is refused (BadSectionFormat). Otherwise each listed name is printed through the format (or as itself), one per line in model order. The number returned counts every section, hidden ones included. |
| Listing.PrintOutput | iniq.c:228-246 | The dump fails exactly when the pair format is refused and at least one section is shown. |
| Listing.DumpText | iniq.c:233-243 | A successful dump prints the dump line of each shown section, one after another in model order, and nothing else. |
| PathSyntax.ParsePath | iniq.c:408-446 | DEFAULT inheritance is disabled exactly when the path starts with the separator, and then the section is `"."`. A key, when present, is non-empty and contains no separator. |
| PathSyntax.GatherEscaped | iniq.c:426-434 | The segments of a name written with every separator escaped by a backslash are gathered back into exactly that name, and gathering stops right after them. |
| PathSyntax.ParseName | iniq.c:408-446 | An escaped section name with nothing after it reads back as that name, listing pairs with values. |
| PathSyntax.ParseNameDot | iniq.c:437-445 | A separator after the name lists its keys alone. |
| PathSyntax.ParseNameDotDot | iniq.c:437-445 | Two separators after the name also list its keys alone. |
| PathSyntax.ParseNameKey | iniq.c:437-441 | A key after the name selects that key. |
| PathSyntax.ParseDot | iniq.c:414-445 | The path `.` lists the unnamed section's pairs with values, without DEFAULT. |
| PathSyntax.ParseDotDot | iniq.c:414-445 | The path `..` lists the unnamed section's keys alone. |
| PathSyntax.ParseDotKey | iniq.c:414-441 | The path `.key` selects that key of the unnamed section. |
| Text.SplitJoin | iniq.c:414 | The `strsep` segments, joined again with the separator, give the path back. |
| Text.JoinSplit | iniq.c:414 | Splitting a join of separator-free segments gives those segments back. |
| Text.DecimalRoundTrip | iniq.c:453 | The decimal text printed for a count reads back as that count. |
| Query.Inheritance | iniq.c:461-462 | A DEFAULT section is inherited exactly when neither `-D` nor a path into the unnamed section disabled it and the file has one. It is then a section named DEFAULT. |
| Query.DumpAll | iniq.c:464-465 | `-o` succeeds only on a non-empty file. On an empty file it fails having printed nothing; its only other failure is a refused format. |
| Query.ValueOf | iniq.c:467-476 | A key is not found exactly when neither the section nor the inherited DEFAULT has it. Otherwise the pair the listing shows first for the key is rendered through the format (`%v` when none is given) and followed by a newline. With no format that is the quoted value. A refused format fails. |
| Query.CountQuery | iniq.c:449-454 | `-n` succeeds exactly when a section of that name exists. The printed text is a newline-terminated decimal that reads back as the number of such sections. |
| Query.MissingSectionQuery | iniq.c:455-458 | Outside `-n`, the run fails with "section not found" exactly when the index reaches the number of sections with that name. |
| Query.ValueQuery | iniq.c:467-476 | A path with a key runs the lookup in the selected section, with the inheritance the path allows. |
| Query.ListQuery | iniq.c:477-479 | A path without a key prints the section's items, inherited first, each rendered through the format and on its own line, the last ending with a newline. The run fails if the format is refused. With no format, items are the quoted key alone or `key=value`. |
| Query.DumpLinePlain | iniq.c:233-243 | A dump line is `section=<name>`, then a space and the items as `key=value` separated by spaces when there are any, then a newline. |
| Query.UnnamedQuery | iniq.c:414-422 | A path into the unnamed section never shows DEFAULT's pairs: the listed items are the section's own. |
| Query.SectionsQuery | iniq.c:480-482 | With no path, a section format without `%s` is refused before the sections are counted. Otherwise the listed names are printed through the format, one per line. The run fails with "no sections" exactly when the file has no section at all, hidden ones included. |
| Query.DumpQuery | iniq.c:464-465 | `-o` without a path succeeds exactly when the file has a section and the pair format is accepted (or no section is shown). On success it printed the dump line of each shown section, in order. |

## Left out

- **File reading and tokenising.** The `inih` tokenizer (`ini_parse`,
  `ini_parse_file`, `-s`, `-m`) is not part of this model. The entries it
  reports are the input sequence of `IniModel.Ingest`, so a parse failure
  is not modelled.
- **Option parsing.** `getopt`, `print_usage`, `-h` and `-v` are left out
  because they only parse arguments or print fixed text. `Query.Options`
  holds the parsed result.
- **`strtoui`.** Reading `-i`, and its "invalid integer" error, is left out;
  the index is a `nat`. The 32-bit wrap-around of `unsigned int` is not
  modelled, because no file has 2^32 sections.
- **`-q`.** It only silences the message on stderr. An `Error` carries what
  would be reported; stderr itself is not modelled.
- **Memory.** `cleanup`, `free_section`, `strdup`/`malloc` and `atexit` are
  left out. They have no effect on the output.
- **Format.Printf.** Only `%s` conversions are modelled. Any other
  character, including a lone `%`, is copied as it is. `%%`, width and
  precision flags, other conversions, and a `%s` with no argument left
  (rendered as empty text) are outside what a well-formed iniq format uses;
  in C they are undefined or print differently.
- **Format.RenderPair.** When a format repeats `%k` or `%v`, only the first
  of each is rewritten, as in the code. The later copies are plain text to
  the model's `Printf`, not `printf` conversions.
- **PathSyntax.ParsePath.** It requires `ValidPath`: the path is non-empty
  and shorter than `BUFSIZ` (8192). An empty path makes `main` dereference
  a NULL (iniq.c:424). A longer one can run past the truncating
  `snprintf` into the buffer; that case is not modelled.
- **Path separator length.** The separator is one character. `strsep`
  accepts a set of delimiter characters and `*path_sep` uses the first;
  a multi-character `-P` is not modelled.
- **Unreachable branch.** `main`'s `die("key not found")` branch (iniq.c:474)
  cannot be reached, because a path always sets a section. It has no
  counterpart in `Query.Run`.
- **Exit codes.** They are modelled only as success or failure
  (`Result`); the usage exit code 2 is not modelled.
