# resec, modelled in Dafny

resec scrapes the State Examinations Commission's examination material
archive. The archive is a staged HTML form:

1. accept the terms;
2. choose a document type;
3. choose a year;
4. choose an examination;
5. choose a subject;
6. read the list of papers.

Each stage posts a form and scrapes the next page for the values that the
following stage may use.

This project models the deterministic core of that process:

- the form bodies of the first two stages;
- the scrapers that turn a page into typed data: document types, years,
  examinations, subjects and (name, link) material pairs;
- the metadata tables and the language and level decoders for paper names;
- the archive constants, with the year lists as functions of the current
  year;
- the identifier sanitiser of the schema-generating macro, and its
  id-ordered variant list.

The HTML document is taken already parsed into abstract nodes:

- the named controls, in document order, each with its `<option>` nodes
  (an optional `value` and a text);
- the `materialbody` blocks, each with its text and its direct children
  (a tag and an optional `href`).

Where the scraping code does something stepwise (a `for` loop that fills a
map or a vec, or a loop with early returns), the model is a method with a
loop. Each such method is proved equal to a specification function. The
properties promised for each specification function are proved as lemmas.

Files and modules:

- `errors.dfy` (`Errors`): `Option`, `Result` and the error kinds.
- `text.dfy` (`Text`): the Rust string operations the core depends on.
  These are `split`, `trim`, `trim_matches`, `trim_end_matches`,
  `contains` and `u32::from_str`.
- `consts.dfy` (`Consts`): the archive URL and the year lists.
- `metadata.dfy` (`Metadata`): document types, examinations, languages
  and levels.
- `stages.dfy` (`Stages`): the stage-one and stage-two form bodies.
- `parser.dfy` (`Parser`): the scrapers.
- `macros.dfy` (`SchemaMacro`): variant-name sanitisation and ordering.

Four behaviours of the code are easy to misread, and the model keeps
each of them:

- **Odd number of material blocks.** `chunks(2)` leaves the last block
  unpaired, and the second `expect` then aborts (`src/parser.rs:257`).
  `Parser.Material` yields `Err(Panic("could not get material value 1"))`.
- **Which anchor is used.** `filter_node` takes the first `a` child whose
  `href` is present, even when that `href` is empty, and never looks at
  later anchors (`src/parser.rs:276-278`, `Parser.EmptyHrefExample`).
- **"Ordinary Level (EV)".** `Level::from` splits the text before '(' on
  '/'. This name has no second piece, so the level is `NoLevel`
  (`src/schema/metadata.rs:67-79`, `Metadata.OrdinaryEnglishExample`).
- **Relative links.** `EXAM_URL` already ends in '/', and the
  `format!("{}/{}", ...)` adds another, so relative links come out with
  "//" (`src/parser.rs:288`, `Parser.RelativeLinkDoubleSlash`).

`NoMaterial` and the parse-integer failure are used by `src/parser.rs`
but are not declared in `src/error.rs`. They are added to `SecError`, and
so is `Panic`, which stands for an `expect` that aborts.

## Model

| member | source | states |
|---|---|---|
| Text.Split | src/schema/metadata.rs:41 | `str::split` on one character always yields at least one piece. It yields two or more exactly when the separator occurs, and no piece contains the separator |
| Text.JoinSplit | src/schema/metadata.rs:41 | Joining the pieces of a split with the separator gives back the original string |
| Text.SplitAtFirst | src/schema/metadata.rs:67-69 | The first piece is the text before the first separator; the remaining pieces are the split of the text after it |
| Text.TrimStart | src/parser.rs:272-273 | The result does not start with a trimmed character, and every dropped character is in the trimmed set |
| Text.TrimEnd | src/schema/metadata.rs:42 | The result does not end with a trimmed character, and every dropped character is in the trimmed set |
| Text.Trim | src/parser.rs:272-273 | `trim` and `trim_matches(' ')` give a result that neither starts nor ends with a trimmed character and is no longer than the input |
| Text.TrimSlice | src/schema/metadata.rs:70 | What `trim_matches` keeps is the slice between a leading and a trailing run of trimmed characters |
| Text.Contains | src/parser.rs:272 | `str::contains` finds the empty pattern in every string and never finds a pattern longer than the string |
| Text.TrimKeepsSlices | src/parser.rs:272-273 | Trimming keeps a contiguous part of the string: a suffix for the start, a prefix for the end |
| Text.TrimStartRun | src/schema/metadata.rs:70 | Trimming a leading run of trimmed characters from a run followed by text that does not start with one gives back that text |
| Text.TrimEndRun | src/schema/metadata.rs:42 | Trimming a trailing run of trimmed characters from text that does not end with one gives back that text |
| Text.SecondPiece | src/schema/metadata.rs:41-42 | The second piece of "a<sep>b<tail>", where a and b hold no separator and the tail is empty or starts with one, is b |
| Text.ParseU32 | src/parser.rs:89 | A successful `u32` parse is below 2^32 and starts with a digit or '+' |
| Text.ParseU32Meaning | src/parser.rs:89 | In both directions: a string parses exactly when it is one or more ASCII digits, optionally after a single '+', with a value below 2^32; the result is that value |
| Text.ParseLeadingZeros | src/parser.rs:195 | "007" parses to 7 |
| Text.ParseSigns | src/parser.rs:195 | "+7" parses to 7; "+" and "-1" do not parse |
| Text.ParseDecimal | src/parser.rs:195 | A decimal rendering parses back to its number exactly when that number fits in a `u32` |
| Consts.ExamUrlEndsInSlash | src/consts.rs:7 | The archive URL ends in '/' |
| Consts.ExamPaperYears | src/consts.rs:11-14 | There are max(0, current-1995) paper years, and year i is 1995+i |
| Consts.MarkingSchemeYears | src/consts.rs:17-20 | There are max(0, current-2001) marking-scheme years, and year i is 2001+i |
| Consts.YearRange | src/consts.rs:12 | The range `lo..hi` has max(0, hi-lo) elements, and element i is lo+i |
| Consts.RangeMembers | src/consts.rs:12 | A year is in the range exactly when lo <= y < hi |
| Consts.PaperYears | src/consts.rs:11-14 | The paper years are exactly 1995 up to, but excluding, the current year. The current year is absent, there are max(0, current-1995) of them, and they strictly increase |
| Consts.SchemeYears | src/consts.rs:17-20 | The marking-scheme years are exactly 2001 up to, but excluding, the current year. They strictly increase |
| Consts.SchemeYearsAreSuffix | src/consts.rs:12-18 | The marking-scheme years are a suffix of the paper years |
| Metadata.DocTypeName | src/schema/metadata.rs:9-14 | A document type's `name` property is non-empty and has '_' in place of spaces |
| Metadata.ExaminationName | src/schema/metadata.rs:19-26 | An examination's `name` property is non-empty and has '_' in place of spaces |
| Metadata.DocTypeId | src/schema/metadata.rs:9-14 | A document type's id is a non-empty run of lower-case letters |
| Metadata.ExaminationId | src/schema/metadata.rs:19-26 | An examination's id is a non-empty run of lower-case letters |
| Metadata.IdsIdentifyVariants | src/schema/metadata.rs:9-26 | Every type and examination variant is listed, and no two variants share an id or a name |
| Metadata.LanguageName | src/schema/metadata.rs:30-36 | A language's display form is non-empty and holds no parenthesis |
| Metadata.ParseLanguage | src/schema/metadata.rs:30-36 | A successful `from_str` returns a variant whose `to_string` is the input |
| Metadata.LanguageRoundTrip | src/schema/metadata.rs:99-103 | `from_str(to_string(l)) == l` for every language |
| Metadata.LanguageFromLabel | src/schema/metadata.rs:39-47 | A decoded language other than `NoLanguage` is the one whose label is the piece after the first '(' with its trailing ')'s removed |
| Metadata.LanguageOfLabelledName | src/schema/metadata.rs:39-47 | "<text>(<code><closes><tail>", where the text holds no '(', the closes are zero or more ')' and the tail is empty or starts with '(', decodes to the language whose label is the code |
| Metadata.UnknownLanguage | src/schema/metadata.rs:42-45 | The same shape with a code that is no label decodes to `NoLanguage` and does not fail |
| Metadata.LevelName | src/schema/metadata.rs:52-62 | A level's display form is non-empty, has no surrounding spaces, and holds neither '(' nor '/' |
| Metadata.ParseLevel | src/schema/metadata.rs:50-62 | A successful `from_str` returns a level whose `to_string` is the input |
| Metadata.LevelRoundTrip | src/schema/metadata.rs:105-110 | `from_str(to_string(l)) == l` for every level |
| Metadata.LevelFromLabel | src/schema/metadata.rs:65-81 | A decoded level other than `NoLevel` is the one whose label is the second '/'-piece of the text before the first '(', with its spaces trimmed |
| Metadata.LevelOfLabelledName | src/schema/metadata.rs:65-81 | "<first>/<spaces><level><spaces><tail>(<rest>", where the first part holds no '/' or '(' and the tail holds no '(' and is empty or starts with '/', decodes to that level |
| Metadata.LevelOfUnlabelledName | src/schema/metadata.rs:65-81 | A display name without any '(', "<first>/<spaces><level><spaces><tail>" with the same conditions, decodes to that level |
| Metadata.HigherLevelExample | src/schema/metadata.rs:65-81 | "Paper One / Higher Level (EV)" decodes to `HigherLevel` |
| Metadata.UnknownLevel | src/schema/metadata.rs:73-77 | When the trimmed second piece is no level name, the level is `NoLevel` |
| Metadata.LevelWithoutSlash | src/schema/metadata.rs:73-78 | With no '/' before the first '(', the level is `NoLevel` |
| Metadata.OrdinaryEnglishExample | src/schema/metadata.rs:41-79 | "Ordinary Level (EV)" decodes to `NoLevel` and to `English` |
| Stages.KeysFollowConvention | src/stages.rs:32-33 | The four literal field names are value and mode keys of the checkbox and select-box widgets |
| Stages.ValueKeyInjective | src/stages.rs:53-58 | A value key determines its widget and field, and is never a mode key |
| Stages.StageOneForm | src/stages.rs:27-34 | With consent, the form is exactly {cbv AgreeCheck: "Y", cbh AgreeCheck: "N"}; without it, the form is empty. Every value key has its mode companion |
| Stages.StageTwoForm | src/stages.rs:50-58 | The form has exactly four entries: the consent pair unchanged, the type id under sbv ViewType, and "id" under sbh ViewType. Every value key has its mode companion |
| Parser.FirstControl | src/parser.rs:25-30 | None exactly when no control carries the name; otherwise the earliest control that does |
| Parser.FirstControlIgnoresLater | src/parser.rs:30 | Controls after the first match never affect the result |
| Parser.Labels | src/parser.rs:36-50 | No key of the label map is empty |
| Parser.Years | src/parser.rs:86-99 | A failure is always the parse error; a success holds at most one year per option, each below 2^32 |
| Parser.Subjects | src/parser.rs:192-205 | A failure is always the parse error; every subject id of a success is below 2^32 |
| Parser.LabelsIgnorePlaceholders | src/parser.rs:36-47 | Options with an absent or empty value contribute nothing to the type and exam maps |
| Parser.YearsIgnorePlaceholders | src/parser.rs:86-95 | Options with an absent or empty value contribute nothing to the year list |
| Parser.SubjectsIgnorePlaceholders | src/parser.rs:192-201 | Options with an absent or empty value contribute nothing to the subject map |
| Parser.OnlyPlaceholders | src/parser.rs:81-102 | A control holding only placeholders yields an empty map or list, not an error |
| Parser.LabelsKeys | src/parser.rs:36-50 | The keys of the label map are exactly the non-empty option values |
| Parser.LabelsLastWins | src/parser.rs:50 | Each key maps to the text of the last option carrying that value |
| Parser.NumericFailurePersists | src/parser.rs:89 | Once a prefix of the options fails to parse, the whole list fails with the same error |
| Parser.YearsMeaning | src/parser.rs:84-99 | The year list succeeds exactly when every non-empty value is a `u32`; otherwise it fails with a parse error. On success it holds the parsed values in document order, duplicates kept |
| Parser.SubjectsMeaning | src/parser.rs:190-205 | The subject map succeeds exactly when every non-empty value is a `u32`; otherwise it fails with a parse error. On success every parsed id is a key, holding the text of the last option that parses to it |
| Parser.ParseLabelled | src/parser.rs:30-56 | Fails with the given `Value` error exactly when no control has the name; otherwise returns the label map of the first such control |
| Parser.ParseTypes | src/parser.rs:17-58 | As `ParseLabelled`, for the ViewType control and the "could not get paper type field" error |
| Parser.ParseExams | src/parser.rs:109-158 | As `ParseLabelled`, for the ExaminationSelect control and the "could not get exam field" error |
| Parser.ParseYears | src/parser.rs:61-106 | Fails with "could not get paper year field" when no control is named YearSelect; otherwise returns the year list of the first such control, with no partial result |
| Parser.ParseSubjects | src/parser.rs:161-212 | Fails with "could not get subject field" when no control is named SubjectSelect; otherwise returns the subject map of the first such control, with no partial result |
| Parser.FirstHref | src/parser.rs:276-278 | None exactly when no direct child is an `a` with an `href` present. Otherwise the `href` of the earliest such child, even when it is empty |
| Parser.Absolute | src/parser.rs:284-289 | A link containing the host is kept as it is. Any result contains the host and ends with the original link |
| Parser.BlockValue | src/parser.rs:270-296 | A block's value is its trimmed text, a link on the host, or empty |
| Parser.FilterNode | src/parser.rs:270-296 | The loop with early returns computes the block's value: the trimmed text, the rewritten first link, or "" |
| Parser.BlockValueCases | src/parser.rs:272-294 | Without "Click Here", a block yields its trimmed text. With it and with first linking `href` h, the block yields h when h contains the host and the archive URL, '/', h otherwise. With no linking anchor it yields "", and only then |
| Parser.AbsoluteIdempotent | src/parser.rs:285-288 | Rewriting a link twice is rewriting it once |
| Parser.RelativeLinkDoubleSlash | src/parser.rs:288 | A link not on the host comes out as ".../exammaterialarchive//" followed by the href |
| Parser.RelativeLinkExample | src/parser.rs:276-288 | A "Click Here" block linking to "local/file.pdf" yields that file under the archive URL |
| Parser.HostLinkExample | src/parser.rs:285-286 | A "Click Here" block linking into the host yields the link unchanged |
| Parser.EmptyHrefExample | src/parser.rs:276-288 | A "Click Here" block whose first anchor has an empty `href` yields the archive URL with '/' appended; the later anchor to "x.pdf" is ignored |
| Parser.Pairs | src/parser.rs:246-262 | `chunks(2)` succeeds exactly on an even count. It gives n/2 pairs, and pair i is (c[2i], c[2i+1]) |
| Parser.PairsRoundTrip | src/parser.rs:246-262 | Flattening the pairs gives back the block values, and pairing a flattened list gives back the pairs |
| Parser.BlockValues | src/parser.rs:235-238 | One value per block, in document order |
| Parser.Material | src/parser.rs:241-262 | Zero blocks give `NoMaterial` and an odd count aborts. Otherwise the result is the n/2 consecutive (name, link) pairs |
| Parser.ParsePapers | src/parser.rs:215-264 | The scraping loop yields the material of the page's block values |
| Parser.TypesExample | src/parser.rs:304-313 | The type options of the site's page give exactly {exampapers: "Exam Papers", markingschemes: "Marking Schemes"} |
| Parser.ExamsExample | src/parser.rs:324-334 | The examination options give exactly {lb, lc, jc} with their display names |
| Parser.SubjectsExample | src/parser.rs:337-349 | The subject options give exactly {14: "Art", 2: "English", 10: "French", 11: "German", 1: "Irish"} |
| Parser.YearsExample | src/parser.rs:316-321 | Year options listed newest first give [1997, 1996, 1995], the reverse of the paper years |
| Parser.PaperYearsExample | src/parser.rs:316-321 | With 1998 as the current year, the paper years are [1995, 1996, 1997] |
| SchemaMacro.RemoveSpaces | resec_macros/src/lib.rs:28 | No space remains in the result |
| SchemaMacro.RunLength | resec_macros/src/lib.rs:23 | The greedy match of `[^0-9a-zA-Z]+` is non-empty, holds only non-alphanumerics, and ends at the end of the string or just before an alphanumeric |
| SchemaMacro.ReplaceRuns | resec_macros/src/lib.rs:23-31 | The output is no longer than the input, empty exactly when the input is, and starts with '_' exactly when the input starts with a non-alphanumeric |
| SchemaMacro.ReplaceRunsAlnum | resec_macros/src/lib.rs:23-31 | A leading run of letters and digits passes through unchanged |
| SchemaMacro.ReplaceRunsRun | resec_macros/src/lib.rs:23-31 | A whole run of non-alphanumerics, up to the next letter or digit or the end, becomes one '_' |
| SchemaMacro.ReplaceRunsShape | resec_macros/src/lib.rs:23-31 | The output holds only ASCII letters, digits and '_', never two adjacent '_', and the input's letters and digits in their original order |
| SchemaMacro.ReplaceRunsFixed | resec_macros/src/lib.rs:31 | A string of letters, digits and single '_'s is unchanged |
| SchemaMacro.Sanitise | resec_macros/src/lib.rs:28-31 | A generated name holds only letters, digits and single '_'s, and keeps the name's letters and digits in order |
| SchemaMacro.SanitiseIdempotent | resec_macros/src/lib.rs:28-31 | Sanitising twice is sanitising once |
| SchemaMacro.SanitiseSeparator | resec_macros/src/lib.rs:28-31 | Two words joined by any run of other characters, none of them a space, become word_word |
| SchemaMacro.SanitiseSpaces | resec_macros/src/lib.rs:28 | Two words separated only by spaces are joined |
| SchemaMacro.LeastKey | resec_macros/src/lib.rs:20 | The least id of the map, where `BTreeMap` iteration starts |
| SchemaMacro.EmitLeastFirst | resec_macros/src/lib.rs:26 | Putting the least entry in front of the ordered rest gives an ordered list of the whole map |
| SchemaMacro.Variants | resec_macros/src/lib.rs:20-43 | One variant per map entry, in strictly ascending id order. Each variant carries its own id and the sanitised name of that id's subject |

## Left out

- The HTTP transport: `reqwest::Client`, the post, the response text and
  all of `async`/`await`. Each stage returns the form it would post, and
  each scraper takes the page as a parameter.
- HTML parsing by the `select` crate. The document is an abstract tree of
  controls and blocks. Its text content is taken as given.
- `StageBuilder`, which the scrapers call to fetch each page, is not part
  of this model. The file that defines it is not among the modelled
  sources.
- The tests that query the live site and write HTML files. Their
  expected values are stated as `Parser.TypesExample`,
  `Parser.ExamsExample`, `Parser.SubjectsExample`, `Parser.YearsExample`
  and `Parser.PaperYearsExample`. These apply the scrapers to option lists
  shaped like the site's pages, not to pages fetched from it.
- Macro token generation: `format_ident!`, `quote!`, the strum
  properties, reading the schema file, and `serde_json`. Only the name
  transformation and the variant order are modelled.
- SchemaMacro.Variants: ids are unbounded naturals. The `u32` bound on
  keys in the schema file is not modelled, and neither is the abort of
  `format_ident!` on an empty name or a name that starts with a digit.
  Two subject names that sanitise to the same identifier give two
  variants with one name, and the generated enum then fails to compile.
  The model returns both variants and does not reject the schema.
- strum, lazy_static and chrono are replaced by explicit tables and
  functions. The clock is the `currentYear` parameter.
- The `Io` and `Reqwest` errors wrap foreign errors and are opaque tags.
- `src/lib.rs` and `src/schema/subjects.rs` only wire modules together.
- The set of characters that `trim` strips is written out as a constant,
  not derived from Unicode tables.
- Text.ParseU32: the function's own contract gives only the bound and the
  first character. The exact set of accepted strings and the value, in
  both directions, are stated by `Text.ParseU32Meaning`, so that the
  scrapers' proofs do not carry the quantifiers.
- Language::from on a name without '(' indexes out of bounds and aborts.
  `Metadata.LanguageFromLabel` requires a '(' instead.
