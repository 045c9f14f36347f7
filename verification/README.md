# rap-obsidian-utils in Dafny

A model of the two pipelines of `rap_obsidian_utils`, with proofs about them.

The first pipeline adds front matter to a markdown note. It has four steps:

- **Extraction.** `extract_metadata_from_markdown` reads the first `# ` heading and the
  `**Author(s):**`, `**Publication:**` and `**Date:**` lines. It splits the author line on
  `,`, `;`, `&` and ` and `.
- **Date normalisation.** `normalize_date` cleans the date to ASCII with `clean_to_ascii`. It
  then finds the first whole-word year and tries six rules in order: month range,
  season/quarter, month and year, full date, numeric month, bare year. The first rule that
  answers wins. Otherwise the cleaned text comes back.
- **Injection.** `add_title_to_frontmatter` writes `Title`, `Authors` (as wiki-links), `Book`
  and `Date` at the top of the `---` block. It creates the block when there is none.
- **Validation.** `validate_frontmatter` reads that block back and collects errors and warnings.

The second pipeline syncs markdown files between two directories:

- `should_sync_file` decides in three tiers: the destination is missing, the source is newer
  than the destination by more than one second, or the times are within a second and the
  contents differ.
- `build_sync_plan` splits the scanned files into candidates and skipped files.
- `execute_sync` copies the candidates in order. It records a failure per file and carries on.

Every regular expression is a matcher at one start position (`(string, nat) -> Option<T>`).
Its backtracking is worked out by hand and stated in its doc comment. `Scan.Search` tries the
positions left to right, as `re.search` does: a rule sees only the first match and never retries
a later one. Whitespace is Python's `str.isspace` class, which is also what `\s` matches in a
`str` pattern.

The sync model uses these stand-ins:

- A path is a sequence of components, and `a / b` is `a + b`.
- The file system is a map from paths to entries that hold contents and a modification time.
- Times are reals.
- SHA-256 equality is modelled as equality of contents.
- What `mkdir` and `shutil.copy2` raise comes from an oracle `copyError`. A failed copy leaves
  its destination as it was.

Some behaviours of the code are modelled as written and proved:

- `DocumentRoundTrip.EmptyLabelTakesNextLine`: when a `**Date:**` (or author, or publication)
  label has nothing after it, `\s*` crosses the line break and the field takes the NEXT line's
  text.
- `FrontMatterProperties.InjectDashedBlock`: an existing front-matter block whose stripped text
  starts with `---` turns, after injection, into a block that holds only the new fields. The
  old text after that `---` is pushed out of the block.
- `FrontMatterProperties.InjectTwice`: injecting twice stacks two copies of the fields. The
  code never deduplicates.
- `RoundTrip.EmptyTitleInvalid` and `RoundTrip.EmptyDateInvalid`: injected metadata with an
  empty title, or with an empty date in a note without front matter, never validates. `"(.+?)"`
  needs at least one character between the quotes. So the injector's own output does not always
  pass the validator, and `RoundTrip.InjectThenValidate` assumes a non-empty title without `"`
  and a non-empty date.
- The second tier's reason is `MtimeNewer` (`MTIME_NEWER` in `sync.py`).

## Model

| member | source | states |
|---|---|---|
| `Ascii.CleanToAscii` | src/rap_obsidian_utils/cli.py:36-65 | The result holds only code points below 128, and ASCII input comes back unchanged |
| `Ascii.ReplacePunctuation` | src/rap_obsidian_utils/cli.py:42-63 | The replacement table leaves ASCII text alone |
| `Ascii.DropNonAscii` | src/rap_obsidian_utils/cli.py:65 | The filter keeps only ASCII, never lengthens the text, and keeps ASCII text whole |
| `Ascii.CleanChar` | src/rap_obsidian_utils/cli.py:42-65 | Per character: ASCII is kept, the six dash variants become `-`, the eight space variants become a space, and every other character disappears |
| `Ascii.CleanConcat` | src/rap_obsidian_utils/cli.py:62-65 | Cleaning distributes over concatenation, so the order of the `str.replace` calls does not matter |
| `Ascii.CleanIdempotent` | src/rap_obsidian_utils/cli.py:36-65 | Cleaning twice is the same as cleaning once |
| `DateNormalizer.YearAt` | src/rap_obsidian_utils/cli.py:117-118 | A year match is four characters, starts with 19 or 20, and sits at the matched position |
| `DateNormalizer.FirstMonthIn` | src/rap_obsidian_utils/cli.py:155-158 | A month found among the groups is always a full month name |
| `DateNormalizer.FirstHit` | src/rap_obsidian_utils/cli.py:123-177 | The answer is the value of the first rule that answers, with every earlier rule silent; there is no answer exactly when every rule is silent |
| `DateNormalizer.NormalizeDate` | src/rap_obsidian_utils/cli.py:81-121 | Empty input gives `""`; a no-date marker, or text without a whole-word 19xx/20xx year, gives back the cleaned text |
| `DateProperties.CleanedIsCleaned` | src/rap_obsidian_utils/cli.py:85-86 | The cleaned text is ASCII, has no whitespace at either end, and holds only single spaces |
| `DateProperties.CleanedFixpoint` | src/rap_obsidian_utils/cli.py:85-86 | Cleaning leaves text in that form unchanged |
| `DateProperties.NormalizeShape` | src/rap_obsidian_utils/cli.py:68-177 | Every answer is the cleaned input, or a canonical date built around the first year of the cleaned input (`Month Year`, `Month-Month Year`, `Season Year` or the year alone) |
| `DateProperties.NumericMonthName` | src/rap_obsidian_utils/cli.py:160-171 | The numeric rule answers only with the name of a month numbered 1 to 12 |
| `DateProperties.NumericMonthOutOfRange` | src/rap_obsidian_utils/cli.py:165-171 | When both first numeric matches carry a month outside 1..12, or are absent, the numeric rule gives nothing |
| `DateProperties.BareYearOnlyWhole` | src/rap_obsidian_utils/cli.py:173-177 | A bare-year answer happens only when the whole cleaned input is that year |
| `DateFixpoints.CanonicalFixpoint` | src/rap_obsidian_utils/cli.py:68-177 | Every canonical date normalises to itself |
| `DateFixpoints.NormalizeIdempotent` | src/rap_obsidian_utils/cli.py:68-177 | Normalising twice is the same as normalising once |
| `DateExamples.MonthExample` | src/rap_obsidian_utils/cli.py:139-145 | "May 2015" gives "May 2015" |
| `DateExamples.SeasonExample` | src/rap_obsidian_utils/cli.py:134-137 | "Spring 2023" gives "Spring 2023" |
| `DateExamples.YearExample` | src/rap_obsidian_utils/cli.py:173-175 | "2023" gives "2023" |
| `DateExamples.RangeExample` | src/rap_obsidian_utils/cli.py:123-132 | "March-April 2023" gives "March-April 2023" |
| `DateExamples.SlashRangeExample` | src/rap_obsidian_utils/cli.py:124-132 | "Jan-Feb 2020" and "Jan/Feb 2020" both give "January-February 2020" |
| `DateExamples.MarkerExample` | src/rap_obsidian_utils/cli.py:88-91 | "not specified" comes back as it is |
| `DateExamples.MonthSlashExample` | src/rap_obsidian_utils/cli.py:161-171 | "05/2015" gives "May 2015" |
| `DateExamples.YearDashExample` | src/rap_obsidian_utils/cli.py:161-171 | "2015-05" gives "May 2015" |
| `DateExamples.FalloutExample` | src/rap_obsidian_utils/cli.py:135-137 | "Fallout 2020" gives "Fall 2020": the season test is a plain substring test |
| `DateExamples.CircaExample` | src/rap_obsidian_utils/cli.py:173-177 | "circa 2015 sometime" comes back whole, not as its year |
| `Extractor.LazyEnd` | src/rap_obsidian_utils/cli.py:195 | The lazy group stops at the first position where `(?:\s*$\|\s*\n)` matches |
| `Extractor.LastDotChar` | src/rap_obsidian_utils/cli.py:195 | The group starts at the last non-newline position the greedy whitespace can give back |
| `Extractor.CaptureAt` | src/rap_obsidian_utils/cli.py:199 | A captured group is non-empty and stays on one line |
| `ExtractionProperties.FieldShape` | src/rap_obsidian_utils/cli.py:195-196 | Every extracted field is stripped and holds no line break |
| `ExtractionProperties.ExtractShape` | src/rap_obsidian_utils/cli.py:194-218 | Title and book are stripped single lines; every author is non-empty, stripped and free of `,` `;` `&`; the date is already normal |
| `ExtractionProperties.ExtractNoTitle` | src/rap_obsidian_utils/cli.py:195-196 | With no `#` at a line start the title is empty |
| `ExtractionProperties.ExtractNoAuthors` | src/rap_obsidian_utils/cli.py:199-202 | Without the author label there are no authors |
| `ExtractionProperties.ExtractNoBook` | src/rap_obsidian_utils/cli.py:205-206 | Without the publication label the book is empty |
| `ExtractionProperties.ExtractNoDate` | src/rap_obsidian_utils/cli.py:209-211 | Without the date label the date is empty |
| `Authors.AuthorsRoundTrip` | src/rap_obsidian_utils/cli.py:202 | Splitting clean names joined by ", " gives back the names, in order |
| `Authors.SplitAuthorsClean` | src/rap_obsidian_utils/cli.py:202 | Every name the split keeps is non-empty, stripped, and has no separator inside |
| `DocumentRoundTrip.ExtractRendered` | src/rap_obsidian_utils/cli.py:180-218 | A note laid out as heading, author, publication and date lines extracts to its title, authors and book, and the normalised date |
| `DocumentRoundTrip.EmptyLabelTakesNextLine` | src/rap_obsidian_utils/cli.py:199-211 | A label with nothing after it takes the next line as its value |
| `FrontMatter.ParseFrontMatter` | src/rap_obsidian_utils/cli.py:227-228 | A block exists exactly when the text starts with `---\n` and a `\n---` follows from position 4 on; the block is the text up to the first such closer |
| `FrontMatterProperties.ParseComposed` | src/rap_obsidian_utils/cli.py:227-228 | `---\n` + text without a closer + `\n---` + anything parses back to exactly that text |
| `FrontMatterProperties.BlockHasNoCloser` | src/rap_obsidian_utils/cli.py:227-228 | The parsed block never contains `\n---` |
| `FrontMatterProperties.NewFieldsDashFree` | src/rap_obsidian_utils/cli.py:232-238 | With single-line values, no line of the new fields starts with `---`; the fields start with `T` and end with `"` |
| `FrontMatterProperties.InjectFresh` | src/rap_obsidian_utils/cli.py:250-253 | Without front matter, the output's block is exactly the new fields, followed by a line break and the whole original note |
| `FrontMatterProperties.InjectExisting` | src/rap_obsidian_utils/cli.py:240-249 | With front matter, the output's block is the new fields, a line break and the stripped old block, followed by the note after the old block |
| `FrontMatterProperties.InjectDashedBlock` | src/rap_obsidian_utils/cli.py:240-249 | If the stripped old block starts with `---`, the output's block is the new fields alone |
| `FrontMatterProperties.InjectFieldsFirst` | src/rap_obsidian_utils/cli.py:221-253 | In every case the output opens with a block whose text starts with the new fields |
| `FrontMatterProperties.InjectTwice` | src/rap_obsidian_utils/cli.py:221-253 | Injecting twice into a note without front matter gives a block holding the fields twice |
| `Validator.QuoteFrom` | src/rap_obsidian_utils/cli.py:288 | The lazy quoted group ends at the first `"`, on the same line; it fails only when the line ends first |
| `Validator.Validate` | src/rap_obsidian_utils/cli.py:263-330 | Valid exactly when there are no errors; without a block the only error is the missing delimiters, with no warnings |
| `RoundTrip.InjectThenValidate` | src/rap_obsidian_utils/cli.py:221-330 | Injected metadata validates against itself with no errors |
| `RoundTrip.OtherTitleInvalid` | src/rap_obsidian_utils/cli.py:288-292 | Checking an injected note against a different title fails |
| `RoundTrip.EmptyTitleInvalid` | src/rap_obsidian_utils/cli.py:288-290 | An empty expected title never validates |
| `RoundTrip.DateOnlyWarns` | src/rap_obsidian_utils/cli.py:313-317 | The expected date changes only the warnings, never the errors or the verdict |
| `RoundTrip.EmptyDateInvalid` | src/rap_obsidian_utils/cli.py:313-315 | An empty date injected into a note without front matter gives the missing-date error |
| `ChangeDetector.ShouldSync` | src/rap_obsidian_utils/sync.py:66-92 | The flag is set exactly when a reason is given; the reason is `NewFile` exactly when the destination is missing; `ContentChanged` needs differing contents |
| `ChangeDetector.MissingIsNew` | src/rap_obsidian_utils/sync.py:73-75 | A missing destination is new, whatever the times and contents |
| `ChangeDetector.NewerSkipsHash` | src/rap_obsidian_utils/sync.py:80-82 | A source newer by more than the tolerance is `MtimeNewer`, and the contents do not affect the answer |
| `ChangeDetector.WithinToleranceComparesContent` | src/rap_obsidian_utils/sync.py:84-89 | Within the tolerance the contents alone decide |
| `ChangeDetector.NewerDestinationKept` | src/rap_obsidian_utils/sync.py:91-92 | A destination newer by more than the tolerance is never overwritten |
| `ChangeDetector.ReasonCharacterised` | src/rap_obsidian_utils/sync.py:66-92 | Each reason is characterised by the time difference and the contents alone, without the order of the checks |
| `ChangeDetector.IdenticalNeedsNoSync` | src/rap_obsidian_utils/sync.py:84-92 | A destination with the source's time and contents needs no copy |
| `ChangeDetector.ReasonLabelsDistinct` | src/rap_obsidian_utils/sync.py:177-183 | The three labels are pairwise different, and none of them is the "unknown" fallback |
| `SyncPlan.BuildSyncPlan` | src/rap_obsidian_utils/sync.py:104-138 | A plan exists exactly when `should_sync_file` can answer for every non-link scanned file: its destination is missing, or its source is still a file. Otherwise `stat` raises and there is no plan (`None`). In a plan, every non-link scanned file is a candidate (source and destination under the two roots, with the detector's reason) or skipped (the detector said no). Both lists follow scan order, and together they count the non-link files |
| `SyncPlan.PlanExclusive` | src/rap_obsidian_utils/sync.py:126-136 | No file is both a candidate and skipped |
| `SyncExecutor.Copy` | src/rap_obsidian_utils/sync.py:164 | The destination gets the source's contents and time; every other path is unchanged |
| `SyncExecutor.ExecuteSync` | src/rap_obsidian_utils/sync.py:141-174 | Each candidate is synced or reported under its source path, in order. A dry run syncs all and touches nothing. `skipped_files` is empty. Nothing is deleted, and only synced destinations change (a failed copy changes nothing in the model). With all sources present, each outcome is the oracle's. Without interference, each synced destination holds its source |
| `SyncExecutor.OutcomesPartition` | src/rap_obsidian_utils/sync.py:154-168 | Outcomes given by the copy oracle are a split of the candidates |
| `SyncExecutor.PartitionCounts` | src/rap_obsidian_utils/sync.py:151-174 | Synced plus errors count the candidates; synced files and reported paths each keep candidate order |
| `SyncExecutor.NoFailuresSyncAll` | src/rap_obsidian_utils/sync.py:154-157 | When no copy fails, every candidate is synced and there are no errors |
| `SyncExecutor.PlanNonInterfering` | src/rap_obsidian_utils/sync.py:122-124 | With separate roots and distinct relative paths, no two candidates share a destination and no destination is a source |
| `SyncExecutor.SubseqDistinct` | src/rap_obsidian_utils/sync.py:117-136 | Candidates drawn from a listing without repeats have no repeats, and each comes from the listing |
| `SyncExecutor.ReplanSkipsSynced` | src/rap_obsidian_utils/sync.py:77-92 | After a faithful copy, planning again skips the file |

## Left out

- The command-line entry points (`main`, `sync_main`), the `click` options and the `rich` tables
  and panels (`display_*`) are user interface and are not modelled.
- Reading and writing the note files is I/O and is not modelled. The front-matter functions
  work on the text.
- `compute_file_hash` (chunked SHA-256) is replaced by comparing contents; hash collisions are
  ignored.
- `find_markdown_files` (`rglob("*.md")`, sorted) is I/O. The sorted listing is a parameter of
  `SyncPlan.BuildSyncPlan`.
- `is_symlink` is I/O. The set of symbolic links is a parameter.
- Modification times are reals, not floats, so rounding is not modelled.
- Creating parent directories is not modelled, because the file-system map has no directories.
  A failure of `mkdir` is one of the oracle's outcomes.
- `shutil.copy2` copies permissions too; only contents and time are modelled.
- Exception messages come from the oracle. A source missing at copy time gives the fixed
  message "No such file or directory", not Python's full `str(e)` text.
- `__init__.py` re-exports the `cli.py` API and holds the package version; it has no logic.
- `\d` and `.lower()` are ASCII-only in the model. Date normalisation only sees ASCII text
  after cleaning, so this changes nothing there.
- SyncPlan.BuildSyncPlan: the sorted order is inherited from the listing parameter rather than
  proved.
- SyncPlan.BuildSyncPlan: directories are not modelled; `fs` holds only regular files.
  - A listed source that is a directory (say, one named `x.md`) with an existing destination
    aborts the plan in the model. The code aborts only when the times are within the tolerance,
    where hashing the directory raises. Otherwise it makes a candidate or skips the file.
  - A destination path that is a directory is treated as missing (`NewFile`). The code sees it as
    existing, compares times, and may raise while hashing it.
- SyncPlan.BuildSyncPlan: the model's abort is the result `None`. The exception's propagation
  through `sync_main` is not modelled.
- SyncExecutor.ExecuteSync: a failed copy is modelled as atomic: it leaves its destination as
  it was. `shutil.copy2` does not promise this. It runs `copyfile` and then `copystat`, so a
  `PermissionError` from `os.utime`, or a full disk in the middle of the write, can leave the
  destination rewritten or truncated while the candidate is reported under `errors`.
- SyncExecutor.ExecuteSync: the exact per-candidate outcome is stated only when every source
  exists at the start, and a destination is guaranteed its source's contents only when no
  candidate writes over another's source or destination.
- RoundTrip.InjectThenValidate: holds for single-line values, a non-empty title without `"`, and
  a non-empty date. The code rejects its own output otherwise (see
  `RoundTrip.EmptyTitleInvalid` and `RoundTrip.EmptyDateInvalid`).
- DocumentRoundTrip.ExtractRendered: covers notes in the rendered layout. The values must be
  single-line, stripped, free of `*`, and must have at least one author, so that no earlier
  match can steal a field.
- Validator.Validate: its own contract states only the verdict and the missing-block case. The
  individual checks are stated by the `RoundTrip` lemmas.
