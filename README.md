# CpG methylation upload pipeline — a Dafny model

This project models the core of a CpG methylation upload pipeline. The pipeline
reads a delimited table of methylation measurements and renames its columns to a
fixed canonical schema (`cpg_id`, `beta`, `chrom`, `pos`, `gene`, `pval`). It
then validates the identifier and beta columns, stamps provenance columns, and
computes a quality-control summary. The model proves properties of each stage.

A table is modelled as a list of column labels plus a list of rows. Each row
holds one cell per column, and a cell is `Missing` (pandas NaN), `Text(s)` or
`Num(r)` with `r` an exact `real`. Rows are positional, so every table is
already "re-indexed" 0..n-1.

Modules, one per source file or component:

- `Strings` (strings.dfy): `str.lower`, `str.strip`, `", ".join`, and the decimal rendering of a count.
- `Wrappers` (wrappers.dfy): the `Option` and `Result` datatypes the other modules share.
- `Frame` (frame.dfy): the few DataFrame operations the pipeline uses: a column, assigning a column, selecting columns, and `dropna(subset=…)`.
- `Errors` (errors.dfy): the exceptions raised and caught.
- `Transform` (transform.dfy): `core/transform.py`. This covers the alias table, `canonicalize_columns` as an imperative method with its nested loops and `break`, and `select_canonical_columns`. It also stands for the identical copy, `_canonicalize_columns`, in `core/ingest.py`. `TransformExample` (transform_example.dfy) works the aliasing example of `tests/test_transform.py`.
- `Io` (io.dfy): `core/io.py`, meaning `detect_delimiter` (identical to `_detect_delimiter` in `core/ingest.py`) and the branch of `read_table_bytes`.
- `Validate` (validate.dfy): the `ensure_*` checks, which are the same in `core/validate.py` and `src/cpg_methylation_mvp/core/validate.py`, plus `validate_upload` with its fixed check order.
- `Ingest` and `IngestProperties` (ingest.dfy): `load_methylation_file` of `core/ingest.py`. It runs the checks inline, prunes the rows with a missing beta, and only then range-checks.
- `PackageIngest` and `PackageIngestProperties` (package_ingest.dfy): `load_methylation_file` of `src/cpg_methylation_mvp/core/ingest.py`. It calls `validate_upload`, which range-checks the unpruned table, prunes afterwards, and maps exceptions in an ordered except-chain.
- `Variants` (variants.dfy): the two loaders compared.
- `Analyze` and `AnalyzeLoaded` (analyze.dfy): `qc_summary` of `core/analyze.py`, and the summary of any table a loader accepts.

Both loaders are written as methods that rebind the table stage by stage. Each
method is tied by its `ensures` to a function with the same stages, and the
lemmas reason about that function.

Foreign code becomes a parameter:

- pandas `read_csv` becomes `parse: (seq<byte>, Sep) -> ParseOutcome`. It yields a table, `EmptyDataError`, or another parser error.
- `pd.to_numeric(errors="coerce")` on a string becomes `toNumber: string -> Option<real>`.
- `str()` of a float becomes `show: real -> string`.
- `datetime.now(timezone.utc).isoformat()` becomes the string `now`.

Points where the code decides a question of behaviour:

- **Check order.** The two loaders range-check at different points. `core/ingest.py:114-117` prunes the rows with a missing beta first and range-checks what is left. `src/cpg_methylation_mvp/core/validate.py:80-82` range-checks the unpruned table, and the src loader prunes afterwards (`src/cpg_methylation_mvp/core/ingest.py:38-39`). Both are modelled as written. `Variants.LoadersAgree` proves the choice does not matter: missing betas are never counted out of range, so both loaders accept the same uploads and return the same table. `Variants.LoadersFailAlike` proves they fail with the same message except in one case. That case is a non-empty table with no canonical column at all: `core/ingest.py` reports the missing `cpg_id, beta`, while the `src` loader reports the table as empty. `Variants.NoCanonicalColumnDiverges` states this.
- **Pruning.** `cpg_id` is converted with `astype(str)` (`core/ingest.py:103`) before `dropna(subset=["beta", "cpg_id"])` (`core/ingest.py:115`), so a missing identifier becomes the text `"nan"` and is never dropped. Pruning therefore removes exactly the rows with a missing beta (`IngestProperties.PruneDropsExactlyMissingBetas`).
- **Label clashes.** When two columns share a key after lower/strip (`beta` and `Beta`, say), renaming can leave two columns with one label, and pandas then hands a DataFrame, not a Series, to the checks. The model takes the first such column instead. `Ingest.NoLabelClash` names the uploads without a clash, and the lemmas about a whole loader assume it. `Transform.RenamingKeepsLabelsDistinct` shows that labels distinct after lower/strip never clash.
- **Empty check.** `ensure_non_empty_dataframe` uses `DataFrame.empty`. That is true for zero rows and also for zero columns, and the model keeps both cases.
- **`source_file`.** This column holds the literal `"uploaded_file"`, not the file name, as in the code.

## Model

| member | source | states |
|---|---|---|
| Transform.AliasListsDisjoint | core/transform.py:16-23 | after lowering, no alias belongs to two canonical names, and the six canonical names are distinct |
| Transform.CanonicalIsFirstAlias | core/transform.py:7-23 | the alias table lists the canonical names in CANONICAL_COLUMNS order, and each canonical name is its own first alias and its own lowered, stripped key |
| Transform.LoweredWinner | core/transform.py:28 | the `lowered` dict maps a key to the LAST source column having that key after lower/strip |
| Transform.FirstPresentIsFirst | core/transform.py:32-36 | the alias the inner loop stops at is present, and every alias before it in priority order is absent |
| Transform.FirstPresentAt | core/transform.py:32-36 | conversely, when alias j is present and all earlier ones are absent, the loop stops at alias j |
| Transform.LowerColumns | core/transform.py:28 | the dict comprehension builds exactly `lowered`, and every column's lowered, stripped label is one of its keys |
| Transform.FindFirstPresent | core/transform.py:32-36 | the inner loop stops, with `break`, at the first alias in priority order whose lowered form is a key of `lowered`, and finds none when no alias is present |
| Transform.BuildRenameMap | core/transform.py:29-36 | the outer loop over the canonical names builds exactly the rename map, one pass per canonical name |
| Transform.RenameMap | core/transform.py:29-36 | the rename map; it has no contract of its own, `BuildRenameMap` computes it by the two loops and `RenamedToCanonical` states exactly which labels it renames and to what |
| Transform.RenameFoldSnoc | core/transform.py:31-36 | one pass of the outer loop adds at most the entry for that canonical name, from its first present alias |
| Transform.CanonicalizeColumns | core/transform.py:26-38 | the two loops with `break` build exactly the rename map, relabel the columns by it and leave the rows unchanged |
| Transform.Canonicalize | core/transform.py:38 | renaming keeps the row list and the column count, only relabelling |
| Transform.RenamesOnlyToCanonical | core/transform.py:35-38 | every label either keeps its name or becomes a canonical name; column order is kept |
| Transform.RenamedToCanonical | core/transform.py:31-36 | a column is renamed to a canonical name exactly when it is the column keyed by that name's first present alias |
| Transform.AtMostOneSourcePerCanonical | core/transform.py:31-36 | for distinct labels, no two renamed columns receive the same canonical name |
| Transform.EarlierCollisionKeepsLabel | core/transform.py:28 | of two columns equal after lower/strip, the earlier one is never renamed |
| Transform.UnknownColumnPassesThrough | core/transform.py:38 | a column whose key is no alias keeps its label |
| Transform.MatchIgnoresCaseAndWhitespace | core/transform.py:28-34 | two label lists with equal keys position by position are renamed alike, in both directions |
| Transform.CanonicalizeIdempotent | core/transform.py:16-38 | for labels distinct after lower/strip, canonicalising twice equals canonicalising once |
| Transform.RenamingKeepsLabelsDistinct | core/transform.py:26-38 | for labels distinct after lower/strip, no two columns carry one label after renaming |
| Transform.RenamedApart | core/transform.py:31-36 | two renamed columns get different canonical names |
| Transform.RenamedAvoidsKept | core/transform.py:28-36 | a renamed column never takes the label of a column left alone, when keys are distinct |
| Transform.PresentIn | core/transform.py:43 | the kept names are exactly the canonical names present, in canonical order |
| Transform.SelectCanonicalColumns | core/transform.py:41-44 | the result has exactly the canonical columns present, in canonical order, without repeats, the same rows and each kept cell from the same column |
| Transform.LoweredKeys | core/transform.py:28 | the keys of `lowered` are exactly the lowered, stripped column labels |
| Transform.Lowered | core/transform.py:28 | the `lowered` dict; it has no contract of its own, and `LowerColumns`, `LoweredKeys` and `LoweredWinner` state its keys and which column each key keeps |
| TransformExample.CanonicalExample | tests/test_transform.py:6-10 | `CpG, Beta, chr, extra` canonicalise to `cpg_id, beta, chrom, extra` |
| TransformExample.SelectedExample | tests/test_transform.py:6-13 | after selection the columns are `cpg_id, beta, chrom` and the first cpg_id is `cg1` |
| Strings.LowerOfLower | core/transform.py:28 | lowering gives a lower-case string and leaves a lower-case string unchanged |
| Strings.Lower | core/transform.py:28 | `str.lower()` keeps the length and lowers each character on its own |
| Strings.Strip | core/ingest.py:103 | `str.strip()`; it has no contract of its own, and `StripIsTrimmed` and `StripIdempotent` state what it leaves |
| Strings.StripIsTrimmed | core/ingest.py:103 | `str.strip()` leaves no surrounding whitespace |
| Strings.StripIdempotent | core/ingest.py:103 | stripping twice equals stripping once |
| Strings.DecimalRoundTrip | core/validate.py:49 | the decimal rendering of a count reads back as that count |
| Strings.JoinContains | core/validate.py:34 | every joined item appears in the `", ".join` result |
| Strings.Join | core/validate.py:34 | `", ".join` gives the empty string for no items and the item itself for one item |
| Frame.Column | core/validate.py:43 | `df[name]` has one cell per row, taken from the first column with that label |
| Frame.IsEmpty | core/validate.py:24 | `df.empty` is true exactly when the table holds no cell |
| Frame.MapColumn | src/cpg_methylation_mvp/core/validate.py:77-80 | overwriting a column changes that column cell by cell and nothing else |
| Frame.AssignConstant | core/ingest.py:122-123 | assigning a constant column sets every row and appends the column when it is new; other cells are kept |
| Frame.Select | core/transform.py:44 | `df[keep]` has the listed columns in the listed order, with their cells |
| Frame.KeepCompleteSpec | core/ingest.py:115 | `dropna(subset)` keeps the complete rows and only them, in their original order and as many as there are (duplicates included), and changes nothing when every row is complete |
| Frame.KeepCompleteCount | core/ingest.py:115 | the number of rows `dropna(subset)` keeps is the number of positions holding a complete row |
| Frame.KeepCompleteSnoc | core/ingest.py:115 | one more row at the end is kept exactly when it is complete, after the rows kept before it |
| Frame.DropMissingCount | core/ingest.py:115 | `dropna` on one column keeps as many rows as have a value in that column |
| Frame.DropMissing | core/ingest.py:115 | `dropna(subset)` keeps the column list, never adds rows, and every row it keeps has a value in each listed column |
| Frame.DropMissingColumn | core/ingest.py:115 | every cell dropna keeps comes from the same column, and a checked column has no missing cell left |
| Frame.SelectDropMissing | src/cpg_methylation_mvp/core/ingest.py:37-39 | dropna on selected columns equals selecting after dropna |
| Frame.SelectMapColumn | src/cpg_methylation_mvp/core/validate.py:77-80 | overwriting a kept column commutes with the column selection |
| Io.Suffix | core/io.py:13 | the suffix is empty or a dot plus at least one dot-free character, taken from the end of the name after a non-initial dot |
| Io.Name | core/io.py:13 | `Path(filename).name` is the last path component and holds no slash |
| Io.LastIndex | core/io.py:13 | the last occurrence of a character, or -1 when there is none |
| Io.DelimiterFromExtension | core/io.py:11-17 | a name ending in `.tsv` or `.csv` in any letter case, in any directory, gives tab or comma; only the last extension counts (`a.tsv.csv` gives comma) |
| Io.DetectDelimiter | core/io.py:11-18 | a fixed separator is tab or comma, and only a name with a suffix gets one; `DelimiterFromExtension`, `OtherExtensionSniffs` and `NoSuffixSniffs` state which names get which |
| Io.OtherExtensionSniffs | core/io.py:18 | any other extension, such as `.txt`, gives None and so sniffing |
| Io.NoSuffixSniffs | core/io.py:13-18 | a name without an extension, or a dot file such as `.tsv`, gives None |
| Io.ChooseSep | core/io.py:24-29 | a fixed separator is used exactly when one is detected; otherwise the parser sniffs |
| Io.ReadTableBytes | core/io.py:21-29 | the parser is called with tab for `.tsv`, comma for `.csv`, and sniffing otherwise |
| Validate.ConfigOrDefault | src/cpg_methylation_mvp/core/validate.py:72 | with no config, the required columns are `("cpg_id", "beta")`; a given config is used as is |
| Validate.Coerce | core/validate.py:43 | coercion keeps a number, keeps a missing cell missing, and turns text into its number or into missing |
| Validate.AsText | src/cpg_methylation_mvp/core/validate.py:77 | `astype(str).str.strip()` gives trimmed text, the stripped string for text, and `"nan"` for a missing cell |
| Validate.CountWhereIsCardinality | core/validate.py:44-45 | a mask's sum is the number of positions where the mask holds |
| Validate.CountWhereZero | core/validate.py:45-47 | a count is zero exactly when no cell is counted |
| Validate.CountWhereAppend | core/validate.py:45 | the count over two concatenated columns is the sum of the two counts |
| Validate.EnsureNonEmpty | core/validate.py:22-27 | fails exactly when the table has zero rows or zero columns, with the empty-table message |
| Validate.MissingColumns | core/validate.py:32 | the missing list is exactly the required names absent from the table, in the given order |
| Validate.EnsureRequiredColumns | core/validate.py:30-38 | fails exactly when some required column is absent; the message joins the missing list |
| Validate.EnsureBetaNumeric | core/validate.py:41-51 | fails exactly when some present beta does not parse as a number, reporting that count (> 0); a missing beta column raises KeyError |
| Validate.EnsureBetaInRange | core/validate.py:54-63 | over non-text betas, fails exactly when some number is < 0 or > 1, reporting that count (> 0); missing cells are never counted |
| Validate.MissingMessageNamesColumns | core/validate.py:34-38 | the message contains "Missing required column" and each missing name |
| Validate.CountMessagesReport | core/validate.py:47-62 | the count printed after "Found " in both count messages reads back as the exact count |
| Validate.NonNumericMessageSays | core/validate.py:48-50 | the non-numeric message contains "non-numeric beta" |
| Validate.DropMissingKeepsCount | core/validate.py:56-57 | dropping only rows whose beta is missing keeps any count that never counts a missing cell |
| Validate.RangeCountIgnoresMissing | core/validate.py:56-57 | the out-of-range count of a table equals the count after dropping its missing-beta rows |
| Validate.ValidateUpload | src/cpg_methylation_mvp/core/validate.py:67-83 | the method copies the table, overwrites cpg_id and beta, runs the seven checks in their fixed order, and the first failure decides |
| Validate.TrimIds | src/cpg_methylation_mvp/core/validate.py:77 | overwriting `cpg_id` with trimmed text keeps the column list and the row count |
| Validate.CoerceBeta | src/cpg_methylation_mvp/core/validate.py:80 | overwriting `beta` with its coerced values keeps the column list and the row count |
| Validate.Validated | src/cpg_methylation_mvp/core/validate.py:72-83 | validate_upload stage by stage; it has no contract of its own, and `ValidatedEarlyFailure`, `ValidatedSucceedsExactly` and `ValidatedShape` state when it fails and what a success holds |
| Validate.ValidatedEarlyFailure | src/cpg_methylation_mvp/core/validate.py:72-74 | an empty table fails with the empty-table message and one lacking cpg_id or beta with the missing-columns message naming them, before any rewrite |
| Validate.ValidatedPresent | src/cpg_methylation_mvp/core/validate.py:76-83 | on a non-empty table with both columns, the outcome is decided by the numeric count, then the emptiness after dropna, then the range check, in that order |
| Validate.CoercedBetasNotText | src/cpg_methylation_mvp/core/validate.py:77-80 | after trimming ids and coercing betas no beta is text, so the range check cannot raise TypeError |
| Validate.NumericStageIff | src/cpg_methylation_mvp/core/validate.py:79 | the numeric check counts no bad beta exactly when every beta of the upload is numeric or missing |
| Validate.PruneStageIff | src/cpg_methylation_mvp/core/validate.py:80-81 | the table left by dropna has rows exactly when some beta coerces to a number |
| Validate.RangeStageIff | src/cpg_methylation_mvp/core/validate.py:80-82 | the range check passes exactly when no coerced beta lies outside [0, 1] |
| Validate.ValidatedSucceedsExactly | src/cpg_methylation_mvp/core/validate.py:72-83 | with the default config, validation succeeds exactly when the table is non-empty, has both columns, every present beta is numeric, some beta is present, and every beta is in [0, 1] |
| Validate.ValidatedShape | src/cpg_methylation_mvp/core/validate.py:76-83 | on success, the columns and row count are unchanged (no pruning); each cpg_id is trimmed text; each beta is the coerced input, missing or in [0, 1]; other cells are untouched |
| Validate.AllBetasMissingIsEmpty | src/cpg_methylation_mvp/core/validate.py:81 | rows exist but every beta is missing: the upload fails as empty |
| Validate.PresentBetaKeepsRow | src/cpg_methylation_mvp/core/validate.py:81 | once ids are text, the table after dropna is empty exactly when every beta is missing |
| Validate.DefaultFailuresAreValidationErrors | src/cpg_methylation_mvp/core/validate.py:72-83 | with the default config every failure is a ValidationError; the KeyError and TypeError paths are unreachable |
| Validate.NormalizedCells | src/cpg_methylation_mvp/core/validate.py:77-80 | after the two overwrites, cpg_id is its text form, beta is its coerced value, and every other cell is unchanged |
| Ingest.ReadWithSniffing | core/ingest.py:52-68 | a parsed table is returned; EmptyDataError becomes "appears empty", and any other parser error becomes "Could not parse" |
| Ingest.Rewrap | core/ingest.py:126-129 | an IngestError passes through unchanged; another ValidationError becomes an IngestError with the identical message |
| Ingest.Provenance | core/ingest.py:122-123 | `source_file` and `uploaded_at` are appended, holding the literal `uploaded_file` and the timestamp; every other cell is kept |
| Ingest.Pruned | core/ingest.py:103-115 | trimming ids, coercing betas and pruning keep the column list |
| Ingest.LoadMethylationFile | core/ingest.py:85-129 | the method applies the None guard, runs the try block, and re-raises a ValidationError as IngestError, as `Load` states |
| Ingest.TryLoad | core/ingest.py:90-125 | the try block, rebinding `normalized` stage by stage, computes `LoadAttempt` |
| Ingest.LoadParsed | core/ingest.py:97-123 | a success has at least one row and ends with the columns `source_file` and `uploaded_at` |
| Ingest.LoadAttempt | core/ingest.py:90-125 | a success came from non-empty bytes, has at least one row and ends with the two provenance columns |
| Ingest.Load | core/ingest.py:85-129 | a success came from a given, non-empty file, has at least one row and ends with the two provenance columns |
| Ingest.RequiredPresent | core/ingest.py:100 | passing the default required-columns check means cpg_id and beta exist |
| Ingest.SourceNameChoice | core/ingest.py:91 | the name used is a non-empty `source_name`, else the file's `name`, else `"uploaded_file"` |
| Ingest.SourceName | core/ingest.py:91 | the name is a non-empty `source_name`, or the file's own name, or "uploaded_file" |
| IngestProperties.UploadGuards | core/ingest.py:87-94 | a None upload fails with "No file was provided…"; zero bytes fail with "The uploaded file is empty…" before parsing |
| IngestProperties.LoadFromParsed | core/ingest.py:96-129 | once the bytes parse, the result is that of the checks, with a failure rewrapped |
| IngestProperties.LoadSucceedsOnlyFromParsed | core/ingest.py:92-96 | a successful load had a file, non-empty bytes and a parsed table |
| IngestProperties.MissingColumnsReported | core/ingest.py:100 | cpg_id or beta missing after aliasing fails with "Missing required column" plus the missing name |
| IngestProperties.NonNumericReported | core/ingest.py:105-112 | a non-zero count of present but non-numeric betas fails with an IngestError reporting that count and saying "non-numeric beta" |
| IngestProperties.PruneDropsExactlyMissingBetas | core/ingest.py:103-115 | pruning removes exactly the rows whose coerced beta is missing and keeps the others in order, as many rows as have a beta |
| IngestProperties.PrunedCells | core/ingest.py:103-115 | after pruning, every beta is a number and every cpg_id is trimmed text |
| IngestProperties.ParsedFailuresAreValidationErrors | core/ingest.py:97-117 | for a table without a label clash, every failure of the checks is a ValidationError or IngestError, never KeyError or TypeError |
| IngestProperties.LoadFailuresAreIngestErrors | core/ingest.py:85-129 | for uploads that read without a label clash, every failure of the core loader is an IngestError |
| IngestProperties.CanonicalPrefix | core/ingest.py:119 | when cpg_id and beta are present they lead the kept columns |
| IngestProperties.ProvenanceCells | core/ingest.py:122-123 | the `source_file` column is all `uploaded_file`, `uploaded_at` is all the timestamp, and other columns are kept |
| IngestProperties.LoadParsedSucceeded | core/ingest.py:97-123 | a success passed the required-columns check, non-emptiness after pruning and the range check, in that order |
| IngestProperties.FinishCells | core/ingest.py:119-123 | selection then stamping gives the present canonical columns in canonical order plus the two provenance columns, with cells kept |
| IngestProperties.FinishedCells | core/ingest.py:117-120 | after a passed range check, the kept betas are numbers in [0, 1] and the ids are trimmed text |
| IngestProperties.LoadedColumns | core/ingest.py:119-125 | for a table without a label clash, on success the columns are the present canonical ones in canonical order, then `source_file` (the literal tag) and `uploaded_at` (the timestamp) |
| IngestProperties.LoadedCells | core/ingest.py:114-117 | for a table without a label clash, on success the table is non-empty, every beta is a number in [0, 1] and every cpg_id is trimmed text |
| IngestProperties.LoadedColumnOrder | tests/test_smoke_core.py:13 | for a table without a label clash, on success the first two columns are `cpg_id, beta` |
| PackageIngest.ValidatedColumns | src/cpg_methylation_mvp/core/ingest.py:37-38 | a validated normalised table has only canonical columns, including cpg_id and beta |
| PackageIngest.NormalizeUpload | src/cpg_methylation_mvp/core/ingest.py:37 | normalising keeps every row and leaves only canonical columns, each once |
| PackageIngest.PruneValidated | src/cpg_methylation_mvp/core/ingest.py:39 | pruning after validation keeps the normalised columns, none of them a provenance column |
| PackageIngest.MapError | src/cpg_methylation_mvp/core/ingest.py:45-56 | every exception becomes an IngestError: "appears empty" for EmptyDataError, the same text for a ValidationError, and "Could not parse" otherwise |
| PackageIngest.LoadMethylationFile | src/cpg_methylation_mvp/core/ingest.py:23-56 | the method applies the None guard, runs the try block, and maps exceptions in the except-chain order, as `Load` states |
| PackageIngest.TryLoad | src/cpg_methylation_mvp/core/ingest.py:28-44 | the try block, rebinding `normalized` stage by stage, computes `LoadAttempt` |
| PackageIngest.LoadParsed | src/cpg_methylation_mvp/core/ingest.py:35-44 | a success has at least one row and ends with the columns `source_file` and `uploaded_at` |
| PackageIngest.LoadAttempt | src/cpg_methylation_mvp/core/ingest.py:28-44 | a success came from non-empty bytes, has at least one row and ends with the two provenance columns |
| PackageIngest.Load | src/cpg_methylation_mvp/core/ingest.py:23-56 | a success came from a given, non-empty file, has at least one row and ends with the two provenance columns |
| PackageIngestProperties.UploadGuards | src/cpg_methylation_mvp/core/ingest.py:25-32 | a None upload fails with "No file was provided…"; zero bytes fail with "The uploaded file is empty…" |
| PackageIngestProperties.FailuresAreIngestErrors | src/cpg_methylation_mvp/core/ingest.py:45-56 | every failure of the src loader is an IngestError |
| PackageIngestProperties.ReadFailuresMapped | src/cpg_methylation_mvp/core/ingest.py:45-56 | an empty-data parse fails as "appears empty"; another parser failure fails as "Could not parse…" |
| PackageIngestProperties.LoadFromParsed | src/cpg_methylation_mvp/core/ingest.py:34-56 | once the bytes parse, the result is that of the checks, with the exception mapped |
| PackageIngestProperties.LoadParsedSucceeded | src/cpg_methylation_mvp/core/ingest.py:35-44 | a success passed validate_upload and the second non-empty check, and stamped the pruned table |
| PackageIngestProperties.LoadedShape | src/cpg_methylation_mvp/core/ingest.py:38-44 | for a table without a label clash, on success the table is non-empty and no beta is missing; every beta is in [0, 1]; the columns are followed by the literal `source_file` and the timestamp |
| PackageIngestProperties.PrunedBetas | src/cpg_methylation_mvp/core/ingest.py:38-40 | the betas kept after validation and dropna are numbers in [0, 1] |
| Variants.MissingColumnsAgree | src/cpg_methylation_mvp/core/validate.py:74 | two column lists with the same required names give the same missing list |
| Variants.SelectionKeepsRequired | src/cpg_methylation_mvp/core/ingest.py:37 | normalize_upload keeps cpg_id and beta exactly when they are present |
| Variants.SelectionCommutes | src/cpg_methylation_mvp/core/ingest.py:37-39 | trimming ids, coercing betas and pruning commute with the canonical selection |
| Variants.RangeCheckByCount | core/validate.py:54-63 | two range checks over non-text betas with equal out-of-range counts give the same result |
| Variants.PruningKeepsRangeCheck | core/ingest.py:115-117 | range-checking after pruning gives the same verdict and message as before pruning |
| Variants.RangeChecksAgree | src/cpg_methylation_mvp/core/ingest.py:38-40 | the core range check on the pruned table agrees with validate_upload's range check on the unpruned, selected table |
| Validate.NumericCheckByCount | core/validate.py:41-51 | the numeric check raises exactly when its count is positive, with that count |
| Variants.StagesAgree | src/cpg_methylation_mvp/core/validate.py:76-82 | each stage of validate_upload on the normalised table matches the corresponding core stage |
| Variants.CoreTail | core/ingest.py:100-123 | with both columns present, the core checks are the numeric count, emptiness after pruning, the range check, then provenance |
| Variants.PackageTail | src/cpg_methylation_mvp/core/ingest.py:37-44 | with both columns present, the src checks are the same, in the same order |
| Variants.TailsAgree | src/cpg_methylation_mvp/core/ingest.py:35-44 | when some canonical column is present, both loaders give the same table or errors that read the same once mapped |
| Variants.TailsAgreeMissing | src/cpg_methylation_mvp/core/validate.py:74 | with cpg_id or beta missing, both loaders report the same missing columns |
| Variants.NoCanonicalColumnDiverges | src/cpg_methylation_mvp/core/ingest.py:37-38 | on a non-empty table without canonical columns, core reports missing `cpg_id, beta` and src reports an empty file |
| Variants.AttemptsAgree | src/cpg_methylation_mvp/core/ingest.py:28-44 | on one upload that reads without a label clash, both try blocks succeed together with the same table, and otherwise fail alike except on the divergent case |
| Variants.LoadersAgree | src/cpg_methylation_mvp/core/ingest.py:23-56 | for uploads that read without a label clash, both loaders accept and reject the same uploads and return the same table, whichever order they check range and pruning in |
| Variants.LoadersFailAlike | src/cpg_methylation_mvp/core/ingest.py:45-56 | for uploads that read without a label clash and outside the divergent case, both loaders give identical results, errors included |
| Analyze.Present | core/analyze.py:16-18 | the non-missing betas are exactly the numbers of the column, and none exist only when no cell is a number |
| Analyze.Min | core/analyze.py:16 | the minimum is a member and lies at or below every member |
| Analyze.Max | core/analyze.py:18 | the maximum is a member and lies at or above every member |
| Analyze.Sort | core/analyze.py:17 | the sort used for the median is sorted and a permutation of its input |
| Analyze.Median | core/analyze.py:17 | `Series.median` is one of the values for an odd count and the mean of two of them for an even count |
| Analyze.QcSummary | core/analyze.py:8-19 | a missing beta or cpg_id column raises KeyError, in that order; `row_count` is the number of rows |
| Analyze.Metrics | core/analyze.py:11-19 | the seven metrics of a table with both columns: `row_count` is the number of rows, and `unique_cpg` and `out_of_range_beta_count` never exceed it |
| Analyze.SummarySucceeds | core/analyze.py:9-18 | the summary exists exactly when both columns exist and no beta is text; a text beta raises TypeError |
| Analyze.DistinctValuesBounded | core/analyze.py:13 | the number of distinct values never exceeds the number of cells |
| Analyze.DistinctValues | core/analyze.py:13 | the distinct non-missing ids that `nunique` counts; it has no contract of its own, and `DistinctValuesBounded` bounds their number |
| Analyze.UniqueBounded | core/analyze.py:13 | `unique_cpg` never exceeds `row_count` |
| Analyze.MissingPercentBounds | core/analyze.py:14 | `missing_beta_pct` is NaN exactly on a table without rows, otherwise in [0, 100], and 0 exactly when no beta is missing |
| Analyze.OutOfRangeBounded | core/analyze.py:15 | `out_of_range_beta_count` is at most `row_count`, and 0 exactly when every present beta is in [0, 1] |
| Analyze.MedianBetween | core/analyze.py:16-18 | the median lies between the minimum and the maximum |
| Analyze.MedianOfPair | core/analyze.py:17 | two values in ascending order sort to themselves, and their median is their mean |
| Analyze.BetaStatsOrdered | core/analyze.py:16-18 | `beta_min` ≤ `beta_median` ≤ `beta_max`; min and max are present betas bounding all others; all three are NaN exactly when every beta is missing |
| Analyze.SmokeSummary | tests/test_smoke_core.py:17-23 | the table cg1/cg2/cg2 with betas 0.1/0.5/0.9 has 3 rows, 2 distinct ids and minimum 0.1 |
| Analyze.PairSummary | core/analyze.py:8-19 | the two-row table cg1/0.10, cg2/0.80 summarises to 2 rows and 2 ids, 0 % missing, 0 out of range, min 0.10, median 0.45, max 0.80 |
| AnalyzeLoaded.LoadedTableSummary | core/analyze.py:12-18 | any non-empty table whose betas are all numbers in [0, 1] has 0 % missing and 0 out of range, with 0 ≤ min ≤ median ≤ max ≤ 1 |
| AnalyzeLoaded.CoreLoadedSummary | core/analyze.py:12-18 | for uploads that read without a label clash, the summary of a table the core loader accepts exists, with `missing_beta_pct` 0, `out_of_range_beta_count` 0 and 0 ≤ `beta_min` ≤ `beta_median` ≤ `beta_max` ≤ 1 |
| AnalyzeLoaded.PackageLoadedSummary | core/analyze.py:12-18 | the same holds for a table accepted by the src loader |

## Left out

- pandas `read_csv` is a parameter. This covers delimiter sniffing (`sep=None`) and the tokenising of bytes into rows. Its three outcomes are a table, EmptyDataError, or another parser error.
- `pd.to_numeric(errors="coerce")` on a string and `str()` of a float are parameters. IEEE NaN, infinities and the `float()` casts in `qc_summary` are not modelled: missing is its own cell, numbers are exact reals, and the summary's counts stay natural numbers.
- `Analyze.QcSummary`: pandas NaN results (the missing percentage of a table without rows, or min, median and max with no betas) are `None`.
- The clock: `datetime.now(timezone.utc).isoformat()` is the parameter `now`. Reading the upload (`uploaded_file.read()`) is the `content` of the `Upload` value.
- `src/cpg_methylation_mvp/core/transform.py` is not part of this model. Its `normalize_upload` is taken to be canonicalisation followed by canonical-column selection.
- `src/cpg_methylation_mvp/core/io.py` is not part of this model either. Its `read_table_bytes` is taken to be the one in `core/io.py`.
- `Strings.Lower`: `str.lower` is modelled for ASCII and Latin-1 capitals only, not the full Unicode case mapping.
- `Io.Name`: `Path` is modelled as a POSIX path; Windows drive letters and backslashes are not.
- pandas behaviour when two columns share a label after renaming is not modelled: `Frame.Column` reads the first column with that label, where pandas returns a DataFrame and `pd.to_numeric` or `.str.strip()` then raises. The lemmas about a whole loader (`IngestProperties.ParsedFailuresAreValidationErrors`, `LoadFailuresAreIngestErrors`, `LoadedColumns`, `LoadedCells`, `LoadedColumnOrder`, `PackageIngestProperties.LoadedShape`, `Variants.AttemptsAgree`, `LoadersAgree`, `LoadersFailAlike` and the `AnalyzeLoaded` lemmas) require `Ingest.NoLabelClash`. `PackageIngestProperties.FailuresAreIngestErrors` does not need it, because that loader's final `except Exception` turns any error into an IngestError.
- The row index is implicit: a table's rows are positional, so `reset_index(drop=True)` has nothing to do.
- The `IngestError` classes of the two packages are one exception kind here.
- The Streamlit shells (`app.py`, `app/main.py`, `dna_methylation_app.py`), their caching, hashing and histogram binning, `core/config.py`, `run_pipeline` in `core/__init__.py`, and the import-scanning tests are outside the core.
