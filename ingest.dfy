/** core/ingest.py: load_methylation_file, the variant that runs the checks
    inline, prunes the rows with a missing beta, range-checks what is left and
    then keeps the canonical columns. Its private alias table and
    _canonicalize_columns are the ones of core/transform.py, and
    _detect_delimiter is the one of core/io.py. */
module Ingest {
  import opened Strings
  import opened Wrappers
  import opened Frame
  import opened Errors
  import opened Transform
  import opened Io
  import opened Validate

  /** An uploaded file object: the bytes read() returns, and its `name`
      attribute when it has one. */
  datatype Upload = Upload(content: seq<byte>, name: Option<string>)

  const NoFileMessage: string := "No file was provided. Upload a CSV/TSV file to continue."
  const EmptyUploadMessage: string := "The uploaded file is empty. Please choose a non-empty CSV/TSV file."
  const AppearsEmptyMessage: string :=
    "The uploaded file appears empty. Please upload a CSV/TSV file with header and rows."
  const CouldNotParseMessage: string :=
    "Could not parse the uploaded file. Please upload a valid CSV/TSV with a header row."

  /** The tag stored in source_file, whatever the file is called. */
  const SourceFileTag: string := "uploaded_file"

  /** The two columns the loaders append. */
  const ProvenanceColumns: seq<string> := ["source_file", "uploaded_at"]

  /** `source_name or getattr(uploaded_file, "name", "uploaded_file")` */
  function SourceName(sourceName: Option<string>, file: Upload): (name: string)
    ensures || (sourceName.Some? && name == sourceName.value != "")
            || (file.name.Some? && name == file.name.value)
            || name == "uploaded_file"
  {
    if sourceName.Some? && sourceName.value != "" then sourceName.value
    else if file.name.Some? then file.name.value
    else "uploaded_file"
  }

  /** The name the delimiter is detected from: a non-empty source_name wins,
      then the file's own name, then the literal "uploaded_file". */
  lemma SourceNameChoice(sourceName: Option<string>, file: Upload)
    ensures sourceName.Some? && sourceName.value != "" ==> SourceName(sourceName, file) == sourceName.value
    ensures (sourceName.None? || sourceName.value == "") && file.name.Some? ==>
      SourceName(sourceName, file) == file.name.value
    ensures (sourceName.None? || sourceName.value == "") && file.name.None? ==>
      SourceName(sourceName, file) == "uploaded_file"
  {
  }

  /** After renaming, no two columns share a label. pandas would otherwise
      hand a DataFrame, not a Series, to the checks under that label, which
      the model does not follow. Labels distinct after lower/strip always
      qualify (Transform.RenamingKeepsLabelsDistinct). */
  predicate NoLabelClash(parsed: Table) {
    Distinct(Canonicalize(parsed).columns)
  }

  /** The upload, if it reads as a table at all, reads as one without a
      label clash. */
  predicate ReadsWithoutClash(parse: (seq<byte>, Sep) -> ParseOutcome, file: Upload, sourceName: Option<string>) {
    var outcome := ReadTableBytes(parse, file.content, SourceName(sourceName, file));
    file.content != [] && outcome.Parsed? ==> NoLabelClash(outcome.table)
  }

  /** _read_with_sniffing: parse, turning the parser's failures into IngestError. */
  function ReadWithSniffing(parse: (seq<byte>, Sep) -> ParseOutcome, raw: seq<byte>, filename: string):
    (r: Result<Table, Exception>)
    ensures r.Success? <==> ReadTableBytes(parse, raw, filename).Parsed?
    ensures r.Success? ==> r.value == ReadTableBytes(parse, raw, filename).table
    ensures ReadTableBytes(parse, raw, filename).EmptyData? ==> r == Failure(IngestError(AppearsEmptyMessage))
    ensures ReadTableBytes(parse, raw, filename).Malformed? ==> r == Failure(IngestError(CouldNotParseMessage))
  {
    match ReadTableBytes(parse, raw, filename)
    case Parsed(t) => Success(t)
    case EmptyData => Failure(IngestError(AppearsEmptyMessage))
    case Malformed => Failure(IngestError(CouldNotParseMessage))
  }

  /** `except ValidationError`: an IngestError is re-raised as it is, any other
      ValidationError becomes an IngestError with the same text; other
      exceptions are not caught. */
  function Rewrap(e: Exception): (r: Exception)
    ensures IsValidationError(e) ==> r == IngestError(e.message)
    ensures !IsValidationError(e) ==> r == e
  {
    match e
    case IngestError(_) => e
    case ValidationError(message) => IngestError(message)
    case _ => e
  }

  /** normalized["source_file"] = "uploaded_file"; normalized["uploaded_at"] = now */
  function Provenance(t: Table, now: string): (r: Table)
    requires "source_file" !in t.columns && "uploaded_at" !in t.columns
    ensures r.columns == t.columns + ProvenanceColumns
    ensures |r.rows| == |t.rows|
    ensures forall i, j :: 0 <= i < |t.rows| && 0 <= j < |t.columns| ==> r.rows[i][j] == t.rows[i][j]
    ensures forall i :: 0 <= i < |t.rows| ==> r.rows[i][|t.columns|] == Text(SourceFileTag)
    ensures forall i :: 0 <= i < |t.rows| ==> r.rows[i][|t.columns| + 1] == Text(now)
  {
    var tagged := AssignConstant(t, "source_file", Text(SourceFileTag));
    var stamped := AssignConstant(tagged, "uploaded_at", Text(now));
    assert "uploaded_at" !in tagged.columns;
    stamped
  }

  /** What a loader hands back: at least one row, and the two provenance
      columns last. */
  predicate Stamped(t: Table) {
    |t.rows| > 0 && |t.columns| >= 2 && t.columns[|t.columns| - 2..] == ProvenanceColumns
  }

  /** Passing the default required-columns check means both columns exist. */
  lemma RequiredPresent(t: Table)
    requires EnsureRequiredColumns(t, DefaultConfig.requiredColumns).Pass?
    ensures "cpg_id" in t.columns && "beta" in t.columns
  {
    assert "cpg_id" in DefaultConfig.requiredColumns && "beta" in DefaultConfig.requiredColumns;
  }

  /** The provenance columns are not canonical, so the selection never has them. */
  lemma ProvenanceNotCanonical(t: Table)
    ensures "source_file" !in SelectCanonicalColumns(t).columns
    ensures "uploaded_at" !in SelectCanonicalColumns(t).columns
  {
    assert "source_file" !in CanonicalColumns && "uploaded_at" !in CanonicalColumns;
  }

  /** Lines 103-115: ids as trimmed text, betas coerced, rows without a beta
      (or an id) dropped. */
  function Pruned(t: Table, toNumber: string -> Option<real>, show: real -> string): (r: Table)
    requires "cpg_id" in t.columns && "beta" in t.columns
    ensures r.columns == t.columns
  {
    DropMissing(CoerceBeta(TrimIds(t, show), toNumber), ["beta", "cpg_id"])
  }

  /** Lines 119-123: keep the canonical columns present, then stamp provenance. */
  function Finish(t: Table, now: string): Table {
    ProvenanceNotCanonical(t);
    Provenance(SelectCanonicalColumns(t), now)
  }

  /** The checks from the parsed table on (lines 97-123), before the
      except-clause rewraps a ValidationError. */
  function LoadParsed(parsed: Table, toNumber: string -> Option<real>, show: real -> string, now: string):
    (r: Result<Table, Exception>)
    ensures r.Success? ==> Stamped(r.value)
  {
    match EnsureNonEmpty(parsed)
    case Raise(e) => Failure(e)
    case Pass =>
      var normalized := Canonicalize(parsed);
      match EnsureRequiredColumns(normalized, DefaultConfig.requiredColumns)
      case Raise(e) => Failure(e)
      case Pass =>
        RequiredPresent(normalized);
        var invalid := NonNumericCount(toNumber, Column(TrimIds(normalized, show), "beta"));
        if invalid > 0 then Failure(IngestError(NonNumericMessage(invalid)))
        else
          var pruned := Pruned(normalized, toNumber, show);
          match EnsureNonEmpty(pruned)
          case Raise(e) => Failure(e)
          case Pass =>
            match EnsureBetaInRange(pruned, "beta")
            case Raise(e) => Failure(e)
            case Pass =>
              Success(Finish(pruned, now))
  }

  /** The body of the try-block of load_methylation_file (lines 91-125). */
  function LoadAttempt(parse: (seq<byte>, Sep) -> ParseOutcome, toNumber: string -> Option<real>,
                       show: real -> string, now: string, file: Upload, sourceName: Option<string>):
    (r: Result<Table, Exception>)
    ensures r.Success? ==> file.content != [] && Stamped(r.value)
  {
    var name := SourceName(sourceName, file);
    if file.content == [] then Failure(IngestError(EmptyUploadMessage))
    else
      match ReadWithSniffing(parse, file.content, name)
      case Failure(e) => Failure(e)
      case Success(parsed) => LoadParsed(parsed, toNumber, show, now)
  }

  /** load_methylation_file of core/ingest.py. */
  function Load(parse: (seq<byte>, Sep) -> ParseOutcome, toNumber: string -> Option<real>, show: real -> string,
                now: string, uploadedFile: Option<Upload>, sourceName: Option<string>): (r: Result<Table, Exception>)
    ensures r.Success? ==> uploadedFile.Some? && uploadedFile.value.content != [] && Stamped(r.value)
  {
    if uploadedFile.None? then Failure(IngestError(NoFileMessage))
    else
      match LoadAttempt(parse, toNumber, show, now, uploadedFile.value, sourceName)
      case Failure(e) => Failure(Rewrap(e))
      case Success(t) => Success(t)
  }

  /** load_methylation_file: the None guard, then the try-block, whose
      ValidationError is re-raised as IngestError. */
  method LoadMethylationFile(parse: (seq<byte>, Sep) -> ParseOutcome, toNumber: string -> Option<real>,
                             show: real -> string, now: string, uploadedFile: Option<Upload>,
                             sourceName: Option<string>) returns (r: Result<Table, Exception>)
    ensures r == Load(parse, toNumber, show, now, uploadedFile, sourceName)
  {
    if uploadedFile.None? {
      return Failure(IngestError(NoFileMessage));
    }
    r := TryLoad(parse, toNumber, show, now, uploadedFile.value, sourceName);
    if r.Failure? {
      r := Failure(Rewrap(r.error));
    }
  }

  /** The try-block, rebinding `normalized` stage by stage. */
  method TryLoad(parse: (seq<byte>, Sep) -> ParseOutcome, toNumber: string -> Option<real>,
                 show: real -> string, now: string, uploadedFile: Upload,
                 sourceName: Option<string>) returns (r: Result<Table, Exception>)
    ensures r == LoadAttempt(parse, toNumber, show, now, uploadedFile, sourceName)
  {
    var name := SourceName(sourceName, uploadedFile);
    var rawBytes := uploadedFile.content;
    if rawBytes == [] {
      return Failure(IngestError(EmptyUploadMessage));
    }
    var read := ReadWithSniffing(parse, rawBytes, name);
    if read.Failure? {
      return Failure(read.error);
    }
    var parsed := read.value;
    var check := EnsureNonEmpty(parsed);
    if check.Raise? {
      return Failure(check.exc);
    }
    var normalized := Canonicalize(parsed);
    check := EnsureRequiredColumns(normalized, DefaultConfig.requiredColumns);
    if check.Raise? {
      return Failure(check.exc);
    }
    RequiredPresent(normalized);
    normalized := TrimIds(normalized, show);
    var rawBeta := Column(normalized, "beta");
    var invalidCount := NonNumericCount(toNumber, rawBeta);
    if invalidCount > 0 {
      return Failure(IngestError(NonNumericMessage(invalidCount)));
    }
    normalized := CoerceBeta(normalized, toNumber);
    normalized := DropMissing(normalized, ["beta", "cpg_id"]);
    check := EnsureNonEmpty(normalized);
    if check.Raise? {
      return Failure(check.exc);
    }
    check := EnsureBetaInRange(normalized, "beta");
    if check.Raise? {
      return Failure(check.exc);
    }
    ProvenanceNotCanonical(normalized);
    normalized := SelectCanonicalColumns(normalized);
    normalized := Provenance(normalized, now);
    return Success(normalized);
  }
}

module IngestProperties {
  import opened Strings
  import opened Wrappers
  import opened Frame
  import opened Errors
  import opened Transform
  import opened Io
  import opened Validate
  import opened Ingest

  /** The upload holds bytes, and reading them under its name gives `parsed`. */
  predicate ReadsAs(parse: (seq<byte>, Sep) -> ParseOutcome, file: Upload, sourceName: Option<string>, parsed: Table) {
    file.content != [] && ReadTableBytes(parse, file.content, SourceName(sourceName, file)) == Parsed(parsed)
  }

  /** No file, or a file of zero bytes, is refused before anything is parsed. */
  lemma UploadGuards(parse: (seq<byte>, Sep) -> ParseOutcome, toNumber: string -> Option<real>, show: real -> string,
                     now: string, sourceName: Option<string>, name: Option<string>)
    ensures Load(parse, toNumber, show, now, None, sourceName) == Failure(IngestError(NoFileMessage))
    ensures Load(parse, toNumber, show, now, Some(Upload([], name)), sourceName) == Failure(IngestError(EmptyUploadMessage))
  {
  }

  /** Once the bytes parse, the outcome is that of the checks, with a
      ValidationError rewrapped. */
  lemma LoadFromParsed(parse: (seq<byte>, Sep) -> ParseOutcome, toNumber: string -> Option<real>, show: real -> string,
                       now: string, file: Upload, sourceName: Option<string>, parsed: Table)
    requires ReadsAs(parse, file, sourceName, parsed)
    ensures LoadParsed(parsed, toNumber, show, now).Success? ==>
      Load(parse, toNumber, show, now, Some(file), sourceName) == LoadParsed(parsed, toNumber, show, now)
    ensures LoadParsed(parsed, toNumber, show, now).Failure? ==>
      Load(parse, toNumber, show, now, Some(file), sourceName) ==
      Failure(Rewrap(LoadParsed(parsed, toNumber, show, now).error))
  {
  }

  /** A successful load comes from a parsed upload. */
  lemma LoadSucceedsOnlyFromParsed(parse: (seq<byte>, Sep) -> ParseOutcome, toNumber: string -> Option<real>,
                                   show: real -> string, now: string, uploadedFile: Option<Upload>,
                                   sourceName: Option<string>)
    requires Load(parse, toNumber, show, now, uploadedFile, sourceName).Success?
    ensures uploadedFile.Some?
    ensures var raw := uploadedFile.value.content;
      var outcome := ReadTableBytes(parse, raw, SourceName(sourceName, uploadedFile.value));
      && outcome.Parsed?
      && ReadsAs(parse, uploadedFile.value, sourceName, outcome.table)
      && Load(parse, toNumber, show, now, uploadedFile, sourceName) == LoadParsed(outcome.table, toNumber, show, now)
  {
  }

  /** A missing cpg_id or beta, after aliasing, is reported by name. */
  lemma MissingColumnsReported(parsed: Table, toNumber: string -> Option<real>, show: real -> string, now: string,
                               n: string)
    requires !IsEmpty(parsed)
    requires n in ["cpg_id", "beta"] && n !in Canonicalize(parsed).columns
    ensures LoadParsed(parsed, toNumber, show, now) ==
      Failure(ValidationError(MissingColumnsMessage(MissingColumns(Canonicalize(parsed).columns, ["cpg_id", "beta"]))))
    ensures Contains(LoadParsed(parsed, toNumber, show, now).error.message, "Missing required column")
    ensures Contains(LoadParsed(parsed, toNumber, show, now).error.message, n)
  {
    MissingMessageNamesColumns(Canonicalize(parsed).columns, ["cpg_id", "beta"], n);
  }

  /** Present betas that do not parse are counted, and the count is
      reported in an IngestError that says "non-numeric beta". */
  lemma NonNumericReported(parsed: Table, toNumber: string -> Option<real>, show: real -> string, now: string)
    requires !IsEmpty(parsed)
    requires "cpg_id" in Canonicalize(parsed).columns && "beta" in Canonicalize(parsed).columns
    requires NonNumericCount(toNumber, Column(Canonicalize(parsed), "beta")) > 0
    ensures var n := NonNumericCount(toNumber, Column(Canonicalize(parsed), "beta"));
      && LoadParsed(parsed, toNumber, show, now) == Failure(IngestError(NonNumericMessage(n)))
      && Contains(NonNumericMessage(n), NonNumericPhrase)
  {
    var c := Canonicalize(parsed);
    NormalizedColumns(c, toNumber, show);
    assert forall n :: n in DefaultConfig.requiredColumns ==> n in c.columns;
    assert EnsureRequiredColumns(c, DefaultConfig.requiredColumns).Pass?;
    NonNumericMessageSays(NonNumericCount(toNumber, Column(c, "beta")));
  }

  /** Pruning drops exactly the rows whose coerced beta is missing: every id is
      text by then, the order of the kept rows is the order they came in, and
      as many rows are kept as have a beta. */
  lemma PruneDropsExactlyMissingBetas(t: Table, toNumber: string -> Option<real>, show: real -> string)
    requires "cpg_id" in t.columns && "beta" in t.columns
    ensures var coerced := CoerceBeta(TrimIds(t, show), toNumber);
      && Pruned(t, toNumber, show) == DropMissing(coerced, ["beta"])
      && Subsequence(Pruned(t, toNumber, show).rows, coerced.rows)
      && (forall i :: 0 <= i < |coerced.rows| ==>
           (coerced.rows[i] in Pruned(t, toNumber, show).rows <==> Column(coerced, "beta")[i] != Missing))
      && |Pruned(t, toNumber, show).rows| == |set i | 0 <= i < |coerced.rows| && Column(coerced, "beta")[i] != Missing|
  {
    var coerced := CoerceBeta(TrimIds(t, show), toNumber);
    NormalizedColumns(t, toNumber, show);
    KeepCompleteRedundant(coerced.columns, coerced.rows, ["beta", "cpg_id"], ["beta"]);
    KeepCompleteSpec(coerced.columns, coerced.rows, ["beta"]);
    var kept := KeepComplete(coerced.columns, coerced.rows, ["beta"]);
    DropMissingCount(coerced, "beta");
    forall i | 0 <= i < |coerced.rows|
      ensures coerced.rows[i] in kept <==> Column(coerced, "beta")[i] != Missing
    {
      if coerced.rows[i] in kept {
        assert Complete(coerced.columns, coerced.rows[i], ["beta"]);
      } else {
        assert !Complete(coerced.columns, coerced.rows[i], ["beta"]);
      }
    }
  }

  /** After pruning every beta is a number and every id is trimmed text. */
  lemma PrunedCells(t: Table, toNumber: string -> Option<real>, show: real -> string)
    requires "cpg_id" in t.columns && "beta" in t.columns
    ensures forall i :: 0 <= i < |Pruned(t, toNumber, show).rows| ==> Column(Pruned(t, toNumber, show), "beta")[i].Num?
    ensures forall i :: 0 <= i < |Pruned(t, toNumber, show).rows| ==>
      Column(Pruned(t, toNumber, show), "cpg_id")[i].Text? && IsTrimmed(Column(Pruned(t, toNumber, show), "cpg_id")[i].s)
  {
    var coerced := CoerceBeta(TrimIds(t, show), toNumber);
    forall j | 0 <= j < |t.rows|
      ensures Column(coerced, "beta")[j].Missing? || Column(coerced, "beta")[j].Num?
      ensures Column(coerced, "cpg_id")[j].Text? && IsTrimmed(Column(coerced, "cpg_id")[j].s)
    {
      NormalizedCells(t, toNumber, show, j);
    }
    DropMissingColumn(coerced, ["beta", "cpg_id"], "beta");
    DropMissingColumn(coerced, ["beta", "cpg_id"], "cpg_id");
  }

  /** Every failure of the checks is a ValidationError (or an IngestError):
      the KeyError and TypeError paths cannot be reached. */
  lemma ParsedFailuresAreValidationErrors(parsed: Table, toNumber: string -> Option<real>, show: real -> string,
                                          now: string)
    requires NoLabelClash(parsed)
    requires LoadParsed(parsed, toNumber, show, now).Failure?
    ensures IsValidationError(LoadParsed(parsed, toNumber, show, now).error)
  {
    var c := Canonicalize(parsed);
    if !IsEmpty(parsed) && EnsureRequiredColumns(c, DefaultConfig.requiredColumns).Pass? {
      RequiredPresent(c);
      PrunedCells(c, toNumber, show);
    }
  }

  /** Every failure of load_methylation_file is an IngestError. */
  lemma LoadFailuresAreIngestErrors(parse: (seq<byte>, Sep) -> ParseOutcome, toNumber: string -> Option<real>,
                                    show: real -> string, now: string, uploadedFile: Option<Upload>,
                                    sourceName: Option<string>)
    requires uploadedFile.Some? ==> ReadsWithoutClash(parse, uploadedFile.value, sourceName)
    requires Load(parse, toNumber, show, now, uploadedFile, sourceName).Failure?
    ensures Load(parse, toNumber, show, now, uploadedFile, sourceName).error.IngestError?
  {
    if uploadedFile.Some? && uploadedFile.value.content != [] {
      var outcome := ReadTableBytes(parse, uploadedFile.value.content, SourceName(sourceName, uploadedFile.value));
      if outcome.Parsed? {
        ParsedFailuresAreValidationErrors(outcome.table, toNumber, show, now);
      }
    }
  }

  /** cpg_id and beta lead the canonical order. */
  lemma CanonicalPrefix(columns: seq<string>)
    requires "cpg_id" in columns && "beta" in columns
    ensures |PresentIn(CanonicalColumns, columns)| >= 2
    ensures PresentIn(CanonicalColumns, columns)[..2] == ["cpg_id", "beta"]
  {
    assert CanonicalColumns[0] == "cpg_id" && CanonicalColumns[1..][0] == "beta";
    assert PresentIn(CanonicalColumns, columns) ==
      ["cpg_id"] + (["beta"] + PresentIn(CanonicalColumns[1..][1..], columns));
  }

  /** The provenance columns hold the tag and the timestamp; the others keep
      their cells. */
  lemma ProvenanceCells(t: Table, now: string, name: string)
    requires "source_file" !in t.columns && "uploaded_at" !in t.columns
    ensures Column(Provenance(t, now), "source_file") == seq(|t.rows|, _ => Text(SourceFileTag))
    ensures Column(Provenance(t, now), "uploaded_at") == seq(|t.rows|, _ => Text(now))
    ensures name in t.columns ==> Column(Provenance(t, now), name) == Column(t, name)
  {
    var r := Provenance(t, now);
    assert r.columns[|t.columns|] == "source_file" && r.columns[|t.columns| + 1] == "uploaded_at";
    assert IndexOf(r.columns, "source_file") == |t.columns|;
    assert IndexOf(r.columns, "uploaded_at") == |t.columns| + 1;
    if name in t.columns {
      IndexOfAppend(t.columns, ProvenanceColumns, name);
    }
  }

  /** A successful run of the checks went through every stage. */
  lemma LoadParsedSucceeded(parsed: Table, toNumber: string -> Option<real>, show: real -> string, now: string)
    requires LoadParsed(parsed, toNumber, show, now).Success?
    ensures var c := Canonicalize(parsed);
      && "cpg_id" in c.columns && "beta" in c.columns
      && !IsEmpty(Pruned(c, toNumber, show))
      && EnsureBetaInRange(Pruned(c, toNumber, show), "beta").Pass?
      && LoadParsed(parsed, toNumber, show, now).value == Finish(Pruned(c, toNumber, show), now)
  {
    RequiredPresent(Canonicalize(parsed));
  }

  /** Selecting and stamping keeps the selected columns' cells and appends
      the two provenance columns. */
  lemma FinishCells(t: Table, now: string)
    ensures var v := Finish(t, now);
      && v.columns == PresentIn(CanonicalColumns, t.columns) + ProvenanceColumns
      && |v.rows| == |t.rows|
      && (forall name :: name in PresentIn(CanonicalColumns, t.columns) ==> Column(v, name) == Column(t, name))
      && Column(v, "source_file") == seq(|v.rows|, _ => Text(SourceFileTag))
      && Column(v, "uploaded_at") == seq(|v.rows|, _ => Text(now))
  {
    var s := SelectCanonicalColumns(t);
    ProvenanceNotCanonical(t);
    var keep := PresentIn(CanonicalColumns, t.columns);
    forall name | name in keep
      ensures Column(Finish(t, now), name) == Column(t, name)
    {
      ProvenanceCells(s, now, name);
      SelectColumn(t, keep, name);
    }
    ProvenanceCells(s, now, "source_file");
  }

  /** After a passed range check, the kept betas are numbers in [0, 1] and the
      kept ids are trimmed text. */
  lemma FinishedCells(p: Table, now: string)
    requires "cpg_id" in p.columns && "beta" in p.columns
    requires forall i :: 0 <= i < |p.rows| ==> Column(p, "beta")[i].Num?
    requires forall i :: 0 <= i < |p.rows| ==> Column(p, "cpg_id")[i].Text? && IsTrimmed(Column(p, "cpg_id")[i].s)
    requires EnsureBetaInRange(p, "beta").Pass?
    ensures var v := Finish(p, now);
      && (forall i :: 0 <= i < |v.rows| ==>
            Column(v, "beta")[i].Num? && 0.0 <= Column(v, "beta")[i].r <= 1.0)
      && (forall i :: 0 <= i < |v.rows| ==>
            Column(v, "cpg_id")[i].Text? && IsTrimmed(Column(v, "cpg_id")[i].s))
  {
    var v := Finish(p, now);
    FinishCells(p, now);
    assert "beta" in PresentIn(CanonicalColumns, p.columns) && "cpg_id" in PresentIn(CanonicalColumns, p.columns);
    assert Column(v, "beta") == Column(p, "beta") && Column(v, "cpg_id") == Column(p, "cpg_id");
  }

  /** The columns of a successful load: the canonical columns present, in
      canonical order (so cpg_id and beta first), holding the cells of the
      pruned table, then source_file with the literal tag and uploaded_at with
      the given timestamp. */
  lemma LoadedColumns(parsed: Table, toNumber: string -> Option<real>, show: real -> string, now: string)
    requires NoLabelClash(parsed)
    requires LoadParsed(parsed, toNumber, show, now).Success?
    ensures var v := LoadParsed(parsed, toNumber, show, now).value;
      var c := Canonicalize(parsed);
      && "cpg_id" in c.columns && "beta" in c.columns
      && v.columns == PresentIn(CanonicalColumns, c.columns) + ProvenanceColumns
      && |v.rows| == |Pruned(c, toNumber, show).rows|
      && (forall name :: name in PresentIn(CanonicalColumns, c.columns) ==>
            Column(v, name) == Column(Pruned(c, toNumber, show), name))
      && Column(v, "source_file") == seq(|v.rows|, _ => Text(SourceFileTag))
      && Column(v, "uploaded_at") == seq(|v.rows|, _ => Text(now))
  {
    LoadParsedSucceeded(parsed, toNumber, show, now);
    var c := Canonicalize(parsed);
    FinishCells(Pruned(c, toNumber, show), now);
  }

  /** The rows of a successful load: there is at least one, every beta is a
      number in [0, 1] and every id is trimmed text. */
  lemma LoadedCells(parsed: Table, toNumber: string -> Option<real>, show: real -> string, now: string)
    requires NoLabelClash(parsed)
    requires LoadParsed(parsed, toNumber, show, now).Success?
    ensures var v := LoadParsed(parsed, toNumber, show, now).value;
      && !IsEmpty(v)
      && "cpg_id" in v.columns && "beta" in v.columns
      && (forall i :: 0 <= i < |v.rows| ==>
            Column(v, "beta")[i].Num? && 0.0 <= Column(v, "beta")[i].r <= 1.0)
      && (forall i :: 0 <= i < |v.rows| ==>
            Column(v, "cpg_id")[i].Text? && IsTrimmed(Column(v, "cpg_id")[i].s))
  {
    LoadParsedSucceeded(parsed, toNumber, show, now);
    var c := Canonicalize(parsed);
    var p := Pruned(c, toNumber, show);
    PrunedCells(c, toNumber, show);
    FinishCells(p, now);
    FinishedCells(p, now);
    assert "beta" in PresentIn(CanonicalColumns, p.columns) && "cpg_id" in PresentIn(CanonicalColumns, p.columns);
  }

  /** cpg_id and beta are the first two columns of a successful load. */
  lemma LoadedColumnOrder(parsed: Table, toNumber: string -> Option<real>, show: real -> string, now: string)
    requires NoLabelClash(parsed)
    requires LoadParsed(parsed, toNumber, show, now).Success?
    ensures |LoadParsed(parsed, toNumber, show, now).value.columns| >= 2
    ensures LoadParsed(parsed, toNumber, show, now).value.columns[..2] == ["cpg_id", "beta"]
  {
    LoadedColumns(parsed, toNumber, show, now);
    CanonicalPrefix(Canonicalize(parsed).columns);
  }
}
