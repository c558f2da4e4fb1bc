/** src/cpg_methylation_mvp/core/ingest.py: load_methylation_file, the variant
    that hands the normalised table to validate_upload (which range-checks it
    before any pruning), prunes the rows with a missing beta afterwards, and
    maps every exception to an IngestError in one ordered except-chain. The
    message texts and the provenance stamping are the same as in
    core/ingest.py. */
module PackageIngest {
  import opened Wrappers
  import opened Frame
  import opened Errors
  import opened Transform
  import opened Io
  import opened Validate
  import Ingest

  /** normalize_upload: canonicalise the labels, then keep the canonical columns. */
  function NormalizeUpload(t: Table): (r: Table)
    ensures forall n :: n in r.columns ==> n in CanonicalColumns
    ensures Distinct(r.columns) && |r.rows| == |t.rows|
  {
    SelectCanonicalColumns(Canonicalize(t))
  }

  /** A successful validate_upload of a normalised table still has only
      canonical columns, cpg_id and beta among them. */
  lemma ValidatedColumns(parsed: Table, toNumber: string -> Option<real>, show: real -> string)
    requires Validated(NormalizeUpload(parsed), None, toNumber, show).Success?
    ensures var v := Validated(NormalizeUpload(parsed), None, toNumber, show).value;
      && v.columns == NormalizeUpload(parsed).columns
      && "cpg_id" in v.columns && "beta" in v.columns
      && "source_file" !in v.columns && "uploaded_at" !in v.columns
  {
    ValidatedShape(NormalizeUpload(parsed), None, toNumber, show);
    Ingest.ProvenanceNotCanonical(Canonicalize(parsed));
  }

  /** Line 39: dropna(subset=["beta", "cpg_id"]) on the validated table. */
  function PruneValidated(parsed: Table, toNumber: string -> Option<real>, show: real -> string): (r: Table)
    requires Validated(NormalizeUpload(parsed), None, toNumber, show).Success?
    ensures r.columns == NormalizeUpload(parsed).columns
    ensures "source_file" !in r.columns && "uploaded_at" !in r.columns
  {
    ValidatedColumns(parsed, toNumber, show);
    DropMissing(Validated(NormalizeUpload(parsed), None, toNumber, show).value, ["beta", "cpg_id"])
  }

  /** The try-block from the parsed table on (lines 35-44), with the
      exceptions as raised. */
  function LoadParsed(parsed: Table, toNumber: string -> Option<real>, show: real -> string, now: string):
    (r: Result<Table, Exception>)
    ensures r.Success? ==> Ingest.Stamped(r.value)
  {
    match EnsureNonEmpty(parsed)
    case Raise(e) => Failure(e)
    case Pass =>
      match Validated(NormalizeUpload(parsed), None, toNumber, show)
      case Failure(e) => Failure(e)
      case Success(validated) =>
        var pruned := PruneValidated(parsed, toNumber, show);
        match EnsureNonEmpty(pruned)
        case Raise(e) => Failure(e)
        case Pass => Success(Ingest.Provenance(pruned, now))
  }

  /** The whole try-block (lines 29-44): read_csv's EmptyDataError and other
      parser errors are raised as they are. */
  function LoadAttempt(parse: (seq<byte>, Sep) -> ParseOutcome, toNumber: string -> Option<real>,
                       show: real -> string, now: string, file: Ingest.Upload, sourceName: Option<string>):
    (r: Result<Table, Exception>)
    ensures r.Success? ==> file.content != [] && Ingest.Stamped(r.value)
  {
    var name := Ingest.SourceName(sourceName, file);
    if file.content == [] then Failure(IngestError(Ingest.EmptyUploadMessage))
    else
      match ReadTableBytes(parse, file.content, name)
      case Parsed(parsed) => LoadParsed(parsed, toNumber, show, now)
      case EmptyData => Failure(EmptyDataError)
      case Malformed => Failure(ParserError)
  }

  /** The except-chain, tried in order: EmptyDataError, then ValidationError
      (an IngestError re-raised, any other rewrapped), then any Exception. */
  function MapError(e: Exception): (r: Exception)
    ensures r.IngestError?
    ensures e.EmptyDataError? ==> r.message == Ingest.AppearsEmptyMessage
    ensures IsValidationError(e) ==> r.message == e.message
    ensures !e.EmptyDataError? && !IsValidationError(e) ==> r.message == Ingest.CouldNotParseMessage
  {
    if e.EmptyDataError? then IngestError(Ingest.AppearsEmptyMessage)
    else if IsValidationError(e) then Ingest.Rewrap(e)
    else IngestError(Ingest.CouldNotParseMessage)
  }

  /** load_methylation_file of src/cpg_methylation_mvp/core/ingest.py. */
  function Load(parse: (seq<byte>, Sep) -> ParseOutcome, toNumber: string -> Option<real>, show: real -> string,
                now: string, uploadedFile: Option<Ingest.Upload>, sourceName: Option<string>):
    (r: Result<Table, Exception>)
    ensures r.Success? ==> uploadedFile.Some? && uploadedFile.value.content != [] && Ingest.Stamped(r.value)
  {
    if uploadedFile.None? then Failure(IngestError(Ingest.NoFileMessage))
    else
      match LoadAttempt(parse, toNumber, show, now, uploadedFile.value, sourceName)
      case Failure(e) => Failure(MapError(e))
      case Success(t) => Success(t)
  }

  /** load_methylation_file: the None guard, then the try-block and its
      except-chain. */
  method LoadMethylationFile(parse: (seq<byte>, Sep) -> ParseOutcome, toNumber: string -> Option<real>,
                             show: real -> string, now: string, uploadedFile: Option<Ingest.Upload>,
                             sourceName: Option<string>) returns (r: Result<Table, Exception>)
    ensures r == Load(parse, toNumber, show, now, uploadedFile, sourceName)
  {
    if uploadedFile.None? {
      return Failure(IngestError(Ingest.NoFileMessage));
    }
    r := TryLoad(parse, toNumber, show, now, uploadedFile.value, sourceName);
    if r.Failure? {
      r := Failure(MapError(r.error));
    }
  }

  /** The try-block, rebinding `normalized` stage by stage. */
  method TryLoad(parse: (seq<byte>, Sep) -> ParseOutcome, toNumber: string -> Option<real>,
                 show: real -> string, now: string, uploadedFile: Ingest.Upload,
                 sourceName: Option<string>) returns (r: Result<Table, Exception>)
    ensures r == LoadAttempt(parse, toNumber, show, now, uploadedFile, sourceName)
  {
    var name := Ingest.SourceName(sourceName, uploadedFile);
    var rawBytes := uploadedFile.content;
    if rawBytes == [] {
      return Failure(IngestError(Ingest.EmptyUploadMessage));
    }
    var read := ReadTableBytes(parse, rawBytes, name);
    if read.EmptyData? {
      return Failure(EmptyDataError);
    } else if read.Malformed? {
      return Failure(ParserError);
    }
    var parsedDf := read.table;
    var check := EnsureNonEmpty(parsedDf);
    if check.Raise? {
      return Failure(check.exc);
    }
    var normalized := NormalizeUpload(parsedDf);
    var validated := ValidateUpload(normalized, None, toNumber, show);
    if validated.Failure? {
      return Failure(validated.error);
    }
    ValidatedColumns(parsedDf, toNumber, show);
    normalized := validated.value;
    normalized := DropMissing(normalized, ["beta", "cpg_id"]);
    check := EnsureNonEmpty(normalized);
    if check.Raise? {
      return Failure(check.exc);
    }
    normalized := Ingest.Provenance(normalized, now);
    return Success(normalized);
  }
}

module PackageIngestProperties {
  import opened Strings
  import opened Wrappers
  import opened Frame
  import opened Errors
  import opened Transform
  import opened Io
  import opened Validate
  import Ingest
  import IngestProperties
  import opened PackageIngest

  /** No file, or a file of zero bytes, is refused before anything is parsed. */
  lemma UploadGuards(parse: (seq<byte>, Sep) -> ParseOutcome, toNumber: string -> Option<real>, show: real -> string,
                     now: string, sourceName: Option<string>, name: Option<string>)
    ensures Load(parse, toNumber, show, now, None, sourceName) == Failure(IngestError(Ingest.NoFileMessage))
    ensures Load(parse, toNumber, show, now, Some(Ingest.Upload([], name)), sourceName) ==
      Failure(IngestError(Ingest.EmptyUploadMessage))
  {
  }

  /** Every failure is an IngestError. */
  lemma FailuresAreIngestErrors(parse: (seq<byte>, Sep) -> ParseOutcome, toNumber: string -> Option<real>,
                                show: real -> string, now: string, uploadedFile: Option<Ingest.Upload>,
                                sourceName: Option<string>)
    requires Load(parse, toNumber, show, now, uploadedFile, sourceName).Failure?
    ensures Load(parse, toNumber, show, now, uploadedFile, sourceName).error.IngestError?
  {
  }

  /** A parse that finds no data reads "appears empty", any other parser
      failure "Could not parse". */
  lemma ReadFailuresMapped(parse: (seq<byte>, Sep) -> ParseOutcome, toNumber: string -> Option<real>,
                           show: real -> string, now: string, file: Ingest.Upload, sourceName: Option<string>)
    requires file.content != []
    ensures ReadTableBytes(parse, file.content, Ingest.SourceName(sourceName, file)).EmptyData? ==>
      Load(parse, toNumber, show, now, Some(file), sourceName) == Failure(IngestError(Ingest.AppearsEmptyMessage))
    ensures ReadTableBytes(parse, file.content, Ingest.SourceName(sourceName, file)).Malformed? ==>
      Load(parse, toNumber, show, now, Some(file), sourceName) == Failure(IngestError(Ingest.CouldNotParseMessage))
  {
    var outcome := ReadTableBytes(parse, file.content, Ingest.SourceName(sourceName, file));
    if !outcome.Parsed? {
      var attempt := LoadAttempt(parse, toNumber, show, now, file, sourceName);
      assert attempt == Failure(if outcome.EmptyData? then EmptyDataError else ParserError);
      assert Load(parse, toNumber, show, now, Some(file), sourceName) == Failure(MapError(attempt.error));
    }
  }

  /** Once the bytes parse, the outcome is that of the checks, with the
      exception mapped. */
  lemma LoadFromParsed(parse: (seq<byte>, Sep) -> ParseOutcome, toNumber: string -> Option<real>, show: real -> string,
                       now: string, file: Ingest.Upload, sourceName: Option<string>, parsed: Table)
    requires file.content != []
    requires ReadTableBytes(parse, file.content, Ingest.SourceName(sourceName, file)) == Parsed(parsed)
    ensures LoadParsed(parsed, toNumber, show, now).Success? ==>
      Load(parse, toNumber, show, now, Some(file), sourceName) == LoadParsed(parsed, toNumber, show, now)
    ensures LoadParsed(parsed, toNumber, show, now).Failure? ==>
      Load(parse, toNumber, show, now, Some(file), sourceName) ==
      Failure(MapError(LoadParsed(parsed, toNumber, show, now).error))
  {
  }

  /** A successful run went through validate_upload and the second non-empty
      check, and stamped the pruned table. */
  lemma LoadParsedSucceeded(parsed: Table, toNumber: string -> Option<real>, show: real -> string, now: string)
    requires LoadParsed(parsed, toNumber, show, now).Success?
    ensures Validated(NormalizeUpload(parsed), None, toNumber, show).Success?
    ensures var pruned := PruneValidated(parsed, toNumber, show);
      && !IsEmpty(pruned)
      && LoadParsed(parsed, toNumber, show, now).value == Ingest.Provenance(pruned, now)
  {
  }

  /** What a successful load returns: a non-empty table with the normalised
      columns followed by source_file and uploaded_at, where no beta is
      missing and every beta is in [0, 1]. */
  lemma LoadedShape(parsed: Table, toNumber: string -> Option<real>, show: real -> string, now: string)
    requires Ingest.NoLabelClash(parsed)
    requires LoadParsed(parsed, toNumber, show, now).Success?
    ensures var v := LoadParsed(parsed, toNumber, show, now).value;
      && !IsEmpty(v)
      && v.columns == NormalizeUpload(parsed).columns + Ingest.ProvenanceColumns
      && "beta" in v.columns
      && (forall i :: 0 <= i < |v.rows| ==> Column(v, "beta")[i].Num? && 0.0 <= Column(v, "beta")[i].r <= 1.0)
      && Column(v, "source_file") == seq(|v.rows|, _ => Text(Ingest.SourceFileTag))
      && Column(v, "uploaded_at") == seq(|v.rows|, _ => Text(now))
  {
    LoadParsedSucceeded(parsed, toNumber, show, now);
    ValidatedColumns(parsed, toNumber, show);
    var validated := Validated(NormalizeUpload(parsed), None, toNumber, show).value;
    var pruned := PruneValidated(parsed, toNumber, show);
    PrunedBetas(validated, NormalizeUpload(parsed), toNumber, show);
    IngestProperties.ProvenanceCells(pruned, now, "beta");
    IngestProperties.ProvenanceCells(pruned, now, "source_file");
  }

  /** The betas dropna keeps from a validated table are numbers in [0, 1]. */
  lemma PrunedBetas(validated: Table, n: Table, toNumber: string -> Option<real>, show: real -> string)
    requires Validated(n, None, toNumber, show) == Success(validated)
    ensures "beta" in validated.columns && "cpg_id" in validated.columns
    ensures var pruned := DropMissing(validated, ["beta", "cpg_id"]);
      forall i :: 0 <= i < |pruned.rows| ==> Column(pruned, "beta")[i].Num? && 0.0 <= Column(pruned, "beta")[i].r <= 1.0
  {
    ValidatedShape(n, None, toNumber, show);
    DropMissingColumn(validated, ["beta", "cpg_id"], "beta");
  }
}
