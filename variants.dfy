/** The two retained loaders side by side. core/ingest.py checks the range
    after pruning the rows with a missing beta and selects the canonical
    columns last; src/cpg_methylation_mvp/core/ingest.py selects them first
    (normalize_upload) and lets validate_upload check the range before
    pruning. Missing betas are never counted out of range, so both accept the
    same uploads and return the same table; the one difference is the message
    for a non-empty table without a single canonical column. */
module Variants {
  import opened Strings
  import opened Wrappers
  import opened Frame
  import opened Errors
  import opened Transform
  import opened Io
  import opened Validate
  import Ingest
  import IngestProperties
  import PackageIngest

  /** The required names agree on two column lists, so do the missing lists. */
  lemma {:induction false} MissingColumnsAgree(a: seq<string>, b: seq<string>, required: seq<string>)
    requires forall n :: n in required ==> (n in a <==> n in b)
    ensures MissingColumns(a, required) == MissingColumns(b, required)
  {
    if required != [] {
      assert required[0] in required;
      MissingColumnsAgree(a, b, required[1..]);
    }
  }

  /** The canonical selection of a table has its canonical columns. */
  lemma SelectionKeepsRequired(c: Table)
    ensures forall n :: n in DefaultConfig.requiredColumns ==>
      (n in SelectCanonicalColumns(c).columns <==> n in c.columns)
  {
    assert "cpg_id" in CanonicalColumns && "beta" in CanonicalColumns;
  }

  /** Rewriting cpg_id and beta, and pruning, commute with the selection. */
  lemma SelectionCommutes(c: Table, toNumber: string -> Option<real>, show: real -> string)
    requires "cpg_id" in c.columns && "beta" in c.columns
    ensures var k := PresentIn(CanonicalColumns, c.columns);
      var s := SelectCanonicalColumns(c);
      && "cpg_id" in k && "beta" in k
      && s == Select(c, k)
      && TrimIds(s, show) == Select(TrimIds(c, show), k)
      && CoerceBeta(TrimIds(s, show), toNumber) == Select(CoerceBeta(TrimIds(c, show), toNumber), k)
      && DropMissing(CoerceBeta(TrimIds(s, show), toNumber), ["cpg_id", "beta"]) ==
         Select(Ingest.Pruned(c, toNumber, show), k)
      && DropMissing(CoerceBeta(TrimIds(s, show), toNumber), ["beta", "cpg_id"]) ==
         Select(Ingest.Pruned(c, toNumber, show), k)
  {
    var k := PresentIn(CanonicalColumns, c.columns);
    var s := SelectCanonicalColumns(c);
    assert "cpg_id" in CanonicalColumns && "beta" in CanonicalColumns;
    assert Distinct(k);
    SelectMapColumn(c, k, "cpg_id", x => AsText(show, x));
    var trimmed := TrimIds(c, show);
    SelectMapColumn(trimmed, k, "beta", x => Coerce(toNumber, x));
    var coerced := CoerceBeta(trimmed, toNumber);
    SelectDropMissing(coerced, k, ["cpg_id", "beta"]);
    SelectDropMissing(coerced, k, ["beta", "cpg_id"]);
    KeepCompleteSameSubset(coerced.columns, coerced.rows, ["cpg_id", "beta"], ["beta", "cpg_id"]);
  }

  /** Two range checks over betas that are never text agree when they count
      the same number of values out of range. */
  lemma RangeCheckByCount(t1: Table, t2: Table)
    requires "beta" in t1.columns && "beta" in t2.columns
    requires forall i :: 0 <= i < |t1.rows| ==> !Column(t1, "beta")[i].Text?
    requires forall i :: 0 <= i < |t2.rows| ==> !Column(t2, "beta")[i].Text?
    requires OutOfRangeCount(Column(t1, "beta")) == OutOfRangeCount(Column(t2, "beta"))
    ensures EnsureBetaInRange(t1, "beta") == EnsureBetaInRange(t2, "beta")
  {
    CountWhereZero(Column(t1, "beta"), OutOfRange);
    CountWhereZero(Column(t2, "beta"), OutOfRange);
  }

  /** validate_upload reads the same beta cells as the core stages do. */
  lemma CoercedBetaSelected(c: Table, toNumber: string -> Option<real>, show: real -> string)
    requires "cpg_id" in c.columns && "beta" in c.columns
    ensures Column(CoerceBeta(TrimIds(SelectCanonicalColumns(c), show), toNumber), "beta") ==
            Column(CoerceBeta(TrimIds(c, show), toNumber), "beta")
  {
    SelectionCommutes(c, toNumber, show);
    SelectColumn(CoerceBeta(TrimIds(c, show), toNumber), PresentIn(CanonicalColumns, c.columns), "beta");
  }

  /** Pruning the coerced table does not change how many betas are out of
      range, since its cpg_id cells are all text. */
  lemma PruningKeepsRangeCount(c: Table, toNumber: string -> Option<real>, show: real -> string)
    requires "cpg_id" in c.columns && "beta" in c.columns
    ensures OutOfRangeCount(Column(Ingest.Pruned(c, toNumber, show), "beta")) ==
            OutOfRangeCount(Column(CoerceBeta(TrimIds(c, show), toNumber), "beta"))
  {
    var coerced := CoerceBeta(TrimIds(c, show), toNumber);
    NormalizedColumns(c, toNumber, show);
    RangeCountIgnoresMissing(coerced, ["beta", "cpg_id"]);
  }

  /** The range check reads nothing but the beta column. */
  lemma RangeCheckByColumn(t1: Table, t2: Table)
    requires "beta" in t1.columns && "beta" in t2.columns
    requires Column(t1, "beta") == Column(t2, "beta")
    ensures EnsureBetaInRange(t1, "beta") == EnsureBetaInRange(t2, "beta")
  {
  }

  /** Pruning does not change the verdict of the range check. */
  lemma PruningKeepsRangeCheck(c: Table, toNumber: string -> Option<real>, show: real -> string)
    requires "cpg_id" in c.columns && "beta" in c.columns
    ensures EnsureBetaInRange(Ingest.Pruned(c, toNumber, show), "beta") ==
            EnsureBetaInRange(CoerceBeta(TrimIds(c, show), toNumber), "beta")
  {
    PruningKeepsRangeCount(c, toNumber, show);
    NormalizedColumns(c, toNumber, show);
    IngestProperties.PrunedCells(c, toNumber, show);
    RangeCheckByCount(Ingest.Pruned(c, toNumber, show), CoerceBeta(TrimIds(c, show), toNumber));
  }

  /** The range check on the pruned table (core) and on the unpruned one
      (validate_upload) give the same verdict and the same message. */
  lemma RangeChecksAgree(c: Table, toNumber: string -> Option<real>, show: real -> string)
    requires "cpg_id" in c.columns && "beta" in c.columns
    ensures EnsureBetaInRange(Ingest.Pruned(c, toNumber, show), "beta") ==
            EnsureBetaInRange(CoerceBeta(TrimIds(SelectCanonicalColumns(c), show), toNumber), "beta")
  {
    assert "cpg_id" in CanonicalColumns && "beta" in CanonicalColumns;
    CoercedBetaSelected(c, toNumber, show);
    PruningKeepsRangeCheck(c, toNumber, show);
    RangeCheckByColumn(CoerceBeta(TrimIds(SelectCanonicalColumns(c), show), toNumber), CoerceBeta(TrimIds(c, show), toNumber));
  }

  /** The checks both variants make, in the same order, once cpg_id and beta
      are present: the non-numeric count (raised as nonNumeric), emptiness
      after pruning, the range; then the canonical columns with provenance. */
  function RemainingChecks(p: Table, now: string, count: nat, nonNumeric: Exception): Result<Table, Exception> {
    if count > 0 then Failure(nonNumeric)
    else if IsEmpty(p) then Failure(ValidationError(EmptyTableMessage))
    else match EnsureBetaInRange(p, "beta")
      case Raise(e) => Failure(e)
      case Pass => Success(Ingest.Finish(p, now))
  }

  /** The core checks once both columns exist, stated over the core's own
      stages. */
  lemma CoreTail(parsed: Table, toNumber: string -> Option<real>, show: real -> string, now: string)
    requires !IsEmpty(parsed)
    requires "cpg_id" in Canonicalize(parsed).columns && "beta" in Canonicalize(parsed).columns
    ensures var c := Canonicalize(parsed);
      var count := NonNumericCount(toNumber, Column(TrimIds(c, show), "beta"));
      var p := Ingest.Pruned(c, toNumber, show);
      Ingest.LoadParsed(parsed, toNumber, show, now) ==
        RemainingChecks(p, now, count, IngestError(NonNumericMessage(count)))
  {
    var c := Canonicalize(parsed);
    assert forall n :: n in DefaultConfig.requiredColumns ==> n in c.columns;
    assert EnsureRequiredColumns(c, DefaultConfig.requiredColumns).Pass?;
  }

  /** Each stage of validate_upload on the normalised table matches the
      corresponding core stage. */
  lemma StagesAgree(c: Table, toNumber: string -> Option<real>, show: real -> string)
    requires "cpg_id" in c.columns && "beta" in c.columns
    ensures var k := PresentIn(CanonicalColumns, c.columns);
      var s := SelectCanonicalColumns(c);
      var p := Ingest.Pruned(c, toNumber, show);
      && NonNumericCount(toNumber, Column(TrimIds(s, show), "beta")) ==
         NonNumericCount(toNumber, Column(TrimIds(c, show), "beta"))
      && (IsEmpty(DropMissing(CoerceBeta(TrimIds(s, show), toNumber), ["cpg_id", "beta"])) <==> IsEmpty(p))
      && EnsureBetaInRange(CoerceBeta(TrimIds(s, show), toNumber), "beta") == EnsureBetaInRange(p, "beta")
      && CoerceBeta(TrimIds(s, show), toNumber) == Select(CoerceBeta(TrimIds(c, show), toNumber), k)
  {
    var k := PresentIn(CanonicalColumns, c.columns);
    SelectionCommutes(c, toNumber, show);
    SelectColumn(TrimIds(c, show), k, "beta");
    RangeChecksAgree(c, toNumber, show);
  }

  /** validate_upload on the normalised table once both columns exist, stated
      over the core's stages. */
  lemma PackageValidated(parsed: Table, toNumber: string -> Option<real>, show: real -> string)
    requires !IsEmpty(parsed)
    requires "cpg_id" in Canonicalize(parsed).columns && "beta" in Canonicalize(parsed).columns
    ensures var c := Canonicalize(parsed);
      var k := PresentIn(CanonicalColumns, c.columns);
      var count := NonNumericCount(toNumber, Column(TrimIds(c, show), "beta"));
      var p := Ingest.Pruned(c, toNumber, show);
      Validated(PackageIngest.NormalizeUpload(parsed), None, toNumber, show) ==
        if count > 0 then Failure(ValidationError(NonNumericMessage(count)))
        else if IsEmpty(p) then Failure(ValidationError(EmptyTableMessage))
        else match EnsureBetaInRange(p, "beta")
          case Raise(e) => Failure(e)
          case Pass => Success(Select(CoerceBeta(TrimIds(c, show), toNumber), k))
  {
    var c := Canonicalize(parsed);
    SelectionKeepsRequired(c);
    assert "cpg_id" in CanonicalColumns;
    ValidatedPresent(PackageIngest.NormalizeUpload(parsed), toNumber, show);
    StagesAgree(c, toNumber, show);
  }

  /** The src checks once both columns exist, stated over the core's stages. */
  lemma PackageTail(parsed: Table, toNumber: string -> Option<real>, show: real -> string, now: string)
    requires !IsEmpty(parsed)
    requires "cpg_id" in Canonicalize(parsed).columns && "beta" in Canonicalize(parsed).columns
    ensures var c := Canonicalize(parsed);
      var count := NonNumericCount(toNumber, Column(TrimIds(c, show), "beta"));
      var p := Ingest.Pruned(c, toNumber, show);
      PackageIngest.LoadParsed(parsed, toNumber, show, now) ==
        RemainingChecks(p, now, count, ValidationError(NonNumericMessage(count)))
  {
    var c := Canonicalize(parsed);
    var k := PresentIn(CanonicalColumns, c.columns);
    var p := Ingest.Pruned(c, toNumber, show);
    PackageValidated(parsed, toNumber, show);
    SelectionCommutes(c, toNumber, show);
    if PackageIngest.LoadParsed(parsed, toNumber, show, now).Success? ||
       Validated(PackageIngest.NormalizeUpload(parsed), None, toNumber, show).Success? {
      assert PackageIngest.PruneValidated(parsed, toNumber, show) == Select(p, k);
      assert SelectCanonicalColumns(p) == Select(p, k);
    }
  }

  /** With cpg_id or beta missing after aliasing, both report the same
      missing columns. */
  lemma TailsAgreeMissing(parsed: Table, toNumber: string -> Option<real>, show: real -> string, now: string)
    requires !IsEmpty(parsed)
    requires PresentIn(CanonicalColumns, Canonicalize(parsed).columns) != []
    requires "cpg_id" !in Canonicalize(parsed).columns || "beta" !in Canonicalize(parsed).columns
    ensures var m := MissingColumnsMessage(MissingColumns(Canonicalize(parsed).columns, DefaultConfig.requiredColumns));
      && Ingest.LoadParsed(parsed, toNumber, show, now) == Failure(ValidationError(m))
      && PackageIngest.LoadParsed(parsed, toNumber, show, now) == Failure(ValidationError(m))
  {
    var c := Canonicalize(parsed);
    var s := PackageIngest.NormalizeUpload(parsed);
    SelectionKeepsRequired(c);
    MissingColumnsAgree(s.columns, c.columns, DefaultConfig.requiredColumns);
    assert !IsEmpty(s);
  }

  /** The range check on the pruned table never raises TypeError: its betas
      are all numbers. */
  lemma RangeErrorIsValidation(c: Table, toNumber: string -> Option<real>, show: real -> string)
    requires "cpg_id" in c.columns && "beta" in c.columns
    ensures EnsureBetaInRange(Ingest.Pruned(c, toNumber, show), "beta").Raise? ==>
      EnsureBetaInRange(Ingest.Pruned(c, toNumber, show), "beta").exc.ValidationError?
  {
    IngestProperties.PrunedCells(c, toNumber, show);
  }

  /** Raising the non-numeric count as IngestError (core) or as
      ValidationError (src) reads the same once the errors are mapped. */
  lemma RemainingChecksAlike(p: Table, now: string, count: nat)
    requires EnsureBetaInRange(p, "beta").Raise? ==> EnsureBetaInRange(p, "beta").exc.ValidationError?
    ensures var core := RemainingChecks(p, now, count, IngestError(NonNumericMessage(count)));
      var package := RemainingChecks(p, now, count, ValidationError(NonNumericMessage(count)));
      && (core.Success? <==> package.Success?)
      && (core.Success? ==> core.value == package.value)
      && (core.Failure? ==> Ingest.Rewrap(core.error) == PackageIngest.MapError(package.error))
  {
  }

  /** With both columns present after aliasing the two variants pass the same
      checks in the same order. */
  lemma TailsAgreePresent(parsed: Table, toNumber: string -> Option<real>, show: real -> string, now: string)
    requires !IsEmpty(parsed)
    requires "cpg_id" in Canonicalize(parsed).columns && "beta" in Canonicalize(parsed).columns
    ensures var core := Ingest.LoadParsed(parsed, toNumber, show, now);
      var package := PackageIngest.LoadParsed(parsed, toNumber, show, now);
      && (core.Success? <==> package.Success?)
      && (core.Success? ==> core.value == package.value)
      && (core.Failure? ==> Ingest.Rewrap(core.error) == PackageIngest.MapError(package.error))
  {
    var c := Canonicalize(parsed);
    CoreTail(parsed, toNumber, show, now);
    PackageTail(parsed, toNumber, show, now);
    RangeErrorIsValidation(c, toNumber, show);
    RemainingChecksAlike(Ingest.Pruned(c, toNumber, show), now,
      NonNumericCount(toNumber, Column(TrimIds(c, show), "beta")));
  }

  /** Whenever some canonical column is present, the two variants give the
      same table, or errors that read the same once mapped. */
  lemma TailsAgree(parsed: Table, toNumber: string -> Option<real>, show: real -> string, now: string)
    requires PresentIn(CanonicalColumns, Canonicalize(parsed).columns) != [] || IsEmpty(parsed)
    ensures var core := Ingest.LoadParsed(parsed, toNumber, show, now);
      var package := PackageIngest.LoadParsed(parsed, toNumber, show, now);
      && (core.Success? <==> package.Success?)
      && (core.Success? ==> core.value == package.value)
      && (core.Failure? ==> Ingest.Rewrap(core.error) == PackageIngest.MapError(package.error))
  {
    var c := Canonicalize(parsed);
    if IsEmpty(parsed) {
      assert Ingest.LoadParsed(parsed, toNumber, show, now) == Failure(ValidationError(EmptyTableMessage));
      assert PackageIngest.LoadParsed(parsed, toNumber, show, now) == Failure(ValidationError(EmptyTableMessage));
    } else if "cpg_id" !in c.columns || "beta" !in c.columns {
      TailsAgreeMissing(parsed, toNumber, show, now);
    } else {
      TailsAgreePresent(parsed, toNumber, show, now);
    }
  }

  /** The divergence: a non-empty table with no canonical column at all is
      refused by core as missing cpg_id and beta, but by src as empty, since
      normalize_upload leaves it without columns. */
  lemma NoCanonicalColumnDiverges(parsed: Table, toNumber: string -> Option<real>, show: real -> string, now: string)
    requires !IsEmpty(parsed)
    requires PresentIn(CanonicalColumns, Canonicalize(parsed).columns) == []
    ensures Ingest.LoadParsed(parsed, toNumber, show, now) ==
      Failure(ValidationError(MissingColumnsMessage(["cpg_id", "beta"])))
    ensures PackageIngest.LoadParsed(parsed, toNumber, show, now) == Failure(ValidationError(EmptyTableMessage))
  {
    var c := Canonicalize(parsed);
    assert "cpg_id" in CanonicalColumns && "beta" in CanonicalColumns;
    assert "cpg_id" !in c.columns && "beta" !in c.columns;
    assert MissingColumns(c.columns, DefaultConfig.requiredColumns) == ["cpg_id", "beta"];
  }

  /** Once the bytes parse, both try-blocks go on with the table read. */
  lemma AttemptOnParsed(parse: (seq<byte>, Sep) -> ParseOutcome, toNumber: string -> Option<real>,
                        show: real -> string, now: string, file: Ingest.Upload, sourceName: Option<string>)
    requires file.content != [] && ReadTableBytes(parse, file.content, Ingest.SourceName(sourceName, file)).Parsed?
    ensures var parsed := ReadTableBytes(parse, file.content, Ingest.SourceName(sourceName, file)).table;
      && Ingest.LoadAttempt(parse, toNumber, show, now, file, sourceName) ==
         Ingest.LoadParsed(parsed, toNumber, show, now)
      && PackageIngest.LoadAttempt(parse, toNumber, show, now, file, sourceName) ==
         PackageIngest.LoadParsed(parsed, toNumber, show, now)
  {
  }

  /** An empty upload and an unreadable one fail in both, with the same
      message once mapped. */
  lemma AttemptBeforeParsing(parse: (seq<byte>, Sep) -> ParseOutcome, toNumber: string -> Option<real>,
                             show: real -> string, now: string, file: Ingest.Upload, sourceName: Option<string>)
    requires file.content == [] || !ReadTableBytes(parse, file.content, Ingest.SourceName(sourceName, file)).Parsed?
    ensures var core := Ingest.LoadAttempt(parse, toNumber, show, now, file, sourceName);
      var package := PackageIngest.LoadAttempt(parse, toNumber, show, now, file, sourceName);
      && core.Failure? && package.Failure?
      && Ingest.Rewrap(core.error) == PackageIngest.MapError(package.error)
  {
    var core := Ingest.LoadAttempt(parse, toNumber, show, now, file, sourceName);
    var package := PackageIngest.LoadAttempt(parse, toNumber, show, now, file, sourceName);
    if file.content == [] {
      assert core == Failure(IngestError(Ingest.EmptyUploadMessage));
      assert package == Failure(IngestError(Ingest.EmptyUploadMessage));
    } else {
      var outcome := ReadTableBytes(parse, file.content, Ingest.SourceName(sourceName, file));
      if outcome.EmptyData? {
        assert core == Failure(IngestError(Ingest.AppearsEmptyMessage));
        assert package == Failure(EmptyDataError);
      } else {
        assert core == Failure(IngestError(Ingest.CouldNotParseMessage));
        assert package == Failure(ParserError);
      }
    }
  }

  /** The two try-blocks on one upload: the same table, or errors that read
      the same once mapped, unless the table read has rows but no canonical
      column. */
  lemma AttemptsAgree(parse: (seq<byte>, Sep) -> ParseOutcome, toNumber: string -> Option<real>,
                      show: real -> string, now: string, file: Ingest.Upload, sourceName: Option<string>)
    requires Ingest.ReadsWithoutClash(parse, file, sourceName)
    ensures var core := Ingest.LoadAttempt(parse, toNumber, show, now, file, sourceName);
      var package := PackageIngest.LoadAttempt(parse, toNumber, show, now, file, sourceName);
      && (core.Success? <==> package.Success?)
      && (core.Success? ==> core.value == package.value)
    ensures var core := Ingest.LoadAttempt(parse, toNumber, show, now, file, sourceName);
      var package := PackageIngest.LoadAttempt(parse, toNumber, show, now, file, sourceName);
      var outcome := ReadTableBytes(parse, file.content, Ingest.SourceName(sourceName, file));
      core.Failure? && !(file.content != [] && outcome.Parsed? && !IsEmpty(outcome.table) &&
        PresentIn(CanonicalColumns, Canonicalize(outcome.table).columns) == []) ==>
      Ingest.Rewrap(core.error) == PackageIngest.MapError(package.error)
  {
    var outcome := ReadTableBytes(parse, file.content, Ingest.SourceName(sourceName, file));
    if file.content != [] && outcome.Parsed? {
      AttemptOnParsed(parse, toNumber, show, now, file, sourceName);
      var parsed := outcome.table;
      if PresentIn(CanonicalColumns, Canonicalize(parsed).columns) != [] || IsEmpty(parsed) {
        TailsAgree(parsed, toNumber, show, now);
      } else {
        NoCanonicalColumnDiverges(parsed, toNumber, show, now);
      }
    } else {
      AttemptBeforeParsing(parse, toNumber, show, now, file, sourceName);
    }
  }

  /** Both loaders accept the same uploads and return the same table. */
  lemma LoadersAgree(parse: (seq<byte>, Sep) -> ParseOutcome, toNumber: string -> Option<real>,
                     show: real -> string, now: string, uploadedFile: Option<Ingest.Upload>,
                     sourceName: Option<string>)
    requires uploadedFile.Some? ==> Ingest.ReadsWithoutClash(parse, uploadedFile.value, sourceName)
    ensures var core := Ingest.Load(parse, toNumber, show, now, uploadedFile, sourceName);
      var package := PackageIngest.Load(parse, toNumber, show, now, uploadedFile, sourceName);
      && (core.Success? <==> package.Success?)
      && (core.Success? ==> core.value == package.value)
  {
    if uploadedFile.Some? {
      AttemptsAgree(parse, toNumber, show, now, uploadedFile.value, sourceName);
    }
  }

  /** They also fail with the same IngestError, except on a non-empty table
      without a canonical column. */
  lemma LoadersFailAlike(parse: (seq<byte>, Sep) -> ParseOutcome, toNumber: string -> Option<real>,
                         show: real -> string, now: string, uploadedFile: Option<Ingest.Upload>,
                         sourceName: Option<string>)
    requires uploadedFile.Some? ==> Ingest.ReadsWithoutClash(parse, uploadedFile.value, sourceName)
    requires uploadedFile.Some? && uploadedFile.value.content != [] ==>
      var outcome := ReadTableBytes(parse, uploadedFile.value.content, Ingest.SourceName(sourceName, uploadedFile.value));
      outcome.Parsed? ==>
        IsEmpty(outcome.table) || PresentIn(CanonicalColumns, Canonicalize(outcome.table).columns) != []
    ensures Ingest.Load(parse, toNumber, show, now, uploadedFile, sourceName) ==
      PackageIngest.Load(parse, toNumber, show, now, uploadedFile, sourceName)
  {
    if uploadedFile.Some? {
      AttemptsAgree(parse, toNumber, show, now, uploadedFile.value, sourceName);
    }
  }
}
