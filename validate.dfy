/** core/validate.py and src/cpg_methylation_mvp/core/validate.py: the fail-fast
    checks (identical in both files) and validate_upload, which fixes their
    order. pd.to_numeric on a string and str() of a float are parameters. */
module Validate {
  import opened Strings
  import opened Wrappers
  import opened Frame
  import opened Errors

  const EmptyTableMessage: string :=
    "The uploaded file is empty. Please provide a CSV/TSV with at least one data row."

  function MissingColumnsMessage(missing: seq<string>): string {
    "Missing required column(s): " + Join(missing, ", ") + ". Include these columns (or known aliases) and upload again."
  }

  const NonNumericPhrase: string := "non-numeric beta"

  function NonNumericMessage(n: nat): string {
    "Found " + Decimal(n) + " " + NonNumericPhrase + " value(s). Beta values must be numeric between 0 and 1."
  }

  function OutOfRangeMessage(n: nat): string {
    "Found " + Decimal(n) + " beta value(s) outside [0, 1]. Fix out-of-range values and re-upload."
  }

  datatype ValidationConfig = ValidationConfig(requiredColumns: seq<string>)

  const DefaultConfig: ValidationConfig := ValidationConfig(["cpg_id", "beta"])

  /** `config or ValidationConfig()`: a config object is always truthy. */
  function ConfigOrDefault(config: Option<ValidationConfig>): (cfg: ValidationConfig)
    ensures config.None? ==> cfg.requiredColumns == ["cpg_id", "beta"]
    ensures config.Some? ==> cfg == config.value
  {
    if config.Some? then config.value else DefaultConfig
  }

  // ---------------------------------------------------------------------
  // Cell-wise conversions

  /** pd.to_numeric(errors="coerce") on one cell: NaN stays NaN, a number stays,
      a string becomes its number or NaN. */
  function Coerce(toNumber: string -> Option<real>, c: Cell): (r: Cell)
    ensures r.Missing? || r.Num?
    ensures c.Num? ==> r == c
    ensures c.Missing? ==> r.Missing?
  {
    match c
    case Missing => Missing
    case Num(x) => Num(x)
    case Text(s) => if toNumber(s).Some? then Num(toNumber(s).value) else Missing
  }

  /** A cell counted by ensure_beta_numeric: present, but NaN after coercion. */
  predicate NonNumeric(toNumber: string -> Option<real>, c: Cell) {
    c != Missing && Coerce(toNumber, c) == Missing
  }

  /** A cell counted by ensure_beta_in_range: a number below 0 or above 1. */
  predicate OutOfRange(c: Cell) {
    c.Num? && (c.r < 0.0 || c.r > 1.0)
  }

  /** .astype(str).str.strip() on one cell; NaN renders as "nan". */
  function AsText(show: real -> string, c: Cell): (r: Cell)
    ensures r.Text? && IsTrimmed(r.s)
    ensures c.Text? ==> r.s == Strip(c.s)
  {
    StripIsTrimmed("nan");
    StripIsTrimmed(if c.Text? then c.s else "");
    StripIsTrimmed(if c.Num? then show(c.r) else "");
    match c
    case Missing => Text(Strip("nan"))
    case Text(s) => Text(Strip(s))
    case Num(x) => Text(Strip(show(x)))
  }

  // ---------------------------------------------------------------------
  // Counting a mask

  /** mask.sum(): how many cells satisfy `p`. */
  function CountWhere(cells: seq<Cell>, p: Cell -> bool): (n: nat)
    ensures n <= |cells|
  {
    if cells == [] then 0
    else CountWhere(cells[..|cells| - 1], p) + (if p(cells[|cells| - 1]) then 1 else 0)
  }

  lemma {:induction false} CountWhereAppend(a: seq<Cell>, b: seq<Cell>, p: Cell -> bool)
    ensures CountWhere(a + b, p) == CountWhere(a, p) + CountWhere(b, p)
  {
    if b != [] {
      var n := |b| - 1;
      assert (a + b)[..|a + b| - 1] == a + b[..n];
      CountWhereAppend(a, b[..n], p);
    } else {
      assert a + b == a;
    }
  }

  /** The count is the number of positions whose cell satisfies `p`. */
  lemma {:induction false} CountWhereIsCardinality(cells: seq<Cell>, p: Cell -> bool)
    ensures CountWhere(cells, p) == |set i | 0 <= i < |cells| && p(cells[i])|
  {
    if cells != [] {
      var n := |cells| - 1;
      var init := cells[..n];
      CountWhereIsCardinality(init, p);
      var before := set i | 0 <= i < |init| && p(init[i]);
      var after := set i | 0 <= i < |cells| && p(cells[i]);
      if p(cells[n]) {
        assert after == before + {n};
        assert n !in before;
      } else {
        assert after == before;
      }
    }
  }

  /** The count is zero exactly when no cell satisfies `p`. */
  lemma {:induction false} CountWhereZero(cells: seq<Cell>, p: Cell -> bool)
    ensures CountWhere(cells, p) == 0 <==> forall i :: 0 <= i < |cells| ==> !p(cells[i])
  {
    if cells != [] {
      var n := |cells| - 1;
      CountWhereZero(cells[..n], p);
      assert forall i :: 0 <= i < n ==> cells[..n][i] == cells[i];
    }
  }

  function NonNumericCount(toNumber: string -> Option<real>, cells: seq<Cell>): nat {
    CountWhere(cells, c => NonNumeric(toNumber, c))
  }

  function OutOfRangeCount(cells: seq<Cell>): nat {
    CountWhere(cells, OutOfRange)
  }

  // ---------------------------------------------------------------------
  // The checks

  /** ensure_non_empty_dataframe */
  function EnsureNonEmpty(t: Table): (c: Check)
    ensures c.Raise? <==> IsEmpty(t)
    ensures c.Raise? ==> c.exc == ValidationError(EmptyTableMessage)
  {
    if IsEmpty(t) then Raise(ValidationError(EmptyTableMessage)) else Pass
  }

  /** [column for column in required if column not in df.columns] */
  function MissingColumns(columns: seq<string>, required: seq<string>): (missing: seq<string>)
    ensures forall n :: n in missing <==> n in required && n !in columns
    ensures Subsequence(missing, required)
  {
    if required == [] then []
    else
      var rest := MissingColumns(columns, required[1..]);
      if required[0] !in columns then [required[0]] + rest
      else
        SubsequenceDropHead(rest, required);
        rest
  }

  /** ensure_required_columns */
  function EnsureRequiredColumns(t: Table, required: seq<string>): (c: Check)
    ensures c.Raise? <==> exists n :: n in required && n !in t.columns
    ensures c.Raise? ==> c.exc == ValidationError(MissingColumnsMessage(MissingColumns(t.columns, required)))
  {
    var missing := MissingColumns(t.columns, required);
    if missing != [] then
      assert missing[0] in missing;
      Raise(ValidationError(MissingColumnsMessage(missing)))
    else
      Pass
  }

  /** ensure_beta_numeric */
  function EnsureBetaNumeric(t: Table, toNumber: string -> Option<real>, beta: string): (c: Check)
    ensures beta !in t.columns ==> c == Raise(KeyError(beta))
    ensures beta in t.columns ==>
      (c.Pass? <==> forall i :: 0 <= i < |t.rows| ==> !NonNumeric(toNumber, Column(t, beta)[i]))
    ensures beta in t.columns && c.Raise? ==>
      c.exc == ValidationError(NonNumericMessage(NonNumericCount(toNumber, Column(t, beta)))) &&
      NonNumericCount(toNumber, Column(t, beta)) > 0
  {
    if beta !in t.columns then Raise(KeyError(beta))
    else
      var n := NonNumericCount(toNumber, Column(t, beta));
      CountWhereZero(Column(t, beta), c => NonNumeric(toNumber, c));
      if n > 0 then Raise(ValidationError(NonNumericMessage(n))) else Pass
  }

  /** ensure_beta_in_range; comparing a text cell with a number raises. */
  function EnsureBetaInRange(t: Table, beta: string): (c: Check)
    ensures beta !in t.columns ==> c == Raise(KeyError(beta))
    ensures beta in t.columns && (forall i :: 0 <= i < |t.rows| ==> !Column(t, beta)[i].Text?) ==>
      (c.Pass? <==> forall i :: 0 <= i < |t.rows| ==> !OutOfRange(Column(t, beta)[i]))
    ensures beta in t.columns && c.Raise? && c.exc != TypeError ==>
      c.exc == ValidationError(OutOfRangeMessage(OutOfRangeCount(Column(t, beta)))) &&
      OutOfRangeCount(Column(t, beta)) > 0
  {
    if beta !in t.columns then Raise(KeyError(beta))
    else
      var cells := Column(t, beta);
      if exists i :: 0 <= i < |cells| && cells[i].Text? then Raise(TypeError)
      else
        var n := OutOfRangeCount(cells);
        CountWhereZero(cells, OutOfRange);
        if n > 0 then Raise(ValidationError(OutOfRangeMessage(n))) else Pass
  }

  // ---------------------------------------------------------------------
  // What the messages say

  /** The missing-column message names every missing column. */
  lemma MissingMessageNamesColumns(columns: seq<string>, required: seq<string>, n: string)
    requires n in required && n !in columns
    ensures Contains(MissingColumnsMessage(MissingColumns(columns, required)), "Missing required column")
    ensures Contains(MissingColumnsMessage(MissingColumns(columns, required)), n)
  {
    var missing := MissingColumns(columns, required);
    var rest := ". Include these columns (or known aliases) and upload again.";
    var msg := MissingColumnsMessage(missing);
    assert msg[..|"Missing required column"|] == "Missing required column";
    ContainsAt(msg, "Missing required column", 0);
    var k :| 0 <= k < |missing| && missing[k] == n;
    JoinContains(missing, ", ", k);
    ContainsInContext("Missing required column(s): ", Join(missing, ", "), rest, n);
  }

  /** The count the two count messages report reads back as the count. */
  lemma CountMessagesReport(n: nat)
    ensures NonNumericMessage(n)[..6] == "Found " && OutOfRangeMessage(n)[..6] == "Found "
    ensures DecimalValue(NonNumericMessage(n)[6..6 + |Decimal(n)|]) == n
    ensures DecimalValue(OutOfRangeMessage(n)[6..6 + |Decimal(n)|]) == n
  {
    DecimalRoundTrip(n);
    var d := Decimal(n);
    assert NonNumericMessage(n)[6..6 + |d|] == d;
    assert OutOfRangeMessage(n)[6..6 + |d|] == d;
  }

  /** The non-numeric message says "non-numeric beta". */
  lemma NonNumericMessageSays(n: nat)
    ensures Contains(NonNumericMessage(n), NonNumericPhrase)
  {
    ContainsSelf(NonNumericPhrase);
    ContainsInContext("Found " + Decimal(n) + " ", NonNumericPhrase,
                      " value(s). Beta values must be numeric between 0 and 1.", NonNumericPhrase);
  }

  // ---------------------------------------------------------------------
  // Range count and pruning

  /** The cells of column k, row by row. */
  function Cells(rows: seq<seq<Cell>>, k: nat): (cells: seq<Cell>)
    requires forall i :: 0 <= i < |rows| ==> k < |rows[i]|
    ensures |cells| == |rows| && forall i :: 0 <= i < |rows| ==> cells[i] == rows[i][k]
  {
    seq(|rows|, i requires 0 <= i < |rows| => rows[i][k])
  }

  /** Dropping rows that are missing the counted column, and only such rows,
      does not change a count that never counts a missing cell. */
  lemma {:induction false} DropMissingKeepsCount(columns: seq<string>, rows: seq<seq<Cell>>, subset: seq<string>,
                                                 beta: string, p: Cell -> bool)
    requires forall i :: 0 <= i < |rows| ==> |rows[i]| == |columns|
    requires forall n :: n in subset ==> n in columns
    requires beta in columns && !p(Missing)
    requires forall i, n :: 0 <= i < |rows| && n in subset && n != beta ==> rows[i][IndexOf(columns, n)] != Missing
    ensures CountWhere(Cells(KeepComplete(columns, rows, subset), IndexOf(columns, beta)), p) ==
            CountWhere(Cells(rows, IndexOf(columns, beta)), p)
  {
    var k := IndexOf(columns, beta);
    if rows != [] {
      DropMissingKeepsCount(columns, rows[1..], subset, beta, p);
      var all := Cells(rows, k);
      assert all == [rows[0][k]] + Cells(rows[1..], k);
      CountWhereAppend([rows[0][k]], Cells(rows[1..], k), p);
      var kept := KeepComplete(columns, rows, subset);
      var rest := KeepComplete(columns, rows[1..], subset);
      if Complete(columns, rows[0], subset) {
        assert Cells(kept, k) == [rows[0][k]] + Cells(rest, k);
        CountWhereAppend([rows[0][k]], Cells(rest, k), p);
      } else {
        assert rows[0][k] == Missing;
        assert CountWhere([rows[0][k]], p) == 0;
      }
    }
  }

  /** The out-of-range count of a table equals the count after dropping its
      missing-beta rows. */
  lemma RangeCountIgnoresMissing(t: Table, subset: seq<string>)
    requires "beta" in t.columns && "beta" in subset
    requires forall n :: n in subset ==> n in t.columns
    requires forall i, n :: 0 <= i < |t.rows| && n in subset && n != "beta" ==> t.rows[i][IndexOf(t.columns, n)] != Missing
    ensures OutOfRangeCount(Column(DropMissing(t, subset), "beta")) == OutOfRangeCount(Column(t, "beta"))
  {
    var k := IndexOf(t.columns, "beta");
    DropMissingKeepsCount(t.columns, t.rows, subset, "beta", OutOfRange);
    assert Column(t, "beta") == Cells(t.rows, k);
    assert Column(DropMissing(t, subset), "beta") == Cells(KeepComplete(t.columns, t.rows, subset), k);
  }

  // ---------------------------------------------------------------------
  // validate_upload

  /** validated["cpg_id"] = validated["cpg_id"].astype(str).str.strip() */
  function TrimIds(t: Table, show: real -> string): (r: Table)
    requires "cpg_id" in t.columns
    ensures r.columns == t.columns && |r.rows| == |t.rows|
  {
    MapColumn(t, "cpg_id", c => AsText(show, c))
  }

  /** validated["beta"] = pd.to_numeric(validated["beta"], errors="coerce") */
  function CoerceBeta(t: Table, toNumber: string -> Option<real>): (r: Table)
    requires "beta" in t.columns
    ensures r.columns == t.columns && |r.rows| == |t.rows|
  {
    MapColumn(t, "beta", c => Coerce(toNumber, c))
  }

  /** validate_upload, stage by stage: the first failing check decides. */
  function Validated(t: Table, config: Option<ValidationConfig>, toNumber: string -> Option<real>,
                     show: real -> string): Result<Table, Exception>
  {
    var cfg := ConfigOrDefault(config);
    match EnsureNonEmpty(t)
    case Raise(e) => Failure(e)
    case Pass =>
      match EnsureRequiredColumns(t, cfg.requiredColumns)
      case Raise(e) => Failure(e)
      case Pass =>
        if "cpg_id" !in t.columns then Failure(KeyError("cpg_id"))
        else
          var trimmed := TrimIds(t, show);
          match EnsureBetaNumeric(trimmed, toNumber, "beta")
          case Raise(e) => Failure(e)
          case Pass =>
            var coerced := CoerceBeta(trimmed, toNumber);
            match EnsureNonEmpty(DropMissing(coerced, ["cpg_id", "beta"]))
            case Raise(e) => Failure(e)
            case Pass =>
              match EnsureBetaInRange(coerced, "beta")
              case Raise(e) => Failure(e)
              case Pass => Success(coerced)
  }

  /** validate_upload: copy the frame, overwrite cpg_id and beta, check. */
  method ValidateUpload(df: Table, config: Option<ValidationConfig>, toNumber: string -> Option<real>,
                        show: real -> string) returns (r: Result<Table, Exception>)
    ensures r == Validated(df, config, toNumber, show)
  {
    var cfg := ConfigOrDefault(config);
    var check := EnsureNonEmpty(df);
    if check.Raise? {
      return Failure(check.exc);
    }
    check := EnsureRequiredColumns(df, cfg.requiredColumns);
    if check.Raise? {
      return Failure(check.exc);
    }
    if "cpg_id" !in df.columns {
      return Failure(KeyError("cpg_id"));
    }
    var validated := df;
    validated := TrimIds(validated, show);
    check := EnsureBetaNumeric(validated, toNumber, "beta");
    if check.Raise? {
      return Failure(check.exc);
    }
    validated := CoerceBeta(validated, toNumber);
    check := EnsureNonEmpty(DropMissing(validated, ["cpg_id", "beta"]));
    if check.Raise? {
      return Failure(check.exc);
    }
    check := EnsureBetaInRange(validated, "beta");
    if check.Raise? {
      return Failure(check.exc);
    }
    return Success(validated);
  }

  // ---------------------------------------------------------------------
  // What validate_upload promises

  /** The two rewritten columns, cell by cell. */
  lemma NormalizedCells(t: Table, toNumber: string -> Option<real>, show: real -> string, i: nat)
    requires "cpg_id" in t.columns && "beta" in t.columns && i < |t.rows|
    ensures TrimIds(t, show).rows[i][IndexOf(t.columns, "beta")] == t.rows[i][IndexOf(t.columns, "beta")]
    ensures var v := CoerceBeta(TrimIds(t, show), toNumber);
      && v.rows[i][IndexOf(t.columns, "cpg_id")] == AsText(show, t.rows[i][IndexOf(t.columns, "cpg_id")])
      && v.rows[i][IndexOf(t.columns, "beta")] == Coerce(toNumber, t.rows[i][IndexOf(t.columns, "beta")])
      && forall j :: 0 <= j < |t.columns| && j != IndexOf(t.columns, "cpg_id") && j != IndexOf(t.columns, "beta") ==>
           v.rows[i][j] == t.rows[i][j]
  {
    assert IndexOf(t.columns, "cpg_id") != IndexOf(t.columns, "beta");
  }

  /** The beta column before and after each rewrite, and the ids after it. */
  lemma NormalizedColumns(t: Table, toNumber: string -> Option<real>, show: real -> string)
    requires "cpg_id" in t.columns && "beta" in t.columns
    ensures Column(TrimIds(t, show), "beta") == Column(t, "beta")
    ensures forall i :: 0 <= i < |t.rows| ==>
      Column(CoerceBeta(TrimIds(t, show), toNumber), "beta")[i] == Coerce(toNumber, Column(t, "beta")[i])
    ensures forall i :: 0 <= i < |t.rows| ==>
      CoerceBeta(TrimIds(t, show), toNumber).rows[i][IndexOf(t.columns, "cpg_id")].Text?
  {
    forall i | 0 <= i < |t.rows|
      ensures Column(TrimIds(t, show), "beta")[i] == Column(t, "beta")[i]
      ensures Column(CoerceBeta(TrimIds(t, show), toNumber), "beta")[i] == Coerce(toNumber, Column(t, "beta")[i])
      ensures CoerceBeta(TrimIds(t, show), toNumber).rows[i][IndexOf(t.columns, "cpg_id")].Text?
    {
      NormalizedCells(t, toNumber, show, i);
    }
  }

  /** The numeric check raises exactly when it counts some non-numeric beta. */
  lemma NumericCheckByCount(t: Table, toNumber: string -> Option<real>)
    requires "beta" in t.columns
    ensures var n := NonNumericCount(toNumber, Column(t, "beta"));
      EnsureBetaNumeric(t, toNumber, "beta") ==
        if n > 0 then Raise(ValidationError(NonNumericMessage(n))) else Pass
  {
    CountWhereZero(Column(t, "beta"), x => NonNumeric(toNumber, x));
  }

  /** validate_upload with the default configuration on a non-empty table
      holding both columns, as its remaining checks. */
  lemma ValidatedPresent(s: Table, toNumber: string -> Option<real>, show: real -> string)
    requires !IsEmpty(s) && "cpg_id" in s.columns && "beta" in s.columns
    ensures var trimmed := TrimIds(s, show);
      var coerced := CoerceBeta(trimmed, toNumber);
      var n := NonNumericCount(toNumber, Column(trimmed, "beta"));
      Validated(s, None, toNumber, show) ==
        if n > 0 then Failure(ValidationError(NonNumericMessage(n)))
        else if IsEmpty(DropMissing(coerced, ["cpg_id", "beta"])) then Failure(ValidationError(EmptyTableMessage))
        else match EnsureBetaInRange(coerced, "beta")
          case Raise(e) => Failure(e)
          case Pass => Success(coerced)
  {
    assert forall n :: n in DefaultConfig.requiredColumns ==> n in s.columns;
    assert EnsureRequiredColumns(s, DefaultConfig.requiredColumns).Pass?;
    NumericCheckByCount(TrimIds(s, show), toNumber);
  }

  /** validate_upload on an empty table, or on one missing cpg_id or beta. */
  lemma ValidatedEarlyFailure(t: Table, toNumber: string -> Option<real>, show: real -> string)
    requires IsEmpty(t) || "cpg_id" !in t.columns || "beta" !in t.columns
    ensures IsEmpty(t) ==> Validated(t, None, toNumber, show) == Failure(ValidationError(EmptyTableMessage))
    ensures !IsEmpty(t) ==>
      Validated(t, None, toNumber, show) ==
        Failure(ValidationError(MissingColumnsMessage(MissingColumns(t.columns, DefaultConfig.requiredColumns))))
  {
    if !IsEmpty(t) {
      assert "cpg_id" in DefaultConfig.requiredColumns && "beta" in DefaultConfig.requiredColumns;
      assert EnsureRequiredColumns(t, DefaultConfig.requiredColumns).Raise?;
    }
  }

  /** After the rewrites no beta is text, so the range check never raises TypeError. */
  lemma CoercedBetasNotText(t: Table, toNumber: string -> Option<real>, show: real -> string)
    requires "cpg_id" in t.columns && "beta" in t.columns
    ensures var coerced := CoerceBeta(TrimIds(t, show), toNumber);
      (forall i :: 0 <= i < |t.rows| ==> !Column(coerced, "beta")[i].Text?)
  {
    NormalizedColumns(t, toNumber, show);
  }

  /** The count of non-numeric betas after trimming is zero exactly when every
      beta of the upload is numeric or missing. */
  lemma NumericStageIff(t: Table, toNumber: string -> Option<real>, show: real -> string)
    requires "cpg_id" in t.columns && "beta" in t.columns
    ensures NonNumericCount(toNumber, Column(TrimIds(t, show), "beta")) == 0 <==>
      forall i :: 0 <= i < |t.rows| ==> !NonNumeric(toNumber, Column(t, "beta")[i])
  {
    NormalizedColumns(t, toNumber, show);
    CountWhereZero(Column(TrimIds(t, show), "beta"), c => NonNumeric(toNumber, c));
  }

  /** Pruning leaves a row exactly when some beta coerces to a number. */
  lemma PruneStageIff(t: Table, toNumber: string -> Option<real>, show: real -> string)
    requires "cpg_id" in t.columns && "beta" in t.columns
    ensures !IsEmpty(DropMissing(CoerceBeta(TrimIds(t, show), toNumber), ["cpg_id", "beta"])) <==>
      exists i :: 0 <= i < |t.rows| && Coerce(toNumber, Column(t, "beta")[i]).Num?
  {
    var coerced := CoerceBeta(TrimIds(t, show), toNumber);
    NormalizedColumns(t, toNumber, show);
    PresentBetaKeepsRow(coerced);
    var beta := Column(coerced, "beta");
    assert (exists i :: 0 <= i < |t.rows| && beta[i] != Missing) <==>
           (exists i :: 0 <= i < |t.rows| && Coerce(toNumber, Column(t, "beta")[i]).Num?);
  }

  /** The range check passes exactly when no coerced beta is out of [0, 1]. */
  lemma RangeStageIff(t: Table, toNumber: string -> Option<real>, show: real -> string)
    requires "cpg_id" in t.columns && "beta" in t.columns
    ensures EnsureBetaInRange(CoerceBeta(TrimIds(t, show), toNumber), "beta").Pass? <==>
      forall i :: 0 <= i < |t.rows| ==> !OutOfRange(Coerce(toNumber, Column(t, "beta")[i]))
  {
    var coerced := CoerceBeta(TrimIds(t, show), toNumber);
    NormalizedColumns(t, toNumber, show);
    CoercedBetasNotText(t, toNumber, show);
    var beta := Column(coerced, "beta");
    assert (forall i :: 0 <= i < |t.rows| ==> !OutOfRange(beta[i])) <==>
           (forall i :: 0 <= i < |t.rows| ==> !OutOfRange(Coerce(toNumber, Column(t, "beta")[i])));
  }

  /** With the default config, validate_upload succeeds exactly when the table
      is non-empty, has both columns, every present beta is numeric, some beta
      is present, and every beta is in [0, 1]. */
  lemma ValidatedSucceedsExactly(t: Table, toNumber: string -> Option<real>, show: real -> string)
    ensures Validated(t, None, toNumber, show).Success? <==>
      && !IsEmpty(t) && "cpg_id" in t.columns && "beta" in t.columns
      && (forall i :: 0 <= i < |t.rows| ==> !NonNumeric(toNumber, Column(t, "beta")[i]))
      && (exists i :: 0 <= i < |t.rows| && Coerce(toNumber, Column(t, "beta")[i]).Num?)
      && (forall i :: 0 <= i < |t.rows| ==> !OutOfRange(Coerce(toNumber, Column(t, "beta")[i])))
  {
    if !IsEmpty(t) && "cpg_id" in t.columns && "beta" in t.columns {
      ValidatedPresent(t, toNumber, show);
      NumericStageIff(t, toNumber, show);
      PruneStageIff(t, toNumber, show);
      RangeStageIff(t, toNumber, show);
    } else {
      ValidatedEarlyFailure(t, toNumber, show);
    }
  }




  /** After normalisation, the rows dropna keeps are those with a beta. */
  lemma PresentBetaKeepsRow(t: Table)
    requires "cpg_id" in t.columns && "beta" in t.columns
    requires forall i :: 0 <= i < |t.rows| ==> t.rows[i][IndexOf(t.columns, "cpg_id")].Text?
    ensures IsEmpty(DropMissing(t, ["cpg_id", "beta"])) <==>
      forall i :: 0 <= i < |t.rows| ==> Column(t, "beta")[i] == Missing
  {
    if exists i :: 0 <= i < |t.rows| && Column(t, "beta")[i] != Missing {
      var i :| 0 <= i < |t.rows| && Column(t, "beta")[i] != Missing;
      RowWithBetaKept(t, i);
    }
    if !IsEmpty(DropMissing(t, ["cpg_id", "beta"])) {
      KeptRowHasBeta(t);
    }
  }

  /** A row with a text id and a beta survives dropna. */
  lemma RowWithBetaKept(t: Table, i: nat)
    requires "cpg_id" in t.columns && "beta" in t.columns && i < |t.rows|
    requires t.rows[i][IndexOf(t.columns, "cpg_id")].Text? && Column(t, "beta")[i] != Missing
    ensures !IsEmpty(DropMissing(t, ["cpg_id", "beta"]))
  {
    var subset := ["cpg_id", "beta"];
    KeepCompleteSpec(t.columns, t.rows, subset);
    assert Complete(t.columns, t.rows[i], subset);
    assert t.rows[i] in t.rows;
    assert t.rows[i] in KeepComplete(t.columns, t.rows, subset);
  }

  /** Some row survives dropna only when some row has a beta. */
  lemma KeptRowHasBeta(t: Table)
    requires "cpg_id" in t.columns && "beta" in t.columns
    requires !IsEmpty(DropMissing(t, ["cpg_id", "beta"]))
    ensures exists i :: 0 <= i < |t.rows| && Column(t, "beta")[i] != Missing
  {
    var subset := ["cpg_id", "beta"];
    KeepCompleteSpec(t.columns, t.rows, subset);
    var kept := KeepComplete(t.columns, t.rows, subset);
    assert kept[0] in t.rows;
    var i :| 0 <= i < |t.rows| && t.rows[i] == kept[0];
    assert Complete(t.columns, kept[0], subset);
    assert Column(t, "beta")[i] != Missing;
  }

  /** On success the table keeps its columns and its row count (nothing is
      pruned); every cpg_id is trimmed text, every beta is the coerced input
      value and is missing or in [0, 1], and all other cells are untouched. */
  lemma ValidatedShape(t: Table, config: Option<ValidationConfig>, toNumber: string -> Option<real>,
                       show: real -> string)
    requires Validated(t, config, toNumber, show).Success?
    ensures var v := Validated(t, config, toNumber, show).value;
      && v.columns == t.columns && |v.rows| == |t.rows|
      && "cpg_id" in v.columns && "beta" in v.columns
      && (forall i :: 0 <= i < |v.rows| ==>
            && Column(v, "cpg_id")[i] == AsText(show, Column(t, "cpg_id")[i])
            && Column(v, "cpg_id")[i].Text? && IsTrimmed(Column(v, "cpg_id")[i].s)
            && Column(v, "beta")[i] == Coerce(toNumber, Column(t, "beta")[i])
            && (Column(v, "beta")[i] == Missing || 0.0 <= Column(v, "beta")[i].r <= 1.0))
      && (forall i, j :: (0 <= i < |v.rows| && 0 <= j < |t.columns| &&
            t.columns[j] != "cpg_id" && t.columns[j] != "beta") ==> v.rows[i][j] == t.rows[i][j])
  {
    var v := Validated(t, config, toNumber, show).value;
    forall i | 0 <= i < |t.rows|
      ensures Column(v, "cpg_id")[i] == AsText(show, Column(t, "cpg_id")[i])
      ensures Column(v, "beta")[i] == Coerce(toNumber, Column(t, "beta")[i])
      ensures forall j :: 0 <= j < |t.columns| && t.columns[j] != "cpg_id" && t.columns[j] != "beta" ==>
        v.rows[i][j] == t.rows[i][j]
    {
      NormalizedCells(t, toNumber, show, i);
    }
    forall i | 0 <= i < |t.rows|
      ensures Column(v, "beta")[i] == Missing || 0.0 <= Column(v, "beta")[i].r <= 1.0
    {
      assert !OutOfRange(Column(v, "beta")[i]);
    }
  }

  /** Rows exist, but with no beta at all the upload is rejected as empty. */
  lemma AllBetasMissingIsEmpty(t: Table, toNumber: string -> Option<real>, show: real -> string)
    requires !IsEmpty(t) && "cpg_id" in t.columns && "beta" in t.columns
    requires forall i :: 0 <= i < |t.rows| ==> Column(t, "beta")[i] == Missing
    ensures Validated(t, None, toNumber, show) == Failure(ValidationError(EmptyTableMessage))
  {
    NormalizedColumns(t, toNumber, show);
    PresentBetaKeepsRow(CoerceBeta(TrimIds(t, show), toNumber));
  }

  /** With the default config every failure is a ValidationError: the stages
      that could raise KeyError or TypeError are unreachable. */
  lemma DefaultFailuresAreValidationErrors(t: Table, toNumber: string -> Option<real>, show: real -> string)
    requires Validated(t, None, toNumber, show).Failure?
    ensures Validated(t, None, toNumber, show).error.ValidationError?
  {
    if !IsEmpty(t) && "cpg_id" in t.columns && "beta" in t.columns {
      ValidatedPresent(t, toNumber, show);
      CoercedBetasNotText(t, toNumber, show);
    } else {
      ValidatedEarlyFailure(t, toNumber, show);
    }
  }

}
