/** qc_summary of core/analyze.py: aggregate quality metrics over the beta
    and cpg_id columns of a normalised table. A metric that pandas reports as
    NaN (the mean of no rows, the minimum of no betas) is None here. */
module Analyze {
  import opened Wrappers
  import opened Frame
  import opened Errors
  import opened Validate

  datatype Summary = Summary(
    rowCount: nat,
    uniqueCpg: nat,
    missingBetaPct: Option<real>,
    outOfRangeBetaCount: nat,
    betaMin: Option<real>,
    betaMedian: Option<real>,
    betaMax: Option<real>)

  // ---------------------------------------------------------------------
  // The statistics pandas skips missing values for

  /** The non-missing betas, in row order. */
  function Present(cells: seq<Cell>): (r: seq<real>)
    ensures |r| <= |cells|
    ensures forall x :: x in r <==> Num(x) in cells
    ensures r == [] <==> forall i :: 0 <= i < |cells| ==> !cells[i].Num?
  {
    if cells == [] then []
    else (if cells[0].Num? then [cells[0].r] else []) + Present(cells[1..])
  }

  function Min(s: seq<real>): (m: real)
    requires |s| > 0
    ensures m in s && forall x :: x in s ==> m <= x
  {
    if |s| == 1 then s[0]
    else
      var rest := Min(s[1..]);
      assert s == [s[0]] + s[1..];
      if s[0] <= rest then s[0] else rest
  }

  function Max(s: seq<real>): (m: real)
    requires |s| > 0
    ensures m in s && forall x :: x in s ==> x <= m
  {
    if |s| == 1 then s[0]
    else
      var rest := Max(s[1..]);
      assert s == [s[0]] + s[1..];
      if s[0] >= rest then s[0] else rest
  }

  predicate Sorted(s: seq<real>) {
    forall i, j :: 0 <= i <= j < |s| ==> s[i] <= s[j]
  }

  function Insert(x: real, s: seq<real>): (r: seq<real>)
    requires Sorted(s)
    ensures Sorted(r) && multiset(r) == multiset(s) + multiset{x}
  {
    if s == [] then [x]
    else if x <= s[0] then
      SortedCons(x, s);
      [x] + s
    else
      var rest := Insert(x, s[1..]);
      assert s == [s[0]] + s[1..];
      InsertBounded(x, s, rest);
      SortedCons(s[0], rest);
      [s[0]] + rest
  }

  /** A value at or below every element of a sorted sequence can head it. */
  lemma SortedCons(h: real, s: seq<real>)
    requires Sorted(s) && forall k :: 0 <= k < |s| ==> h <= s[k]
    ensures Sorted([h] + s)
  {
  }

  /** Every element of the sorted tail, and x, lies at or above s[0]. */
  lemma InsertBounded(x: real, s: seq<real>, rest: seq<real>)
    requires Sorted(s) && s != [] && s[0] < x
    requires multiset(rest) == multiset(s[1..]) + multiset{x}
    ensures forall k :: 0 <= k < |rest| ==> s[0] <= rest[k]
  {
    forall k | 0 <= k < |rest|
      ensures s[0] <= rest[k]
    {
      assert rest[k] in multiset(rest);
      if rest[k] != x {
        assert rest[k] in s[1..];
      }
    }
  }

  /** The betas in ascending order: a sorted permutation. */
  function Sort(s: seq<real>): (r: seq<real>)
    ensures Sorted(r) && multiset(r) == multiset(s)
  {
    if s == [] then []
    else
      assert s == [s[0]] + s[1..];
      Insert(s[0], Sort(s[1..]))
  }

  /** Series.median: the middle value, or the mean of the two middle values
      when the count is even; either way it is made of the values given. */
  function Median(s: seq<real>): (m: real)
    requires |s| > 0
    ensures |s| % 2 == 1 ==> m in s
    ensures |s| % 2 == 0 ==> exists i, j :: 0 <= i < |s| && 0 <= j < |s| && m == (s[i] + s[j]) / 2.0
  {
    var t := Sort(s);
    var n := |t|;
    assert multiset(t) == multiset(s);
    assert |t| == |multiset(t)|;
    if n % 2 == 1 then
      assert t[n / 2] in multiset(s);
      t[n / 2]
    else
      assert t[n / 2 - 1] in multiset(s) && t[n / 2] in multiset(s);
      (t[n / 2 - 1] + t[n / 2]) / 2.0
  }

  // ---------------------------------------------------------------------
  // qc_summary

  predicate IsMissing(c: Cell) {
    c.Missing?
  }

  /** beta.isna().sum(): how many betas are missing. */
  function MissingCount(cells: seq<Cell>): nat {
    CountWhere(cells, IsMissing)
  }

  /** beta.isna().mean() * 100 on a column with at least one cell. */
  function MissingPercent(cells: seq<Cell>): real
    requires |cells| > 0
  {
    (MissingCount(cells) as real) / (|cells| as real) * 100.0
  }

  /** Series.nunique: the distinct non-missing values. */
  function DistinctValues(cells: seq<Cell>): set<Cell> {
    set c | c in cells && !c.Missing?
  }

  /** qc_summary. df["beta"] and df["cpg_id"] raise KeyError when absent,
      in that order; comparing a text beta with 0 raises TypeError. */
  function QcSummary(t: Table): (r: Result<Summary, Exception>)
    ensures "beta" !in t.columns ==> r == Failure(KeyError("beta"))
    ensures "beta" in t.columns && "cpg_id" !in t.columns ==> r == Failure(KeyError("cpg_id"))
    ensures r.Success? ==> r.value.rowCount == |t.rows|
  {
    if "beta" !in t.columns then Failure(KeyError("beta"))
    else if "cpg_id" !in t.columns then Failure(KeyError("cpg_id"))
    else
      var beta := Column(t, "beta");
      if exists i :: 0 <= i < |beta| && beta[i].Text? then Failure(TypeError)
      else Success(Metrics(t))
  }

  /** The seven metrics of a table holding both columns, once the betas are numeric. */
  function Metrics(t: Table): (s: Summary)
    requires "beta" in t.columns && "cpg_id" in t.columns
    ensures s.rowCount == |t.rows|
    ensures s.uniqueCpg <= s.rowCount && s.outOfRangeBetaCount <= s.rowCount
  {
    DistinctValuesBounded(Column(t, "cpg_id"));
    var beta := Column(t, "beta");
    var n := |t.rows|;
    var present := Present(beta);
    Summary(
      n,
      |DistinctValues(Column(t, "cpg_id"))|,
      if n == 0 then None else Some(MissingPercent(beta)),
      OutOfRangeCount(beta),
      if present == [] then None else Some(Min(present)),
      if present == [] then None else Some(Median(present)),
      if present == [] then None else Some(Max(present)))
  }

  // ---------------------------------------------------------------------
  // What the metrics satisfy

  /** The summary exists exactly when both columns do and no beta is text. */
  lemma SummarySucceeds(t: Table)
    ensures QcSummary(t).Success? <==>
      "beta" in t.columns && "cpg_id" in t.columns &&
      forall i :: 0 <= i < |t.rows| ==> !Column(t, "beta")[i].Text?
    ensures ("beta" in t.columns && "cpg_id" in t.columns &&
             exists i :: 0 <= i < |t.rows| && Column(t, "beta")[i].Text?) ==> QcSummary(t) == Failure(TypeError)
  {
  }

  lemma {:induction false} DistinctValuesBounded(cells: seq<Cell>)
    ensures |DistinctValues(cells)| <= |cells|
  {
    if cells != [] {
      DistinctValuesBounded(cells[1..]);
      var rest := DistinctValues(cells[1..]);
      if cells[0].Missing? {
        assert DistinctValues(cells) == rest;
      } else {
        assert DistinctValues(cells) == rest + {cells[0]};
      }
    }
  }

  /** unique_cpg never exceeds row_count. */
  lemma UniqueBounded(t: Table)
    requires QcSummary(t).Success?
    ensures QcSummary(t).value.uniqueCpg <= QcSummary(t).value.rowCount
  {
    DistinctValuesBounded(Column(t, "cpg_id"));
  }

  /** A share of a positive total, as a percentage. */
  lemma Percentage(k: real, n: real)
    requires 0.0 <= k <= n && n > 0.0
    ensures 0.0 <= k / n * 100.0 <= 100.0
    ensures k / n * 100.0 == 0.0 <==> k == 0.0
  {
    assert k / n * n == k;
    assert k / n <= n / n;
  }

  /** missing_beta_pct lies in [0, 100] on a non-empty table, is 0 exactly
      when no beta is missing, and is NaN on a table without rows. */
  lemma MissingPercentBounds(t: Table)
    requires QcSummary(t).Success?
    ensures var s := QcSummary(t).value;
      && (|t.rows| == 0 <==> s.missingBetaPct.None?)
      && (s.missingBetaPct.Some? ==> 0.0 <= s.missingBetaPct.value <= 100.0)
      && (s.missingBetaPct.Some? ==>
            (s.missingBetaPct.value == 0.0 <==> forall i :: 0 <= i < |t.rows| ==> !Column(t, "beta")[i].Missing?))
  {
    var beta := Column(t, "beta");
    CountWhereZero(beta, IsMissing);
    if |t.rows| > 0 {
      Percentage(MissingCount(beta) as real, |t.rows| as real);
    }
  }

  /** out_of_range_beta_count never exceeds row_count and is 0 exactly when
      every present beta lies in [0, 1]. */
  lemma OutOfRangeBounded(t: Table)
    requires QcSummary(t).Success?
    ensures var s := QcSummary(t).value;
      && s.outOfRangeBetaCount <= s.rowCount
      && (s.outOfRangeBetaCount == 0 <==>
            forall i :: 0 <= i < |t.rows| ==> Column(t, "beta")[i].Num? ==> 0.0 <= Column(t, "beta")[i].r <= 1.0)
  {
    CountWhereZero(Column(t, "beta"), OutOfRange);
  }

  /** Every element of the sorted betas is a present beta. */
  lemma SortedFromPresent(s: seq<real>, i: int)
    requires 0 <= i < |Sort(s)|
    ensures Sort(s)[i] in s
  {
    assert Sort(s)[i] in multiset(Sort(s));
  }

  /** The median lies between the minimum and the maximum. */
  lemma MedianBetween(s: seq<real>)
    requires |s| > 0
    ensures Min(s) <= Median(s) <= Max(s)
  {
    var t := Sort(s);
    assert |t| == |multiset(t)| == |multiset(s)| == |s|;
    var n := |t|;
    SortedFromPresent(s, n / 2);
    if n % 2 == 0 {
      SortedFromPresent(s, n / 2 - 1);
    }
  }

  /** beta_min, beta_median and beta_max are ordered and are the extremes of
      the present betas; all three are NaN when every beta is missing. */
  lemma BetaStatsOrdered(t: Table)
    requires QcSummary(t).Success?
    ensures var s := QcSummary(t).value;
      var beta := Column(t, "beta");
      && ((forall i :: 0 <= i < |t.rows| ==> beta[i].Missing?) <==> s.betaMin.None?)
      && (s.betaMin.None? <==> s.betaMedian.None?)
      && (s.betaMin.None? <==> s.betaMax.None?)
      && (s.betaMin.Some? ==> s.betaMin.value <= s.betaMedian.value <= s.betaMax.value)
      && (s.betaMin.Some? ==> Num(s.betaMin.value) in beta && Num(s.betaMax.value) in beta)
      && (s.betaMin.Some? ==> forall i :: 0 <= i < |t.rows| && beta[i].Num? ==>
            s.betaMin.value <= beta[i].r <= s.betaMax.value)
  {
    var beta := Column(t, "beta");
    var present := Present(beta);
    if present != [] {
      MedianBetween(present);
      forall i | 0 <= i < |t.rows| && beta[i].Num?
        ensures beta[i].r in present
      {
        assert Num(beta[i].r) in beta;
      }
    }
    if present != [] {
      var x :| x in present;
      assert Num(x) in beta;
    }
  }

  /** unique_cpg and beta_min of a summary, read off the columns. */
  lemma SummaryFields(t: Table)
    requires "beta" in t.columns && "cpg_id" in t.columns
    requires forall i :: 0 <= i < |Column(t, "beta")| ==> !Column(t, "beta")[i].Text?
    ensures QcSummary(t).Success?
    ensures QcSummary(t).value.uniqueCpg == |DistinctValues(Column(t, "cpg_id"))|
    ensures Present(Column(t, "beta")) != [] ==> QcSummary(t).value.betaMin == Some(Min(Present(Column(t, "beta"))))
  {
  }

  /** cg1, cg2, cg2 has two distinct identifiers. */
  lemma SmokeIds()
    ensures |DistinctValues([Text("cg1"), Text("cg2"), Text("cg2")])| == 2
  {
    assert DistinctValues([Text("cg1"), Text("cg2"), Text("cg2")]) == {Text("cg1"), Text("cg2")};
  }

  /** The smallest of 0.1, 0.5, 0.9 is 0.1. */
  lemma SmokeBetas()
    ensures Present([Num(0.1), Num(0.5), Num(0.9)]) == [0.1, 0.5, 0.9]
    ensures Min([0.1, 0.5, 0.9]) == 0.1
  {
    var cells := [Num(0.1), Num(0.5), Num(0.9)];
    assert cells[1..] == [Num(0.5), Num(0.9)];
    assert cells[1..][1..] == [Num(0.9)];
    assert cells[1..][1..][1..] == [];
    var s := [0.1, 0.5, 0.9];
    assert s[1..] == [0.5, 0.9];
    assert s[1..][1..] == [0.9];
  }

  /** The smoke table: cg1, cg2, cg2 with betas 0.1, 0.5, 0.9. */
  const SmokeTable: Table :=
    Grid(["cpg_id", "beta"], [[Text("cg1"), Num(0.1)], [Text("cg2"), Num(0.5)], [Text("cg2"), Num(0.9)]])

  lemma SmokeColumns()
    ensures Column(SmokeTable, "cpg_id") == [Text("cg1"), Text("cg2"), Text("cg2")]
    ensures Column(SmokeTable, "beta") == [Num(0.1), Num(0.5), Num(0.9)]
  {
    assert IndexOf(SmokeTable.columns, "cpg_id") == 0;
    assert IndexOf(SmokeTable.columns, "beta") == 1;
  }

  /** Three rows, two distinct identifiers, smallest beta 0.1. */
  lemma SmokeSummary()
    ensures QcSummary(SmokeTable).Success?
    ensures QcSummary(SmokeTable).value.rowCount == 3
    ensures QcSummary(SmokeTable).value.uniqueCpg == 2
    ensures QcSummary(SmokeTable).value.betaMin == Some(0.1)
  {
    SmokeColumns();
    SmokeIds();
    SmokeBetas();
    var beta := Column(SmokeTable, "beta");
    assert forall i :: 0 <= i < |beta| ==> !beta[i].Text?;
    SummaryFields(SmokeTable);
  }

  /** The canonical columns of the loaded two-row upload cg1/0.10/chr1,
      cg2/0.80/chr2. */
  const PairTable: Table :=
    Grid(["cpg_id", "beta", "chrom"], [[Text("cg1"), Num(0.10), Text("chr1")], [Text("cg2"), Num(0.80), Text("chr2")]])

  /** Two betas in ascending order sort to themselves; their median is their mean. */
  lemma MedianOfPair(a: real, b: real)
    requires a <= b
    ensures Sort([a, b]) == [a, b]
    ensures Median([a, b]) == (a + b) / 2.0
  {
    assert [a, b][1..] == [b];
    assert [b][1..] == [];
  }

  lemma PairColumns()
    ensures Column(PairTable, "cpg_id") == [Text("cg1"), Text("cg2")]
    ensures Column(PairTable, "beta") == [Num(0.10), Num(0.80)]
  {
    assert IndexOf(PairTable.columns, "cpg_id") == 0;
    assert IndexOf(PairTable.columns, "beta") == 1;
  }

  lemma PairBetas()
    ensures Present([Num(0.10), Num(0.80)]) == [0.10, 0.80]
    ensures Min([0.10, 0.80]) == 0.10 && Max([0.10, 0.80]) == 0.80
    ensures Median([0.10, 0.80]) == 0.45
    ensures MissingCount([Num(0.10), Num(0.80)]) == 0
    ensures OutOfRangeCount([Num(0.10), Num(0.80)]) == 0
  {
    var beta := [Num(0.10), Num(0.80)];
    assert beta[1..] == [Num(0.80)] && beta[1..][1..] == [];
    var p := [0.10, 0.80];
    assert p[1..] == [0.80];
    MedianOfPair(0.10, 0.80);
    CountWhereZero(beta, IsMissing);
    CountWhereZero(beta, OutOfRange);
  }

  lemma PairIds()
    ensures |DistinctValues([Text("cg1"), Text("cg2")])| == 2
  {
    assert DistinctValues([Text("cg1"), Text("cg2")]) == {Text("cg1"), Text("cg2")};
  }

  /** The summary of the two-row table: 2 rows, 2 identifiers, no missing and
      no out-of-range beta, minimum 0.10, median 0.45, maximum 0.80. */
  lemma PairSummary()
    ensures QcSummary(PairTable) == Success(Summary(2, 2, Some(0.0), 0, Some(0.10), Some(0.45), Some(0.80)))
  {
    PairColumns();
    var beta := Column(PairTable, "beta");
    assert !beta[0].Text? && !beta[1].Text?;
    SummarySucceeds(PairTable);
    PairMetrics();
  }

  lemma PairMetrics()
    ensures Metrics(PairTable) == Summary(2, 2, Some(0.0), 0, Some(0.10), Some(0.45), Some(0.80))
  {
    PairColumns();
    PairBetas();
    PairIds();
    MetricsFields(PairTable, [0.10, 0.80]);
    NoneMissing([Num(0.10), Num(0.80)]);
  }

  lemma NoneMissing(cells: seq<Cell>)
    requires |cells| > 0 && MissingCount(cells) == 0
    ensures MissingPercent(cells) == 0.0
  {
  }

  /** The metrics of a table with rows and at least one present beta. */
  lemma MetricsFields(t: Table, present: seq<real>)
    requires "beta" in t.columns && "cpg_id" in t.columns
    requires |t.rows| > 0 && Present(Column(t, "beta")) == present && present != []
    ensures Metrics(t) == Summary(
      |t.rows|,
      |DistinctValues(Column(t, "cpg_id"))|,
      Some(MissingPercent(Column(t, "beta"))),
      OutOfRangeCount(Column(t, "beta")),
      Some(Min(present)), Some(Median(present)), Some(Max(present)))
  {
  }
}

/** The quality summary of a table either loader accepts: nothing missing,
    nothing out of range, and the beta statistics inside [0, 1]. */
module AnalyzeLoaded {
  import opened Wrappers
  import opened Frame
  import opened Errors
  import opened Io
  import Ingest
  import IngestProperties
  import PackageIngest
  import Variants
  import opened Analyze

  /** A summary with no missing beta, no beta outside [0, 1], and
      0 <= beta_min <= beta_median <= beta_max <= 1. */
  predicate CleanSummary(r: Result<Summary, Exception>) {
    && r.Success?
    && r.value.missingBetaPct == Some(0.0)
    && r.value.outOfRangeBetaCount == 0
    && r.value.betaMin.Some? && r.value.betaMedian.Some? && r.value.betaMax.Some?
    && 0.0 <= r.value.betaMin.value <= r.value.betaMedian.value <= r.value.betaMax.value <= 1.0
  }

  /** Any table with rows, both columns, and every beta a number in [0, 1]
      summarises cleanly, over all of its rows. */
  lemma LoadedTableSummary(t: Table)
    requires "cpg_id" in t.columns && "beta" in t.columns && |t.rows| > 0
    requires forall i :: 0 <= i < |t.rows| ==> Column(t, "beta")[i].Num? && 0.0 <= Column(t, "beta")[i].r <= 1.0
    ensures CleanSummary(QcSummary(t))
    ensures QcSummary(t).value.rowCount == |t.rows|
  {
    var beta := Column(t, "beta");
    SummarySucceeds(t);
    MissingPercentBounds(t);
    OutOfRangeBounded(t);
    BetaStatsOrdered(t);
    assert !beta[0].Missing?;
    var s := QcSummary(t).value;
    var lo :| 0 <= lo < |beta| && beta[lo] == Num(s.betaMin.value);
    var hi :| 0 <= hi < |beta| && beta[hi] == Num(s.betaMax.value);
  }

  /** The summary of what core/ingest.py's loader returns is clean. */
  lemma CoreLoadedSummary(parse: (seq<byte>, Sep) -> ParseOutcome, toNumber: string -> Option<real>,
                          show: real -> string, now: string, uploadedFile: Option<Ingest.Upload>,
                          sourceName: Option<string>)
    requires uploadedFile.Some? ==> Ingest.ReadsWithoutClash(parse, uploadedFile.value, sourceName)
    requires Ingest.Load(parse, toNumber, show, now, uploadedFile, sourceName).Success?
    ensures CleanSummary(QcSummary(Ingest.Load(parse, toNumber, show, now, uploadedFile, sourceName).value))
  {
    IngestProperties.LoadSucceedsOnlyFromParsed(parse, toNumber, show, now, uploadedFile, sourceName);
    var file := uploadedFile.value;
    var parsed := ReadTableBytes(parse, file.content, Ingest.SourceName(sourceName, file)).table;
    IngestProperties.LoadedCells(parsed, toNumber, show, now);
    LoadedTableSummary(Ingest.LoadParsed(parsed, toNumber, show, now).value);
  }

  /** The same holds of the src loader, which accepts the same uploads and
      returns the same table. */
  lemma PackageLoadedSummary(parse: (seq<byte>, Sep) -> ParseOutcome, toNumber: string -> Option<real>,
                             show: real -> string, now: string, uploadedFile: Option<Ingest.Upload>,
                             sourceName: Option<string>)
    requires uploadedFile.Some? ==> Ingest.ReadsWithoutClash(parse, uploadedFile.value, sourceName)
    requires PackageIngest.Load(parse, toNumber, show, now, uploadedFile, sourceName).Success?
    ensures CleanSummary(QcSummary(PackageIngest.Load(parse, toNumber, show, now, uploadedFile, sourceName).value))
  {
    Variants.LoadersAgree(parse, toNumber, show, now, uploadedFile, sourceName);
    CoreLoadedSummary(parse, toNumber, show, now, uploadedFile, sourceName);
  }
}
