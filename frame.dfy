/** The few pandas DataFrame operations the pipeline uses, over a small abstract
    table: an ordered list of column labels and a list of rows, each row holding
    one cell per column. Rows are positional, so a table is always "re-indexed". */
module Frame {

  /** A cell as read_csv leaves it: NaN, a string, or a (finite) number. */
  datatype Cell = Missing | Text(s: string) | Num(r: real)

  datatype Grid = Grid(columns: seq<string>, rows: seq<seq<Cell>>)

  predicate Rectangular(g: Grid) {
    forall i :: 0 <= i < |g.rows| ==> |g.rows[i]| == |g.columns|
  }

  /** A DataFrame: every row has one cell per column. */
  type Table = g: Grid | Rectangular(g) witness Grid([], [])

  /** DataFrame.empty: true when either axis has length zero, that is, when
      the table holds no cell at all. */
  predicate IsEmpty(t: Table): (b: bool)
    ensures b <==> forall i :: 0 <= i < |t.rows| ==> t.rows[i] == []
  {
    assert |t.rows| > 0 ==> |t.rows[0]| == |t.columns|;
    |t.rows| == 0 || |t.columns| == 0
  }

  predicate Distinct(names: seq<string>) {
    forall i, j :: 0 <= i < j < |names| ==> names[i] != names[j]
  }

  /** Position of the first column carrying a label. */
  function IndexOf(names: seq<string>, name: string): (k: nat)
    requires name in names
    ensures k < |names| && names[k] == name
    ensures forall j :: 0 <= j < k ==> names[j] != name
  {
    if names[0] == name then 0 else 1 + IndexOf(names[1..], name)
  }

  lemma IndexOfDistinct(names: seq<string>, k: nat)
    requires Distinct(names) && k < |names|
    ensures IndexOf(names, names[k]) == k
  {
  }

  /** Appending labels does not move a label that is already there. */
  lemma IndexOfAppend(names: seq<string>, more: seq<string>, name: string)
    requires name in names
    ensures IndexOf(names + more, name) == IndexOf(names, name)
  {
    var k := IndexOf(names, name);
    assert (names + more)[k] == name;
  }

  /** df[name], for a label present in the table. */
  function Column(t: Table, name: string): (cells: seq<Cell>)
    requires name in t.columns
    ensures |cells| == |t.rows|
    ensures forall i :: 0 <= i < |t.rows| ==> cells[i] == t.rows[i][IndexOf(t.columns, name)]
  {
    var k := IndexOf(t.columns, name);
    seq(|t.rows|, i requires 0 <= i < |t.rows| => t.rows[i][k])
  }

  /** df[name] = f(df[name]): replace a column by a cell-wise function of itself. */
  function MapColumn(t: Table, name: string, f: Cell -> Cell): (r: Table)
    requires name in t.columns
    ensures r.columns == t.columns && |r.rows| == |t.rows|
    ensures forall i, j :: 0 <= i < |t.rows| && 0 <= j < |t.columns| ==>
      r.rows[i][j] == if j == IndexOf(t.columns, name) then f(t.rows[i][j]) else t.rows[i][j]
  {
    var k := IndexOf(t.columns, name);
    Grid(t.columns, seq(|t.rows|, i requires 0 <= i < |t.rows| => t.rows[i][k := f(t.rows[i][k])]))
  }

  /** df[name] = value: set every row of a column to one value, adding the
      column at the end when the table does not have it. */
  function AssignConstant(t: Table, name: string, value: Cell): (r: Table)
    ensures |r.rows| == |t.rows|
    ensures name in t.columns ==> r.columns == t.columns
    ensures name !in t.columns ==> r.columns == t.columns + [name]
    ensures name !in t.columns ==> forall i :: 0 <= i < |t.rows| ==> r.rows[i][|t.columns|] == value
    ensures name in r.columns && Column(r, name) == seq(|t.rows|, _ => value)
    ensures forall i, j :: 0 <= i < |t.rows| && 0 <= j < |t.columns| && t.columns[j] != name ==>
      r.rows[i][j] == t.rows[i][j]
  {
    if name in t.columns then
      MapColumn(t, name, _ => value)
    else
      var r: Table := Grid(t.columns + [name], seq(|t.rows|, i requires 0 <= i < |t.rows| => t.rows[i] + [value]));
      assert IndexOf(r.columns, name) == |t.columns|;
      r
  }

  /** One row restricted to the listed columns, in the listed order. */
  function SelectRow(columns: seq<string>, row: seq<Cell>, keep: seq<string>): (r: seq<Cell>)
    requires |row| == |columns|
    requires forall n :: n in keep ==> n in columns
    ensures |r| == |keep| && forall j :: 0 <= j < |keep| ==> r[j] == row[IndexOf(columns, keep[j])]
  {
    seq(|keep|, j requires 0 <= j < |keep| => row[IndexOf(columns, keep[j])])
  }

  function SelectRows(columns: seq<string>, rows: seq<seq<Cell>>, keep: seq<string>): (r: seq<seq<Cell>>)
    requires forall i :: 0 <= i < |rows| ==> |rows[i]| == |columns|
    requires forall n :: n in keep ==> n in columns
    ensures |r| == |rows| && forall i :: 0 <= i < |rows| ==> r[i] == SelectRow(columns, rows[i], keep)
  {
    seq(|rows|, i requires 0 <= i < |rows| => SelectRow(columns, rows[i], keep))
  }

  /** df[keep]: the listed columns, in the listed order. */
  function Select(t: Table, keep: seq<string>): (r: Table)
    requires forall n :: n in keep ==> n in t.columns
    ensures r.columns == keep && |r.rows| == |t.rows|
    ensures forall i, j :: 0 <= i < |t.rows| && 0 <= j < |keep| ==>
      r.rows[i][j] == t.rows[i][IndexOf(t.columns, keep[j])]
  {
    Grid(keep, SelectRows(t.columns, t.rows, keep))
  }

  /** A selected column holds the same cells as before the selection. */
  lemma SelectColumn(t: Table, keep: seq<string>, name: string)
    requires forall n :: n in keep ==> n in t.columns
    requires name in keep
    ensures Column(Select(t, keep), name) == Column(t, name)
  {
    var k := IndexOf(keep, name);
    assert keep[k] == name;
  }

  /** Rewriting a kept column commutes with the selection. */
  lemma SelectMapColumn(t: Table, keep: seq<string>, name: string, f: Cell -> Cell)
    requires forall n :: n in keep ==> n in t.columns
    requires Distinct(keep) && name in keep
    ensures Select(MapColumn(t, name, f), keep) == MapColumn(Select(t, keep), name, f)
  {
    var a := Select(MapColumn(t, name, f), keep);
    var b := MapColumn(Select(t, keep), name, f);
    var k := IndexOf(keep, name);
    forall i, j | 0 <= i < |t.rows| && 0 <= j < |keep|
      ensures a.rows[i][j] == b.rows[i][j]
    {
      if j == k {
        assert keep[j] == name;
      } else {
        assert keep[j] != name;
        assert IndexOf(t.columns, keep[j]) != IndexOf(t.columns, name);
      }
    }
    forall i | 0 <= i < |t.rows|
      ensures a.rows[i] == b.rows[i]
    {
    }
  }

  /** Whether a row is complete does not depend on the columns that are not checked. */
  lemma SelectRowComplete(columns: seq<string>, row: seq<Cell>, keep: seq<string>, subset: seq<string>)
    requires |row| == |columns|
    requires forall n :: n in keep ==> n in columns
    requires forall n :: n in subset ==> n in keep
    ensures Complete(keep, SelectRow(columns, row, keep), subset) == Complete(columns, row, subset)
  {
    forall n | n in subset
      ensures SelectRow(columns, row, keep)[IndexOf(keep, n)] == row[IndexOf(columns, n)]
    {
    }
  }

  lemma {:induction false} SelectKeepComplete(columns: seq<string>, rows: seq<seq<Cell>>, keep: seq<string>,
                                              subset: seq<string>)
    requires forall i :: 0 <= i < |rows| ==> |rows[i]| == |columns|
    requires forall n :: n in keep ==> n in columns
    requires forall n :: n in subset ==> n in keep
    ensures KeepComplete(keep, SelectRows(columns, rows, keep), subset) ==
            SelectRows(columns, KeepComplete(columns, rows, subset), keep)
  {
    if rows != [] {
      var head, tail := rows[0], rows[1..];
      assert rows == [head] + tail;
      SelectKeepComplete(columns, tail, keep, subset);
      SelectRowComplete(columns, head, keep, subset);
      var sh := SelectRow(columns, head, keep);
      var st := SelectRows(columns, tail, keep);
      SelectRowsCons(columns, head, tail, keep);
      assert ([sh] + st)[0] == sh && ([sh] + st)[1..] == st;
      var rest := KeepComplete(columns, tail, subset);
      if Complete(columns, head, subset) {
        SelectRowsCons(columns, head, rest, keep);
      }
    }
  }

  /** Selecting from a row and the rows after it. */
  lemma SelectRowsCons(columns: seq<string>, head: seq<Cell>, tail: seq<seq<Cell>>, keep: seq<string>)
    requires |head| == |columns| && forall i :: 0 <= i < |tail| ==> |tail[i]| == |columns|
    requires forall n :: n in keep ==> n in columns
    ensures SelectRows(columns, [head] + tail, keep) == [SelectRow(columns, head, keep)] + SelectRows(columns, tail, keep)
  {
    var rows := [head] + tail;
    assert forall i :: 0 < i < |rows| ==> rows[i] == tail[i - 1];
  }

  /** dropna on the selected columns gives the selection of dropna. */
  lemma SelectDropMissing(t: Table, keep: seq<string>, subset: seq<string>)
    requires forall n :: n in keep ==> n in t.columns
    requires forall n :: n in subset ==> n in keep
    ensures Select(DropMissing(t, subset), keep) == DropMissing(Select(t, keep), subset)
  {
    SelectKeepComplete(t.columns, t.rows, keep, subset);
  }

  /** dropna looks at the subset as a set: order and repetition do not matter. */
  lemma {:induction false} KeepCompleteSameSubset(columns: seq<string>, rows: seq<seq<Cell>>, s1: seq<string>,
                                                  s2: seq<string>)
    requires forall i :: 0 <= i < |rows| ==> |rows[i]| == |columns|
    requires forall n :: n in s1 ==> n in columns
    requires forall n :: n in s1 <==> n in s2
    ensures KeepComplete(columns, rows, s1) == KeepComplete(columns, rows, s2)
  {
    if rows != [] {
      KeepCompleteSameSubset(columns, rows[1..], s1, s2);
      assert Complete(columns, rows[0], s1) == Complete(columns, rows[0], s2);
    }
  }

  /** A row has a value in every listed column. */
  predicate Complete(columns: seq<string>, row: seq<Cell>, subset: seq<string>)
    requires |row| == |columns|
    requires forall n :: n in subset ==> n in columns
  {
    forall n :: n in subset ==> row[IndexOf(columns, n)] != Missing
  }

  function KeepComplete(columns: seq<string>, rows: seq<seq<Cell>>, subset: seq<string>): (r: seq<seq<Cell>>)
    requires forall i :: 0 <= i < |rows| ==> |rows[i]| == |columns|
    requires forall n :: n in subset ==> n in columns
    ensures |r| <= |rows|
    ensures forall i :: 0 <= i < |r| ==> |r[i]| == |columns| && Complete(columns, r[i], subset)
  {
    if rows == [] then []
    else
      var rest := KeepComplete(columns, rows[1..], subset);
      if Complete(columns, rows[0], subset) then [rows[0]] + rest else rest
  }

  /** df.dropna(subset=subset): drop the rows missing a value in a listed column. */
  function DropMissing(t: Table, subset: seq<string>): (r: Table)
    requires forall n :: n in subset ==> n in t.columns
    ensures r.columns == t.columns
    ensures |r.rows| <= |t.rows|
    ensures forall i :: 0 <= i < |r.rows| ==> Complete(t.columns, r.rows[i], subset)
  {
    Grid(t.columns, KeepComplete(t.columns, t.rows, subset))
  }

  /** Every cell dropna keeps comes from the same column before; in a
      checked column it is present. */
  lemma DropMissingColumn(t: Table, subset: seq<string>, name: string)
    requires forall n :: n in subset ==> n in t.columns
    requires name in t.columns
    ensures forall i :: 0 <= i < |DropMissing(t, subset).rows| ==> Column(DropMissing(t, subset), name)[i] in Column(t, name)
    ensures name in subset ==> forall i :: 0 <= i < |DropMissing(t, subset).rows| ==>
      Column(DropMissing(t, subset), name)[i] != Missing
  {
    var d := DropMissing(t, subset);
    var k := IndexOf(t.columns, name);
    KeepCompleteSpec(t.columns, t.rows, subset);
    forall i | 0 <= i < |d.rows|
      ensures Column(d, name)[i] in Column(t, name)
    {
      assert d.rows[i] in KeepComplete(t.columns, t.rows, subset);
      var j :| 0 <= j < |t.rows| && t.rows[j] == d.rows[i];
      assert Column(t, name)[j] == d.rows[i][k];
    }
  }

  /** dropna on one column keeps as many rows as have a value there. */
  lemma DropMissingCount(t: Table, name: string)
    requires name in t.columns
    ensures |DropMissing(t, [name]).rows| == |set i | 0 <= i < |t.rows| && Column(t, name)[i] != Missing|
  {
    KeepCompleteCount(t.columns, t.rows, [name]);
    assert CompleteRows(t.columns, t.rows, [name]) == set i | 0 <= i < |t.rows| && Column(t, name)[i] != Missing;
  }

  /** Listing a column that no row is missing does not change dropna. */
  lemma {:induction false} KeepCompleteRedundant(columns: seq<string>, rows: seq<seq<Cell>>, subset: seq<string>,
                                                 small: seq<string>)
    requires forall i :: 0 <= i < |rows| ==> |rows[i]| == |columns|
    requires forall n :: n in subset ==> n in columns
    requires forall n :: n in small ==> n in subset
    requires forall i, n :: 0 <= i < |rows| && n in subset && n !in small ==> rows[i][IndexOf(columns, n)] != Missing
    ensures KeepComplete(columns, rows, subset) == KeepComplete(columns, rows, small)
  {
    if rows != [] {
      KeepCompleteRedundant(columns, rows[1..], subset, small);
      assert Complete(columns, rows[0], subset) == Complete(columns, rows[0], small);
    }
  }

  /** `xs` is `ys` with some elements removed, order kept. */
  predicate Subsequence<T(==)>(xs: seq<T>, ys: seq<T>) {
    xs == [] || (ys != [] && (if xs[0] == ys[0] then Subsequence(xs[1..], ys[1..]) else Subsequence(xs, ys[1..])))
  }

  /** dropna keeps exactly the complete rows, in their original order, as
      many as there are. */
  lemma {:induction false} KeepCompleteSpec(columns: seq<string>, rows: seq<seq<Cell>>, subset: seq<string>)
    requires forall i :: 0 <= i < |rows| ==> |rows[i]| == |columns|
    requires forall n :: n in subset ==> n in columns
    ensures Subsequence(KeepComplete(columns, rows, subset), rows)
    ensures forall row :: row in rows && Complete(columns, row, subset) ==> row in KeepComplete(columns, rows, subset)
    ensures forall row :: row in KeepComplete(columns, rows, subset) ==> row in rows
    ensures (forall i :: 0 <= i < |rows| ==> Complete(columns, rows[i], subset)) ==> KeepComplete(columns, rows, subset) == rows
    ensures |KeepComplete(columns, rows, subset)| == |CompleteRows(columns, rows, subset)|
  {
    KeepCompleteCount(columns, rows, subset);
    if rows != [] {
      KeepCompleteSpec(columns, rows[1..], subset);
      var rest := KeepComplete(columns, rows[1..], subset);
      if !Complete(columns, rows[0], subset) {
        SubsequenceDropHead(rest, rows);
      }
      forall row | row in rows && Complete(columns, row, subset)
        ensures row in KeepComplete(columns, rows, subset)
      {
        if row != rows[0] {
          assert row in rows[1..];
        }
      }
    }
  }

  /** The positions of the complete rows. */
  function CompleteRows(columns: seq<string>, rows: seq<seq<Cell>>, subset: seq<string>): set<int>
    requires forall i :: 0 <= i < |rows| ==> |rows[i]| == |columns|
    requires forall n :: n in subset ==> n in columns
  {
    set i | 0 <= i < |rows| && Complete(columns, rows[i], subset)
  }

  /** dropna keeps as many rows as there are complete rows, duplicates
      included: with the order kept and every kept row complete, the result is
      the complete rows and nothing else. */
  lemma {:induction false} KeepCompleteCount(columns: seq<string>, rows: seq<seq<Cell>>, subset: seq<string>)
    requires forall i :: 0 <= i < |rows| ==> |rows[i]| == |columns|
    requires forall n :: n in subset ==> n in columns
    ensures |KeepComplete(columns, rows, subset)| == |CompleteRows(columns, rows, subset)|
  {
    if rows == [] {
      assert CompleteRows(columns, rows, subset) == {};
    } else {
      var n := |rows| - 1;
      var init := rows[..n];
      KeepCompleteCount(columns, init, subset);
      KeepCompleteSnoc(columns, rows, subset);
      var last: set<int> := if Complete(columns, rows[n], subset) then {n} else {};
      forall i | 0 <= i < n
        ensures init[i] == rows[i]
      {
      }
      assert CompleteRows(columns, rows, subset) == CompleteRows(columns, init, subset) + last;
      assert CompleteRows(columns, init, subset) * last == {};
    }
  }

  /** dropna on rows with one more at the end keeps that row exactly when it
      is complete. */
  lemma {:induction false} KeepCompleteSnoc(columns: seq<string>, rows: seq<seq<Cell>>, subset: seq<string>)
    requires forall i :: 0 <= i < |rows| ==> |rows[i]| == |columns|
    requires forall n :: n in subset ==> n in columns
    requires rows != []
    ensures var n := |rows| - 1;
      KeepComplete(columns, rows, subset) ==
        KeepComplete(columns, rows[..n], subset) + (if Complete(columns, rows[n], subset) then [rows[n]] else [])
  {
    var n := |rows| - 1;
    if n > 0 {
      var tail := rows[1..];
      KeepCompleteSnoc(columns, tail, subset);
      assert tail[..n - 1] == rows[..n][1..];
      assert tail[n - 1] == rows[n];
      assert rows[..n][0] == rows[0];
    }
  }

  lemma {:induction false} SubsequenceDropHead<T>(xs: seq<T>, ys: seq<T>)
    requires ys != [] && Subsequence(xs, ys[1..])
    ensures Subsequence(xs, ys)
  {
    if xs != [] && xs[0] == ys[0] {
      SubsequenceTail(xs, ys[1..]);
    }
  }

  lemma {:induction false} SubsequenceTail<T>(xs: seq<T>, ys: seq<T>)
    requires xs != [] && Subsequence(xs, ys)
    ensures Subsequence(xs[1..], ys)
  {
    if xs[0] == ys[0] {
      if xs[1..] != [] {
        SubsequenceDropHead(xs[1..], ys);
      }
    } else {
      SubsequenceTail(xs, ys[1..]);
      if xs[1..] != [] {
        SubsequenceDropHead(xs[1..], ys);
      }
    }
  }
}
