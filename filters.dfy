/**
 * The sidebar filters: for each categorical column in turn, keep the rows
 * whose value, as a string, the user selected.  Each step sees the rows the
 * previous steps kept.
 */
module Filters {
  import opened Frame
  import opened Classify

  /** The rows whose cell in column j, as a string, is one of the selected values. */
  function KeepMatching(rows: seq<seq<Cell>>, j: nat, selected: seq<string>): (r: seq<seq<Cell>>)
    requires forall i :: 0 <= i < |rows| ==> j < |rows[i]|
    ensures IsSubsequence(r, rows)
    ensures forall i :: 0 <= i < |r| ==> j < |r[i]| && CellStr(r[i][j]) in selected
    ensures forall i :: 0 <= i < |rows| && CellStr(rows[i][j]) in selected ==> rows[i] in r
  {
    if rows == [] then []
    else
      var rest := KeepMatching(rows[1..], j, selected);
      assert forall i :: 0 < i < |rows| ==> rows[i] == rows[1..][i - 1];
      if CellStr(rows[0][j]) in selected then
        [rows[0]] + rest
      else
        SubsequenceSkip(rest, rows);
        rest
  }

  /**
   * Every row is kept as many times as it occurs when its value was
   * selected, and not at all otherwise: identical rows are all kept.
   */
  lemma {:induction false} KeepMatchingCounts(rows: seq<seq<Cell>>, j: nat, selected: seq<string>)
    requires forall i :: 0 <= i < |rows| ==> j < |rows[i]|
    ensures forall row :: multiset(KeepMatching(rows, j, selected))[row] ==
              if j < |row| && CellStr(row[j]) in selected then multiset(rows)[row] else 0
  {
    if rows != [] {
      var tail := rows[1..];
      KeepMatchingCounts(tail, j, selected);
      assert rows == [rows[0]] + tail;
      assert multiset(rows) == multiset{rows[0]} + multiset(tail);
      var rest := KeepMatching(tail, j, selected);
      if CellStr(rows[0][j]) in selected {
        assert KeepMatching(rows, j, selected) == [rows[0]] + rest;
        assert multiset(KeepMatching(rows, j, selected)) == multiset{rows[0]} + multiset(rest);
      } else {
        assert KeepMatching(rows, j, selected) == rest;
      }
    }
  }

  /** df[df[col].astype(str).isin(selected)], with col at position j. */
  function KeepRows(t: Table, j: nat, selected: seq<string>): (r: Table)
    requires Shaped(t) && j < |t.columns|
    ensures Shaped(r) && r.columns == t.columns && r.dtypes == t.dtypes
    ensures forall row :: row in r.rows ==> row in t.rows
  {
    var rows := KeepMatching(t.rows, j, selected);
    SubsequenceElements(rows, t.rows);
    assert forall i :: 0 <= i < |rows| ==> |rows[i]| == |t.columns| by {
      forall i | 0 <= i < |rows| ensures |rows[i]| == |t.columns| {
        assert rows[i] in t.rows;
        var i' :| 0 <= i' < |t.rows| && t.rows[i'] == rows[i];
      }
    }
    t.(rows := rows)
  }

  /**
   * Filtering never brings in a value: the distinct values of any column
   * after the filter are among those before it.
   */
  lemma KeepRowsDistinctValues(t: Table, j: nat, selected: seq<string>, k: nat)
    requires Shaped(t) && j < |t.columns| && k < |t.columns|
    ensures DistinctValues(KeepRows(t, j, selected), k) <= DistinctValues(t, k)
    ensures |DistinctValues(KeepRows(t, j, selected), k)| <= |DistinctValues(t, k)|
  {
    var r := KeepRows(t, j, selected);
    var after := DistinctValues(r, k);
    var before := DistinctValues(t, k);
    forall c | c in after ensures c in before {
      var i :| 0 <= i < |r.rows| && r.rows[i][k] == c;
      assert r.rows[i] in t.rows;
      var i' :| 0 <= i' < |t.rows| && t.rows[i'] == r.rows[i];
      assert c != Missing && t.rows[i'][k] == c;
    }
    SubsetCardinality(after, before);
  }

  lemma SubsetCardinality<T>(a: set<T>, b: set<T>)
    requires a <= b
    ensures |a| <= |b|
  {
    assert b == a + (b - a);
  }

  /**
   * `if selected and len(selected) != len(unique_vals)`: the filter runs
   * unless nothing is selected or as many values are selected as the column
   * still has distinct values.
   */
  predicate Applies(t: Table, col: string, selected: seq<string>)
    requires Shaped(t) && col in t.columns
  {
    |selected| > 0 && |selected| != |DistinctValues(t, IndexOf(t.columns, col))|
  }

  /** Keeping rows keeps the columns, the dtypes and well-formedness. */
  lemma KeepRowsWellFormed(t: Table, j: nat, selected: seq<string>)
    requires WellFormed(t) && j < |t.columns|
    ensures WellFormed(KeepRows(t, j, selected))
  {
    var r := KeepRows(t, j, selected);
    SubsequenceElements(r.rows, t.rows);
    forall i | 0 <= i < |r.rows| ensures exists i' :: 0 <= i' < |t.rows| && t.rows[i'] == r.rows[i] {
      assert r.rows[i] in t.rows;
    }
  }

  /** One iteration of the filter loop. */
  function FilterStep(t: Table, col: string, selected: seq<string>): (r: Table)
    requires WellFormed(t) && col in t.columns
    ensures WellFormed(r) && r.columns == t.columns && r.dtypes == t.dtypes
    ensures IsSubsequence(r.rows, t.rows)
    ensures !Applies(t, col, selected) ==> r == t
    ensures Applies(t, col, selected) ==>
              && (forall i :: 0 <= i < |r.rows| ==> CellStr(r.rows[i][IndexOf(t.columns, col)]) in selected)
              && (forall i :: 0 <= i < |t.rows| && CellStr(t.rows[i][IndexOf(t.columns, col)]) in selected ==>
                    t.rows[i] in r.rows)
  {
    if Applies(t, col, selected) then
      KeepRowsWellFormed(t, IndexOf(t.columns, col), selected);
      KeepRows(t, IndexOf(t.columns, col), selected)
    else
      SubsequenceRefl(t.rows);
      t
  }

  /**
   * A step that runs keeps each row with a selected value as many times as
   * it occurred, and no other row.
   */
  lemma FilterStepCounts(t: Table, col: string, selected: seq<string>)
    requires WellFormed(t) && col in t.columns && Applies(t, col, selected)
    ensures forall row :: multiset(FilterStep(t, col, selected).rows)[row] ==
              if IndexOf(t.columns, col) < |row| && CellStr(row[IndexOf(t.columns, col)]) in selected
              then multiset(t.rows)[row] else 0
  {
    KeepMatchingCounts(t.rows, IndexOf(t.columns, col), selected);
  }

  /** The whole filter loop: one step per column, with that column's selection. */
  function FilterAll(t: Table, cols: seq<string>, selections: seq<seq<string>>): (r: Table)
    requires WellFormed(t) && |selections| == |cols|
    requires forall c :: c in cols ==> c in t.columns
    ensures WellFormed(r) && r.columns == t.columns && r.dtypes == t.dtypes
    ensures IsSubsequence(r.rows, t.rows)
    decreases |cols|
  {
    if cols == [] then
      SubsequenceRefl(t.rows);
      t
    else
      var step := FilterStep(t, cols[0], selections[0]);
      var r := FilterAll(step, cols[1..], selections[1..]);
      SubsequenceTransitive(r.rows, step.rows, t.rows);
      r
  }

  /** The table the k-th step of the loop starts from. */
  function Stage(t: Table, cols: seq<string>, selections: seq<seq<string>>, k: nat): Table
    requires WellFormed(t) && |selections| == |cols| && k <= |cols|
    requires forall c :: c in cols ==> c in t.columns
  {
    FilterAll(t, cols[..k], selections[..k])
  }

  /**
   * Filtering never adds rows: the result is an order-preserving subsequence
   * of the input, with the same columns and dtypes.
   */
  lemma FilterAllSubsequence(t: Table, cols: seq<string>, selections: seq<seq<string>>)
    requires WellFormed(t) && |selections| == |cols|
    requires forall c :: c in cols ==> c in t.columns
    ensures |FilterAll(t, cols, selections).rows| <= |t.rows|
    ensures forall row :: row in FilterAll(t, cols, selections).rows ==> row in t.rows
    ensures FilterAll(t, cols, selections).columns == t.columns
  {
    SubsequenceElements(FilterAll(t, cols, selections).rows, t.rows);
  }

  /**
   * Every step that ran leaves its mark on the result: each remaining row's
   * value in that step's column, as a string, was selected there.
   */
  lemma {:induction false} FilterAllKeepsSelected(t: Table, cols: seq<string>, selections: seq<seq<string>>, k: nat)
    requires WellFormed(t) && |selections| == |cols| && k < |cols|
    requires forall c :: c in cols ==> c in t.columns
    requires Applies(Stage(t, cols, selections, k), cols[k], selections[k])
    ensures forall i :: 0 <= i < |FilterAll(t, cols, selections).rows| ==>
              CellStr(FilterAll(t, cols, selections).rows[i][IndexOf(t.columns, cols[k])]) in selections[k]
    decreases |cols|
  {
    var step := FilterStep(t, cols[0], selections[0]);
    var r := FilterAll(t, cols, selections);
    assert r == FilterAll(step, cols[1..], selections[1..]);
    if k == 0 {
      assert Stage(t, cols, selections, 0) == t;
      SubsequenceElements(r.rows, step.rows);
      var j := IndexOf(t.columns, cols[0]);
      forall i | 0 <= i < |r.rows| ensures CellStr(r.rows[i][j]) in selections[0] {
        assert r.rows[i] in step.rows;
        var i' :| 0 <= i' < |step.rows| && step.rows[i'] == r.rows[i];
      }
    } else {
      assert cols[..k][0] == cols[0] && selections[..k][0] == selections[0];
      assert cols[..k][1..] == cols[1..][..k - 1];
      assert selections[..k][1..] == selections[1..][..k - 1];
      assert Stage(t, cols, selections, k) == Stage(step, cols[1..], selections[1..], k - 1);
      assert cols[1..][k - 1] == cols[k];
      FilterAllKeepsSelected(step, cols[1..], selections[1..], k - 1);
    }
  }

  /** With nothing selected anywhere, no row is dropped. */
  lemma {:induction false} FilterAllNoSelection(t: Table, cols: seq<string>, selections: seq<seq<string>>)
    requires WellFormed(t) && |selections| == |cols|
    requires forall c :: c in cols ==> c in t.columns
    requires forall k :: 0 <= k < |selections| ==> selections[k] == []
    ensures FilterAll(t, cols, selections) == t
    decreases |cols|
  {
    if cols != [] {
      assert FilterStep(t, cols[0], selections[0]) == t;
      FilterAllNoSelection(t, cols[1..], selections[1..]);
    }
  }

  /**
   * The filter block: cat_cols comes from the table as loaded, and each
   * column's distinct values are counted on the rows kept so far.
   */
  method ApplyFilters(t: Table, selections: seq<seq<string>>) returns (df: Table)
    requires WellFormed(t)
    requires |selections| == |CategoricalColumns(t)|
    ensures df == FilterAll(t, CategoricalColumns(t), selections)
  {
    var catCols := CategoricalColumns(t);
    SubsequenceElements(catCols, t.columns);
    df := t;
    for k := 0 to |catCols|
      invariant WellFormed(df) && df.columns == t.columns && df.dtypes == t.dtypes
      invariant FilterAll(df, catCols[k..], selections[k..]) == FilterAll(t, catCols, selections)
    {
      assert catCols[k..][1..] == catCols[k + 1..] && selections[k..][1..] == selections[k + 1..];
      var col := catCols[k];
      var selected := selections[k];
      var uniqueVals := DistinctValues(df, IndexOf(df.columns, col));
      if |selected| > 0 && |selected| != |uniqueVals| {
        KeepRowsWellFormed(df, IndexOf(df.columns, col), selected);
        df := KeepRows(df, IndexOf(df.columns, col), selected);
      }
    }
  }
}
