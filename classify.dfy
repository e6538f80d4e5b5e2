/**
 * Which columns the dashboard treats as categorical, numeric, KPI and value
 * columns.
 */
module Classify {
  import opened Wrappers
  import opened Frame

  /** The headline numeric columns, in display order. */
  const SAFE_NUM_COLS: seq<string> :=
    ["Total_AWBs", "Total_Invoice_Value", "Total_Weight", "Total_Shipments", "Delivered", "In_Transit", "RTO"]

  /** The value columns the summary tries, in priority order. */
  const VALUE_CANDIDATES: seq<string> := ["Total_AWBs", "Total_Invoice_Value"]

  /** A text column with more distinct values than this gets no filter. */
  const MAX_CATEGORIES: nat := 50

  /** At most this many KPI tiles are shown. */
  const MAX_KPI_TILES: nat := 4

  datatype ColumnTest = CategoricalTest | NumericTest

  /** df[c].dtype == "object" and df[c].nunique() <= 50, or is_numeric_dtype(df[c]). */
  predicate Passes(t: Table, test: ColumnTest, j: nat)
    requires Shaped(t) && j < |t.columns|
  {
    match test
    case CategoricalTest => t.dtypes[j] == Object && |DistinctValues(t, j)| <= MAX_CATEGORIES
    case NumericTest => t.dtypes[j] == Numeric
  }

  /** [c for c in df.columns[from:] if test(c)] */
  function ColumnsWhere(t: Table, test: ColumnTest, from: nat): (r: seq<string>)
    requires Shaped(t) && from <= |t.columns|
    ensures IsSubsequence(r, t.columns[from..])
    ensures forall c :: c in r <==> exists j :: from <= j < |t.columns| && t.columns[j] == c && Passes(t, test, j)
    decreases |t.columns| - from
  {
    if from == |t.columns| then []
    else
      var rest := ColumnsWhere(t, test, from + 1);
      assert t.columns[from..][1..] == t.columns[from + 1..];
      if Passes(t, test, from) then
        [t.columns[from]] + rest
      else
        SubsequenceSkip(rest, t.columns[from..]);
        rest
  }

  /** cat_cols: the object columns with at most 50 distinct values, in column order. */
  function CategoricalColumns(t: Table): (r: seq<string>)
    requires Shaped(t)
    ensures IsSubsequence(r, t.columns)
    ensures forall j :: 0 <= j < |t.columns| && Passes(t, CategoricalTest, j) ==> t.columns[j] in r
    ensures forall c :: c in r ==>
              exists j :: 0 <= j < |t.columns| && t.columns[j] == c &&
                t.dtypes[j] == Object && |DistinctValues(t, j)| <= MAX_CATEGORIES
  {
    assert t.columns[0..] == t.columns;
    ColumnsWhere(t, CategoricalTest, 0)
  }

  /** num_cols: the numeric columns, in column order. */
  function NumericColumns(t: Table): (r: seq<string>)
    requires Shaped(t)
    ensures IsSubsequence(r, t.columns)
    ensures forall j :: 0 <= j < |t.columns| ==> (t.columns[j] in r <== t.dtypes[j] == Numeric)
    ensures forall c :: c in r ==> exists j :: 0 <= j < |t.columns| && t.columns[j] == c && t.dtypes[j] == Numeric
  {
    assert t.columns[0..] == t.columns;
    ColumnsWhere(t, NumericTest, 0)
  }

  /** In a well-formed table a numeric column holds numbers and empty cells only. */
  lemma NumericColumnHoldsNumbers(t: Table, c: string)
    requires WellFormed(t) && c in NumericColumns(t)
    ensures c in t.columns
    ensures forall i :: 0 <= i < |t.rows| ==> !t.rows[i][IndexOf(t.columns, c)].Text?
  {
    var j :| 0 <= j < |t.columns| && t.columns[j] == c && t.dtypes[j] == Numeric;
    IndexOfDistinct(t.columns, j);
  }

  /** [c for c in wanted if c in columns] */
  function PresentInOrder(wanted: seq<string>, columns: seq<string>): (r: seq<string>)
    ensures IsSubsequence(r, wanted)
    ensures forall c :: c in r <==> c in wanted && c in columns
  {
    if wanted == [] then []
    else
      var rest := PresentInOrder(wanted[1..], columns);
      if wanted[0] in columns then [wanted[0]] + rest
      else
        SubsequenceSkip(rest, wanted);
        rest
  }

  /** kpi_cols: the members of SAFE_NUM_COLS present in the table, in that list's order. */
  function KpiColumns(columns: seq<string>): seq<string> {
    PresentInOrder(SAFE_NUM_COLS, columns)
  }

  /** kpi_cols[:4], one tile per entry of st.columns(min(4, len(kpi_cols))). */
  function ShownKpis(columns: seq<string>): seq<string> {
    var kpis := KpiColumns(columns);
    kpis[..Min(|kpis|, MAX_KPI_TILES)]
  }


  /**
   * The KPI columns are exactly the members of SAFE_NUM_COLS present in the
   * table, each once and in that list's order; the tiles show the first
   * min(4, len(kpi_cols)) of them.
   */
  lemma KpiSpec(columns: seq<string>)
    ensures IsSubsequence(KpiColumns(columns), SAFE_NUM_COLS) && Distinct(KpiColumns(columns))
    ensures forall c :: c in KpiColumns(columns) <==> c in SAFE_NUM_COLS && c in columns
    ensures |ShownKpis(columns)| == Min(MAX_KPI_TILES, |KpiColumns(columns)|)
    ensures ShownKpis(columns) == KpiColumns(columns)[..|ShownKpis(columns)|]
  {
    SubsequenceDistinct(KpiColumns(columns), SAFE_NUM_COLS);
  }

  /** cand in df.columns and is_numeric_dtype(df[cand]) */
  predicate NumericPresent(t: Table, cand: string)
    requires Shaped(t)
  {
    cand in t.columns && t.dtypes[IndexOf(t.columns, cand)] == Numeric
  }

  /** The first candidate, by exact name, that is a numeric column. */
  function FirstNumericPresent(t: Table, candidates: seq<string>): Option<string>
    requires Shaped(t)
  {
    if candidates == [] then None
    else if NumericPresent(t, candidates[0]) then Some(candidates[0])
    else FirstNumericPresent(t, candidates[1..])
  }

  /**
   * The chosen value column is a numeric column of the table named by a
   * candidate no earlier one of which qualifies; none is chosen exactly when
   * no candidate qualifies.
   */
  lemma {:induction false} FirstNumericPresentSpec(t: Table, candidates: seq<string>)
    requires Shaped(t)
    ensures FirstNumericPresent(t, candidates).None? <==>
              forall i :: 0 <= i < |candidates| ==> !NumericPresent(t, candidates[i])
    ensures FirstNumericPresent(t, candidates).Some? ==>
              exists i :: 0 <= i < |candidates| && candidates[i] == FirstNumericPresent(t, candidates).value &&
                NumericPresent(t, candidates[i]) &&
                forall i' :: 0 <= i' < i ==> !NumericPresent(t, candidates[i'])
    decreases |candidates|
  {
    if candidates != [] && !NumericPresent(t, candidates[0]) {
      FirstNumericPresentSpec(t, candidates[1..]);
      assert forall i :: 0 < i < |candidates| ==> candidates[i] == candidates[1..][i - 1];
      var r := FirstNumericPresent(t, candidates[1..]);
      if r.Some? {
        var i :| 0 <= i < |candidates[1..]| && candidates[1..][i] == r.value &&
                 NumericPresent(t, candidates[1..][i]) &&
                 forall i' :: 0 <= i' < i ==> !NumericPresent(t, candidates[1..][i']);
        assert candidates[i + 1] == r.value;
      }
    }
  }

  /**
   * Total_AWBs when it is a numeric column, else Total_Invoice_Value when that
   * is, else nothing; the names are compared exactly.
   */
  lemma ValueColumnRule(t: Table)
    requires Shaped(t)
    ensures NumericPresent(t, "Total_AWBs") ==> FirstNumericPresent(t, VALUE_CANDIDATES) == Some("Total_AWBs")
    ensures !NumericPresent(t, "Total_AWBs") && NumericPresent(t, "Total_Invoice_Value") ==>
              FirstNumericPresent(t, VALUE_CANDIDATES) == Some("Total_Invoice_Value")
    ensures !NumericPresent(t, "Total_AWBs") && !NumericPresent(t, "Total_Invoice_Value") ==>
              FirstNumericPresent(t, VALUE_CANDIDATES) == None
  {
    var rest := VALUE_CANDIDATES[1..];
    assert rest == ["Total_Invoice_Value"] && rest[1..] == [];
    assert FirstNumericPresent(t, rest[1..]) == None;
  }

  /** The loop over ["Total_AWBs", "Total_Invoice_Value"] with its break. */
  method FindValueColumn(t: Table) returns (valueCol: Option<string>)
    requires Shaped(t)
    ensures valueCol == FirstNumericPresent(t, VALUE_CANDIDATES)
  {
    valueCol := None;
    var candidates := VALUE_CANDIDATES;
    for k := 0 to |candidates|
      invariant valueCol == None
      invariant FirstNumericPresent(t, candidates) == FirstNumericPresent(t, candidates[k..])
    {
      assert candidates[k..][1..] == candidates[k + 1..];
      var cand := candidates[k];
      if cand in t.columns && t.dtypes[IndexOf(t.columns, cand)] == Numeric {
        valueCol := Some(cand);
        break;
      }
    }
  }
}
