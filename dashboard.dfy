/**
 * The two tabs that aggregate: the summary, which detects its group and
 * value columns and shows the top 25 groups, and the breakdown, where the
 * user picks both columns and sees every group.
 */
module Dashboard {
  import opened Wrappers
  import opened Strings
  import opened Frame
  import opened Lookup
  import opened Classify
  import opened Grouping

  /** The group columns the summary tries, in priority order. */
  const GROUP_COL_CANDIDATES: seq<string> :=
    ["courier name", "Courier Name", "courier", "mcnsname", "location", "city", "warehouse"]

  /** The summary shows this many groups at most. */
  const SUMMARY_TOP_N: nat := 25

  /** df.empty: no rows, or no columns. */
  predicate IsEmpty(t: Table) {
    |t.rows| == 0 || |t.columns| == 0
  }

  /** Python truthiness of a `str | None`: present and not the empty string. */
  predicate Truthy(o: Option<string>) {
    o.Some? && o.value != ""
  }

  datatype SummaryView =
    | EmptySheet       // "No rows in this sheet after filters."
    | NoAutoDetection  // "Couldn't auto-detect a suitable group/value column"
    | Chart(groupCol: string, valueCol: string, top: seq<Group>)

  /** A group candidate and a value candidate never have the same length. */
  lemma CandidateLengthsDiffer()
    ensures forall i, j :: 0 <= i < |GROUP_COL_CANDIDATES| && 0 <= j < |VALUE_CANDIDATES| ==>
              |GROUP_COL_CANDIDATES[i]| != |VALUE_CANDIDATES[j]|
  {
  }

  lemma CandidatesNonEmpty()
    ensures forall i :: 0 <= i < |GROUP_COL_CANDIDATES| ==> GROUP_COL_CANDIDATES[i] != ""
    ensures forall i :: 0 <= i < |VALUE_CANDIDATES| ==> VALUE_CANDIDATES[i] != ""
  {
  }

  /** So the detected group column is never the detected value column. */
  lemma DetectedColumnsDiffer(t: Table)
    requires Shaped(t)
    requires FirstExisting(t.columns, GROUP_COL_CANDIDATES).Some?
    requires FirstNumericPresent(t, VALUE_CANDIDATES).Some?
    ensures FirstExisting(t.columns, GROUP_COL_CANDIDATES).value != FirstNumericPresent(t, VALUE_CANDIDATES).value
  {
    var g := FirstExisting(t.columns, GROUP_COL_CANDIDATES).value;
    var v := FirstNumericPresent(t, VALUE_CANDIDATES).value;
    FirstExistingSpec(t.columns, GROUP_COL_CANDIDATES);
    FirstNumericPresentSpec(t, VALUE_CANDIDATES);
    var i :| 0 <= i < |GROUP_COL_CANDIDATES| && Lower(GROUP_COL_CANDIDATES[i]) == Lower(g);
    var j :| 0 <= j < |VALUE_CANDIDATES| && VALUE_CANDIDATES[j] == v;
    assert |GROUP_COL_CANDIDATES[i]| == |Lower(g)| == |g|;
    CandidateLengthsDiffer();
  }

  /**
   * The summary's aggregation of two distinct columns of the table succeeds
   * with at most 25 groups, each key once, largest sum first.
   */
  lemma SummaryAggregateSpec(t: Table, groupCol: string, valueCol: string)
    requires WellFormed(t)
    requires groupCol in t.columns && valueCol in t.columns && groupCol != valueCol
    ensures Aggregate(t, groupCol, valueCol, Some(SUMMARY_TOP_N)).Success?
    ensures var top := Aggregate(t, groupCol, valueCol, Some(SUMMARY_TOP_N)).value;
      |top| <= SUMMARY_TOP_N && DistinctKeys(top) && NonIncreasing(top)
  {
    AggregateSpec(t, groupCol, valueCol, Some(SUMMARY_TOP_N));
  }

  /**
   * `if group_col and value_col` tests presence: a detected name is a column
   * of the table and, every candidate being non-empty, never the empty string.
   */
  lemma DetectionTruthy(t: Table, groupCands: seq<string>, valueCands: seq<string>)
    requires Shaped(t)
    requires forall i :: 0 <= i < |groupCands| ==> groupCands[i] != ""
    requires forall i :: 0 <= i < |valueCands| ==> valueCands[i] != ""
    ensures Truthy(FirstExisting(t.columns, groupCands)) <==> FirstExisting(t.columns, groupCands).Some?
    ensures Truthy(FirstNumericPresent(t, valueCands)) <==> FirstNumericPresent(t, valueCands).Some?
    ensures FirstExisting(t.columns, groupCands).Some? ==> FirstExisting(t.columns, groupCands).value in t.columns
    ensures FirstNumericPresent(t, valueCands).Some? ==> FirstNumericPresent(t, valueCands).value in t.columns
  {
    FirstExistingSpec(t.columns, groupCands);
    FirstExistingNonEmpty(t.columns, groupCands);
    FirstNumericPresentSpec(t, valueCands);
  }

  /**
   * The summary tab: a warning for an empty sheet; otherwise the detected
   * group and value columns, when both are found, and the 25 largest groups.
   */
  method Summary(t: Table) returns (view: SummaryView)
    requires WellFormed(t)
    ensures view.EmptySheet? <==> IsEmpty(t)
    ensures view.NoAutoDetection? <==>
              !IsEmpty(t) &&
              (FirstExisting(t.columns, GROUP_COL_CANDIDATES).None? || FirstNumericPresent(t, VALUE_CANDIDATES).None?)
    ensures view.Chart? ==>
              && FirstExisting(t.columns, GROUP_COL_CANDIDATES) == Some(view.groupCol)
              && FirstNumericPresent(t, VALUE_CANDIDATES) == Some(view.valueCol)
              && Aggregate(t, view.groupCol, view.valueCol, Some(SUMMARY_TOP_N)) == Success(view.top)
              && |view.top| <= SUMMARY_TOP_N
              && DistinctKeys(view.top) && NonIncreasing(view.top)
  {
    if IsEmpty(t) {
      return EmptySheet;
    }
    CandidatesNonEmpty();
    DetectionTruthy(t, GROUP_COL_CANDIDATES, VALUE_CANDIDATES);
    var groupCol := FindFirstExistingColumn(t.columns, GROUP_COL_CANDIDATES);
    var valueCol := FindValueColumn(t);
    if Truthy(groupCol) && Truthy(valueCol) {
      DetectedColumnsDiffer(t);
      SummaryAggregateSpec(t, groupCol.value, valueCol.value);
      var agg := Aggregate(t, groupCol.value, valueCol.value, Some(SUMMARY_TOP_N));
      view := Chart(groupCol.value, valueCol.value, agg.value);
    } else {
      view := NoAutoDetection;
    }
  }

  datatype BreakdownView =
    | NoRowsToAnalyze             // "No rows to analyze."
    | NoValueColumn               // nothing chosen for "Value (numeric)"
    | Ranked(groups: seq<Group>)
    | BreakdownFailed(error: AggError)

  /**
   * The breakdown tab as written: group by any column, sum a numeric column,
   * every group shown, largest first.
   */
  function Breakdown(t: Table, groupBy: string, valueChoice: Option<string>): BreakdownView
    requires WellFormed(t)
    requires groupBy in t.columns
    requires valueChoice.Some? ==> valueChoice.value in NumericColumns(t)
  {
    if IsEmpty(t) then NoRowsToAnalyze
    else if !Truthy(valueChoice) then NoValueColumn
    else
      match Aggregate(t, groupBy, valueChoice.value, None)
      case Success(groups) => Ranked(groups)
      case Failure(e) => BreakdownFailed(e)
  }

  /**
   * The breakdown fails exactly when the chosen value column is the group
   * column; otherwise every value of the group column appears once, largest
   * sum first, and the sums add up to the column's total.
   */
  lemma BreakdownSpec(t: Table, groupBy: string, valueChoice: Option<string>)
    requires WellFormed(t)
    requires groupBy in t.columns
    requires valueChoice.Some? ==> valueChoice.value in NumericColumns(t)
    ensures Breakdown(t, groupBy, valueChoice).BreakdownFailed? <==>
              !IsEmpty(t) && Truthy(valueChoice) && valueChoice.value == groupBy
    ensures Breakdown(t, groupBy, valueChoice).Ranked? ==>
              var r := Breakdown(t, groupBy, valueChoice).groups;
              var g := IndexOf(t.columns, groupBy);
              var v := IndexOf(t.columns, valueChoice.value);
              && DistinctKeys(r) && NonIncreasing(r)
              && (forall i :: 0 <= i < |r| ==> r[i].total == SumWhere(t.rows, g, v, r[i].key))
              && (forall i :: 0 <= i < |r| ==> exists row :: 0 <= row < |t.rows| && t.rows[row][g] == r[i].key)
              && (forall i :: 0 <= i < |t.rows| ==> HasKey(r, t.rows[i][g]))
              && Totals(r) == ColumnSum(t.rows, v)
  {
    if !IsEmpty(t) && Truthy(valueChoice) {
      SubsequenceElements(NumericColumns(t), t.columns);
      AggregateErrors(t, groupBy, valueChoice.value, None);
      if groupBy != valueChoice.value {
        AggregateSpec(t, groupBy, valueChoice.value, None);
      }
    }
  }

  /**
   * With the widgets' defaults (the first column to group by, the first
   * numeric column to sum), any non-empty sheet whose first column is
   * numeric makes the breakdown fail.
   */
  lemma DefaultBreakdownFails(t: Table)
    requires WellFormed(t) && !IsEmpty(t)
    requires t.dtypes[0] == Numeric && t.columns[0] != ""
    ensures NumericColumns(t)[0] == t.columns[0]
    ensures Breakdown(t, t.columns[0], Some(NumericColumns(t)[0])) == BreakdownFailed(Ambiguous(t.columns[0]))
  {
    assert t.columns[0..] == t.columns;
    assert Passes(t, NumericTest, 0);
    BreakdownSpec(t, t.columns[0], Some(t.columns[0]));
    AggregateErrors(t, t.columns[0], t.columns[0], None);
  }

  /** One such sheet: a single numeric column Total_AWBs holding 10 and 5. */
  lemma DefaultBreakdownExample()
    ensures var t := Table(["Total_AWBs"], [Numeric], [[Num(10)], [Num(5)]]);
      && WellFormed(t)
      && Breakdown(t, t.columns[0], Some(NumericColumns(t)[0])) == BreakdownFailed(Ambiguous("Total_AWBs"))
  {
    var t := Table(["Total_AWBs"], [Numeric], [[Num(10)], [Num(5)]]);
    DefaultBreakdownFails(t);
  }

  /** The value columns that can be summed per group: numeric and not the group column. */
  function ValueOptions(t: Table, groupBy: string): (r: seq<string>)
    requires Shaped(t)
    ensures forall c :: c in r <==> c in NumericColumns(t) && c != groupBy
  {
    RemoveName(NumericColumns(t), groupBy)
  }

  function RemoveName(names: seq<string>, name: string): (r: seq<string>)
    ensures forall c :: c in r <==> c in names && c != name
  {
    if names == [] then []
    else (if names[0] == name then [] else [names[0]]) + RemoveName(names[1..], name)
  }

  /** The breakdown with the group column left out of the value choices. */
  function BreakdownCorrected(t: Table, groupBy: string, valueChoice: Option<string>): BreakdownView
    requires WellFormed(t)
    requires groupBy in t.columns
    requires valueChoice.Some? ==> valueChoice.value in ValueOptions(t, groupBy)
  {
    Breakdown(t, groupBy, valueChoice)
  }

  /** Every choice the corrected widgets offer gives the ranked groups. */
  lemma BreakdownCorrectedRanks(t: Table, groupBy: string, valueChoice: Option<string>)
    requires WellFormed(t)
    requires groupBy in t.columns
    requires valueChoice.Some? ==> valueChoice.value in ValueOptions(t, groupBy)
    ensures !IsEmpty(t) && Truthy(valueChoice) ==> BreakdownCorrected(t, groupBy, valueChoice).Ranked?
  {
    BreakdownSpec(t, groupBy, valueChoice);
  }

  /** The worked example: groups A (10 + 3) and B (5), A first; head(1) keeps A. */
  lemma AggregateExample()
    ensures var t := Table(["g", "v"], [Object, Numeric],
                           [[Text("A"), Num(10)], [Text("B"), Num(5)], [Text("A"), Num(3)]]);
      && Aggregate(t, "g", "v", None) == Success([Group(Text("A"), 13), Group(Text("B"), 5)])
      && Aggregate(t, "g", "v", Some(1)) == Success([Group(Text("A"), 13)])
      && Aggregate(t, "x", "v", None) == Failure(ColumnNotFound("x"))
  {
    var t := Table(["g", "v"], [Object, Numeric],
                   [[Text("A"), Num(10)], [Text("B"), Num(5)], [Text("A"), Num(3)]]);
    assert IndexOf(t.columns, "g") == 0;
    assert IndexOf(t.columns, "v") == 1 by {
      assert t.columns[1..] == ["v"];
    }
    var rows := t.rows;
    var a10 := Group(Text("A"), 10);
    var b5 := Group(Text("B"), 5);
    assert rows[..1][..0] == [];
    assert GroupSum(rows[..1], 0, 1) == [a10];
    assert rows[..2][..1] == rows[..1];
    assert AddTo([a10], Text("B"), 5) == [a10] + AddTo([], Text("B"), 5);
    assert GroupSum(rows[..2], 0, 1) == [a10, b5];
    assert rows[..3] == rows;
    var groups := [Group(Text("A"), 13), b5];
    assert AddTo([a10, b5], Text("A"), 3) == groups;
    assert GroupSum(rows, 0, 1) == groups;
    assert SortDesc(groups[1..]) == [Group(Text("B"), 5)];
    assert SortDesc(groups) == groups;
  }

  /** "CITY" matches both "City" and "city"; the later column is reported. */
  lemma LookupExample()
    ensures FirstExisting(["City", "city"], ["CITY"]) == Some("city")
    ensures FirstExisting(["Region"], ["CITY"]) == None
  {
    assert Lower("CITY") == "city" && Lower("City") == "city" && Lower("city") == "city";
    assert ["City", "city"][..1] == ["City"];
    assert LowerMap(["City", "city"]) == map["city" := "city"];
    assert Lower("Region") != "city";
  }

  /** A column holding [10, 20, "n/a", 5] is not numeric; one holding [10, 20, 30] is. */
  lemma MixedColumnIsNotNumeric()
    ensures InferDtype([Num(10), Num(20), Text("n/a"), Num(5)]) == Object
    ensures InferDtype([Num(10), Num(20), Num(30)]) == Numeric
    ensures NumericColumns(Table(["Total_AWBs", "Total_Weight"], [Object, Numeric],
                                 [[Num(10), Num(10)], [Num(20), Num(20)], [Text("n/a"), Num(30)]])) == ["Total_Weight"]
  {
    assert [Num(10), Num(20), Text("n/a"), Num(5)][2].Text?;
    var t := Table(["Total_AWBs", "Total_Weight"], [Object, Numeric],
                   [[Num(10), Num(10)], [Num(20), Num(20)], [Text("n/a"), Num(30)]]);
    assert t.columns[2..] == [];
    assert ColumnsWhere(t, NumericTest, 2) == [];
  }
}
