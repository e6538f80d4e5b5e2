/**
 * The abstract data frame the dashboard works on: an ordered list of column
 * names, the dtype pandas inferred for each column when the sheet was read,
 * and the rows, each holding one cell per column.
 */
module Frame {
  import opened Strings

  /** A spreadsheet cell: a number, a piece of text, or empty (NaN). */
  datatype Cell = Num(n: int) | Text(s: string) | Missing

  /** The two dtypes the dashboard distinguishes: numeric, and "object". */
  datatype Dtype = Numeric | Object

  datatype Table = Table(columns: seq<string>, dtypes: seq<Dtype>, rows: seq<seq<Cell>>)

  /** One dtype per column and one cell per column in every row. */
  predicate Shaped(t: Table) {
    && |t.dtypes| == |t.columns|
    && forall i :: 0 <= i < |t.rows| ==> |t.rows[i]| == |t.columns|
  }

  predicate Distinct<T(==)>(xs: seq<T>) {
    forall i, j :: 0 <= i < j < |xs| ==> xs[i] != xs[j]
  }

  /** A numeric column holds no text (its empty cells are NaN). */
  predicate NumericHoldsNumbers(t: Table)
    requires Shaped(t)
  {
    forall i, j :: 0 <= i < |t.rows| && 0 <= j < |t.columns| && t.dtypes[j] == Numeric ==> !t.rows[i][j].Text?
  }

  /**
   * What every column access downstream of the loader relies on: pandas
   * raises on a label that names two columns, so the names are distinct.
   */
  predicate WellFormed(t: Table) {
    Shaped(t) && Distinct(t.columns) && NumericHoldsNumbers(t)
  }

  /** The cells of column j, top to bottom. */
  function Column(rows: seq<seq<Cell>>, j: nat): (c: seq<Cell>)
    requires forall i :: 0 <= i < |rows| ==> j < |rows[i]|
    ensures |c| == |rows| && forall i :: 0 <= i < |rows| ==> c[i] == rows[i][j]
  {
    seq(|rows|, i requires 0 <= i < |rows| => rows[i][j])
  }

  /**
   * The dtype pandas gives a column read from a spreadsheet, in the abstract:
   * numeric when no cell holds text (an all-empty column is float NaN),
   * object otherwise.
   */
  function InferDtype(cells: seq<Cell>): (d: Dtype)
  {
    if forall i :: 0 <= i < |cells| ==> !cells[i].Text? then Numeric else Object
  }

  /** The position of a column name; the first one if it were repeated. */
  function IndexOf(cols: seq<string>, name: string): (j: nat)
    requires name in cols
    ensures j < |cols| && cols[j] == name
    ensures forall k :: 0 <= k < j ==> cols[k] != name
  {
    if cols[0] == name then 0 else 1 + IndexOf(cols[1..], name)
  }

  /** In a table with distinct names, the index is the only one with that name. */
  lemma IndexOfDistinct(cols: seq<string>, j: nat)
    requires Distinct(cols) && j < |cols|
    ensures IndexOf(cols, cols[j]) == j
  {
  }

  /** df[col].dropna().unique(): the distinct non-empty cells of column j. */
  function DistinctValues(t: Table, j: nat): (vs: set<Cell>)
    requires Shaped(t) && j < |t.columns|
    ensures forall c :: c in vs <==> c != Missing && exists i :: 0 <= i < |t.rows| && t.rows[i][j] == c
  {
    set i | 0 <= i < |t.rows| && !t.rows[i][j].Missing? :: t.rows[i][j]
  }

  /** astype(str) of a cell; pandas writes an empty cell as "nan". */
  function CellStr(c: Cell): string {
    match c
    case Num(n) => IntToString(n)
    case Text(s) => s
    case Missing => "nan"
  }

  function Min(a: int, b: int): int {
    if a < b then a else b
  }

  /** xs can be obtained from ys by deleting elements, keeping the order. */
  predicate IsSubsequence<T(==)>(xs: seq<T>, ys: seq<T>)
    decreases |ys|
  {
    if xs == [] then true
    else if ys == [] then false
    else (xs[0] == ys[0] && IsSubsequence(xs[1..], ys[1..])) || IsSubsequence(xs, ys[1..])
  }

  lemma SubsequenceSkip<T>(xs: seq<T>, ys: seq<T>)
    requires ys != [] && IsSubsequence(xs, ys[1..])
    ensures IsSubsequence(xs, ys)
  {
  }

  lemma {:induction false} SubsequenceRefl<T>(xs: seq<T>)
    ensures IsSubsequence(xs, xs)
    decreases |xs|
  {
    if xs != [] {
      SubsequenceRefl(xs[1..]);
    }
  }

  /** A subsequence is no longer than the sequence and holds only its elements. */
  lemma {:induction false} SubsequenceElements<T>(xs: seq<T>, ys: seq<T>)
    requires IsSubsequence(xs, ys)
    ensures |xs| <= |ys|
    ensures forall x :: x in xs ==> x in ys
    decreases |ys|
  {
    if xs != [] {
      if xs[0] == ys[0] && IsSubsequence(xs[1..], ys[1..]) {
        SubsequenceElements(xs[1..], ys[1..]);
        assert forall x :: x in xs ==> x == xs[0] || x in xs[1..];
      } else {
        SubsequenceElements(xs, ys[1..]);
      }
    }
  }

  lemma {:induction false} SubsequenceTransitive<T>(xs: seq<T>, ys: seq<T>, zs: seq<T>)
    requires IsSubsequence(xs, ys) && IsSubsequence(ys, zs)
    ensures IsSubsequence(xs, zs)
    decreases |zs|
  {
    if xs != [] {
      assert ys != [] && zs != [];
      if IsSubsequence(ys, zs[1..]) {
        SubsequenceTransitive(xs, ys, zs[1..]);
      } else if xs[0] == ys[0] && IsSubsequence(xs[1..], ys[1..]) {
        SubsequenceTransitive(xs[1..], ys[1..], zs[1..]);
      } else {
        SubsequenceTransitive(xs, ys[1..], zs[1..]);
      }
    }
  }

  /** A subsequence of a sequence without repetitions has none either. */
  lemma {:induction false} SubsequenceDistinct<T>(xs: seq<T>, ys: seq<T>)
    requires IsSubsequence(xs, ys) && Distinct(ys)
    ensures Distinct(xs)
    decreases |ys|
  {
    if xs != [] {
      if xs[0] == ys[0] && IsSubsequence(xs[1..], ys[1..]) {
        SubsequenceDistinct(xs[1..], ys[1..]);
        SubsequenceElements(xs[1..], ys[1..]);
        assert xs[0] !in ys[1..];
        forall j | 0 < j < |xs| ensures xs[0] != xs[j] {
          assert xs[j] in xs[1..];
        }
      } else {
        SubsequenceDistinct(xs, ys[1..]);
      }
    }
  }
}
