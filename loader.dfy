/**
 * load_workbook_all_sheets: the sheets of a workbook, each with its column
 * labels replaced by their stripped string form.  Reading the file is done
 * by the spreadsheet decoder; the model receives what the decoder produced.
 */
module Loader {
  import opened Strings
  import opened Frame

  /** A header cell as the decoder returns it: text, or a number. */
  datatype Label = StrLabel(s: string) | IntLabel(i: int)

  /** str(label). */
  function LabelString(l: Label): string {
    match l
    case StrLabel(s) => s
    case IntLabel(i) => IntToString(i)
  }

  /** A decoded sheet, before its labels are normalised. */
  datatype RawSheet = RawSheet(labels: seq<Label>, dtypes: seq<Dtype>, rows: seq<seq<Cell>>)

  /**
   * The decoder inferred each dtype from the column's cells, and every row
   * has a cell per label.
   */
  predicate Decoded(raw: RawSheet) {
    && |raw.dtypes| == |raw.labels|
    && (forall i :: 0 <= i < |raw.rows| ==> |raw.rows[i]| == |raw.labels|)
    && forall j :: 0 <= j < |raw.labels| ==>
         raw.dtypes[j] == InferDtype(Column(raw.rows, j))
  }

  /**
   * A Python dict from sheet name to sheet: the keys in insertion order and
   * the mapping itself.
   */
  datatype Book<T> = Book(names: seq<string>, sheets: map<string, T>)

  predicate BookValid<T>(b: Book<T>) {
    && Distinct(b.names)
    && (forall n :: n in b.names ==> n in b.sheets)
    && (forall n :: n in b.sheets ==> n in b.names)
  }

  /** d[k] = v: a new key goes to the end, an existing key keeps its place. */
  function Put<T>(b: Book<T>, k: string, v: T): (r: Book<T>)
    requires BookValid(b)
    ensures BookValid(r)
    ensures r.names == if k in b.names then b.names else b.names + [k]
    ensures r.sheets.Keys == b.sheets.Keys + {k}
    ensures r.sheets[k] == v && forall n :: n in b.sheets && n != k ==> r.sheets[n] == b.sheets[n]
  {
    Book(if k in b.sheets then b.names else b.names + [k], b.sheets[k := v])
  }

  /** [str(c).strip() for c in df.columns], with dtypes and rows untouched. */
  function NormalizeSheet(raw: RawSheet): (t: Table)
    ensures |t.columns| == |raw.labels| && t.dtypes == raw.dtypes && t.rows == raw.rows
    ensures forall j :: 0 <= j < |t.columns| ==> t.columns[j] == Strip(LabelString(raw.labels[j]))
  {
    Table(seq(|raw.labels|, j requires 0 <= j < |raw.labels| => Strip(LabelString(raw.labels[j]))),
          raw.dtypes, raw.rows)
  }

  /**
   * Normalisation keeps the number and order of the columns, and no resulting
   * name starts or ends with whitespace; numeric labels become their digits.
   */
  lemma NormalizeSheetNames(raw: RawSheet)
    ensures |NormalizeSheet(raw).columns| == |raw.labels|
    ensures forall j :: 0 <= j < |raw.labels| ==> NoEdgeSpace(NormalizeSheet(raw).columns[j])
    ensures forall j :: 0 <= j < |raw.labels| && raw.labels[j].IntLabel? ==>
              NormalizeSheet(raw).columns[j] == IntToString(raw.labels[j].i)
  {
    var t := NormalizeSheet(raw);
    forall j | 0 <= j < |raw.labels|
      ensures NoEdgeSpace(t.columns[j])
      ensures raw.labels[j].IntLabel? ==> t.columns[j] == IntToString(raw.labels[j].i)
    {
      StripSpec(LabelString(raw.labels[j]));
      if raw.labels[j].IntLabel? {
        StripNoEdgeSpace(IntToString(raw.labels[j].i));
      }
    }
  }

  /** A decoded sheet whose labels stay distinct after stripping is well formed. */
  lemma NormalizeSheetWellFormed(raw: RawSheet)
    requires Decoded(raw)
    requires Distinct(NormalizeSheet(raw).columns)
    ensures WellFormed(NormalizeSheet(raw))
  {
    var t := NormalizeSheet(raw);
    forall i, j | 0 <= i < |t.rows| && 0 <= j < |t.columns| && t.dtypes[j] == Numeric
      ensures !t.rows[i][j].Text?
    {
      assert Column(raw.rows, j)[i] == t.rows[i][j];
    }
  }

  lemma NotYetPut(names: seq<string>, i: nat)
    requires Distinct(names) && i < |names|
    ensures names[i] !in names[..i]
  {
  }

  /**
   * What the decoder made of the file: no file at the path, a file it could
   * not read, or the decoded sheets.
   */
  datatype Source = Absent | Unreadable(reason: string) | Readable(book: Book<RawSheet>)

  /**
   * load_workbook_all_sheets: an empty dict when the file is missing or
   * unreadable; otherwise every sheet, in the decoder's order, normalised.
   */
  method LoadWorkbookAllSheets(src: Source) returns (normalized: Book<Table>)
    requires src.Readable? ==> BookValid(src.book)
    ensures BookValid(normalized)
    ensures !src.Readable? ==> normalized.names == [] && normalized.sheets == map[]
    ensures src.Readable? ==> normalized.names == src.book.names
    ensures src.Readable? ==> normalized.sheets.Keys == src.book.sheets.Keys
    ensures src.Readable? ==> forall n :: n in normalized.sheets ==> normalized.sheets[n] == NormalizeSheet(src.book.sheets[n])
  {
    normalized := Book([], map[]);
    if !src.Readable? {
      return;
    }
    var sheets := src.book;
    for i := 0 to |sheets.names|
      invariant BookValid(normalized)
      invariant normalized.names == sheets.names[..i]
      invariant forall n :: n in normalized.sheets ==> n in sheets.sheets && normalized.sheets[n] == NormalizeSheet(sheets.sheets[n])
    {
      var sname := sheets.names[i];
      NotYetPut(sheets.names, i);
      var df := NormalizeSheet(sheets.sheets[sname]);
      normalized := Put(normalized, sname, df);
      assert sheets.names[..i + 1] == sheets.names[..i] + [sname];
    }
    assert sheets.names[..|sheets.names|] == sheets.names;
    assert normalized.sheets.Keys == sheets.sheets.Keys;
  }
}
