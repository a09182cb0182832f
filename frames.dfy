/** A pandas DataFrame as the transformers see it: an ordered list of column
    names and a sequence of rows, each row mapping a column to its cell. A cell
    is a text or missing (NaN). */
module Frames {

  datatype Option<T> = None | Some(value: T)

  /** The two text columns every stage reads. */
  const TitleColumn := "Titulo"
  const BodyColumn := "Descripcion"

  /** What a stage raises instead of returning a frame. */
  datatype FrameError =
    | MissingColumn(name: string)  // KeyError: the column is not in the frame
    | NotText(name: string)        // a missing cell handed to a text operation
    | InvalidDocument              // a missing document handed to the vectoriser
    | InvalidFeatureCount(n: int)  // the vectoriser's n_features is below 1
    | EmptyBatch                   // the vectoriser is handed no document at all

  datatype Result<T> = Ok(value: T) | Err(error: FrameError) {
    predicate IsFailure() { Err? }

    function PropagateFailure<U>(): Result<U>
      requires Err?
    {
      Err(error)
    }

    function Extract(): T
      requires Ok?
    {
      value
    }
  }

  type Row = map<string, Option<string>>

  datatype Frame = Frame(columns: seq<string>, rows: seq<Row>)

  /** The cell of r in column c; a key the row lacks reads as missing. */
  function Cell(r: Row, c: string): Option<string> {
    if c in r then r[c] else None
  }

  /** Distinct column names, and every row has exactly the frame's columns. */
  predicate WellFormed(f: Frame) {
    && (forall i, j :: 0 <= i < j < |f.columns| ==> f.columns[i] != f.columns[j])
    && (forall k :: 0 <= k < |f.rows| ==> f.rows[k].Keys == set c | c in f.columns)
  }

  /** Every row has a text in column c. */
  predicate AllText(f: Frame, c: string) {
    forall i :: 0 <= i < |f.rows| ==> Cell(f.rows[i], c).Some?
  }

  /** `df[c]` handed to an operation that needs a str per row: a KeyError when
      the column is absent, a failure on the first missing cell otherwise. */
  function TextColumn(f: Frame, c: string): (r: Result<seq<string>>)
    ensures r.Ok? <==> c in f.columns && AllText(f, c)
    ensures r.Err? ==> r.error == (if c in f.columns then NotText(c) else MissingColumn(c))
    ensures r.Ok? ==> |r.value| == |f.rows|
    ensures r.Ok? ==> forall i :: 0 <= i < |f.rows| ==> Cell(f.rows[i], c) == Some(r.value[i])
  {
    if c !in f.columns then Err(MissingColumn(c))
    else if !AllText(f, c) then Err(NotText(c))
    else Ok(seq(|f.rows|, i requires 0 <= i < |f.rows| && AllText(f, c) => Cell(f.rows[i], c).value))
  }

  /** `df[c] = texts` on an existing column: only that column changes. */
  function WithColumn(f: Frame, c: string, texts: seq<string>): (g: Frame)
    requires |texts| == |f.rows|
    ensures g.columns == f.columns && |g.rows| == |f.rows|
    ensures forall i :: 0 <= i < |g.rows| ==> Cell(g.rows[i], c) == Some(texts[i])
    ensures forall i, d :: 0 <= i < |g.rows| && d != c ==> Cell(g.rows[i], d) == Cell(f.rows[i], d)
  {
    Frame(f.columns, seq(|f.rows|, i requires 0 <= i < |f.rows| => f.rows[i][c := Some(texts[i])]))
  }
}
