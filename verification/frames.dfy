/** The dataframe model: cells, rows keyed by column name, and frames with ordered columns. */
module Frames {
  import opened Seqs

  /** A dataframe cell: Python's None, a float NaN, or any other value, carried as its `str()`. */
  datatype Cell = PyNone | NaN | Text(text: string)

  /** `pandas.isnull`. */
  predicate IsNull(c: Cell) {
    c.PyNone? || c.NaN?
  }

  /** `str(cell)`. */
  function Render(c: Cell): string {
    match c
    case PyNone => "None"
    case NaN => "nan"
    case Text(s) => s
  }

  type Row = map<string, Cell>

  /** A dataframe: ordered column labels and the rows in order. */
  datatype Frame = Frame(columns: seq<string>, rows: seq<Row>)

  /** Column labels are unique and every row has a cell for exactly those columns. */
  predicate WellFormed(f: Frame) {
    && Distinct(f.columns)
    && forall i :: 0 <= i < |f.rows| ==> f.rows[i].Keys == Elements(f.columns)
  }
}
