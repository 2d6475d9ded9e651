/** The tabular data model shared by the dashboard's normaliser and aggregations:
    a data frame is an ordered list of column names and a sequence of rows, each
    row a map from column name to a cell. */
module Frames {

  datatype Option<T> = None | Some(value: T)

  /** One cell of a data frame: pandas' missing marker (NaN/None), a text value,
      or an integer. Floating-point cells are not part of this model. */
  datatype Cell = Missing | Text(s: string) | Num(n: int)

  type Row = map<string, Cell>

  datatype Frame = Frame(columns: seq<string>, rows: seq<Row>)

  /** Why an operation raised instead of producing a value. */
  datatype Error =
    | MissingColumn(name: string)   // pandas' KeyError on an absent column
    | NotNumeric(column: string)    // a text cell where an integer column is converted

  datatype Result<T> = Ok(value: T) | Err(error: Error)

  /** The value of `o` as a cell: a missing option is the missing marker. */
  function ToCell(o: Option<int>): Cell {
    match o
    case None => Missing
    case Some(n) => Num(n)
  }

  function ColumnSet(columns: seq<string>): set<string> {
    set c | c in columns
  }

  /** A well-formed frame: column names are distinct and every row has a cell
      for exactly those columns. */
  predicate Valid(f: Frame) {
    && (forall i, j :: 0 <= i < j < |f.columns| ==> f.columns[i] != f.columns[j])
    && (forall k :: 0 <= k < |f.rows| ==> f.rows[k].Keys == ColumnSet(f.columns))
  }

  /** The cell of row `r` in column `c`; a row without that column reads as missing. */
  function CellAt(r: Row, c: string): Cell {
    if c in r then r[c] else Missing
  }

  /** `out[name] = cells` on a copy of `f`: an existing column is overwritten in
      place, a new one is appended after the existing columns. */
  function WithColumn(f: Frame, name: string, cells: seq<Cell>): (g: Frame)
    requires |cells| == |f.rows|
    ensures g.columns == if name in f.columns then f.columns else f.columns + [name]
    ensures |g.rows| == |f.rows|
    ensures forall k :: 0 <= k < |g.rows| ==> g.rows[k].Keys == f.rows[k].Keys + {name}
    ensures forall k :: 0 <= k < |g.rows| ==> CellAt(g.rows[k], name) == cells[k]
    ensures forall k, c :: 0 <= k < |g.rows| && c != name ==> CellAt(g.rows[k], c) == CellAt(f.rows[k], c)
    ensures Valid(f) ==> Valid(g)
  {
    var g := Frame(if name in f.columns then f.columns else f.columns + [name],
                   seq(|f.rows|, k requires 0 <= k < |f.rows| => f.rows[k][name := cells[k]]));
    assert ColumnSet(g.columns) == ColumnSet(f.columns) + {name};
    g
  }

  /** Writing a column with the cells it already holds leaves the frame as it was. */
  lemma WithColumnUnchanged(f: Frame, name: string, cells: seq<Cell>)
    requires |cells| == |f.rows| && name in f.columns
    requires forall k :: 0 <= k < |f.rows| ==> name in f.rows[k] && f.rows[k][name] == cells[k]
    ensures WithColumn(f, name, cells) == f
  {
    var g := WithColumn(f, name, cells);
    forall k | 0 <= k < |f.rows| ensures g.rows[k] == f.rows[k] {
      assert g.rows[k] == f.rows[k][name := cells[k]];
    }
  }
}
