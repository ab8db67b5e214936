/** In-memory tables: a header of column names and rows of possibly-missing string cells. */
module Tables {
  import opened Wrappers

  /** One cell; `None` is a missing value. */
  type Cell = Option<string>

  /** One row, from column name to cell. */
  type Row = map<string, Cell>

  /** A table: its column names in order, and its rows in order. */
  datatype Table = Table(columns: seq<string>, rows: seq<Row>)

  predicate Distinct(names: seq<string>) {
    forall i, j :: 0 <= i < j < |names| ==> names[i] != names[j]
  }

  /** Column names are unique and every row has exactly the table's columns. */
  predicate WellFormed(t: Table) {
    Distinct(t.columns) &&
    forall r :: 0 <= r < |t.rows| ==> t.rows[r].Keys == set c | c in t.columns
  }

  /** The cells of column `name`, top to bottom. */
  function Column(t: Table, name: string): (col: seq<Cell>)
    requires WellFormed(t) && name in t.columns
    ensures |col| == |t.rows|
    ensures forall i :: 0 <= i < |t.rows| ==> col[i] == t.rows[i][name]
  {
    seq(|t.rows|, i requires 0 <= i < |t.rows| => t.rows[i][name])
  }

  /** A column of `n` missing cells. */
  function Nulls(n: nat): (col: seq<Cell>)
    ensures |col| == n && forall i :: 0 <= i < n ==> col[i].None?
  {
    seq(n, _ => None)
  }

  /** The header after assigning to column `name`: unchanged if it is there, else `name` appended. */
  function WithColumn(columns: seq<string>, name: string): seq<string> {
    if name in columns then columns else columns + [name]
  }

  /**
   * Column assignment `t[name] = col`: an existing column is overwritten in
   * place, a new one is appended at the end; every other cell is unchanged.
   */
  function SetColumn(t: Table, name: string, col: seq<Cell>): (r: Table)
    requires WellFormed(t) && |col| == |t.rows|
    ensures WellFormed(r) && |r.rows| == |t.rows|
    ensures r.columns == WithColumn(t.columns, name)
    ensures forall i :: 0 <= i < |r.rows| ==> r.rows[i][name] == col[i]
    ensures forall i, c :: 0 <= i < |r.rows| && c in t.columns && c != name ==> r.rows[i][c] == t.rows[i][c]
  {
    var r := Table(WithColumn(t.columns, name),
                   seq(|t.rows|, i requires 0 <= i < |t.rows| => t.rows[i][name := col[i]]));
    assert forall i :: 0 <= i < |r.rows| ==> r.rows[i].Keys == set c | c in r.columns by {
      forall i | 0 <= i < |r.rows| ensures r.rows[i].Keys == set c | c in r.columns {
        assert r.rows[i].Keys == t.rows[i].Keys + {name};
      }
    }
    r
  }

  /** Assigning a column twice leaves only the second assignment. */
  lemma SetColumnTwice(t: Table, name: string, a: seq<Cell>, b: seq<Cell>)
    requires WellFormed(t) && |a| == |t.rows| && |b| == |t.rows|
    ensures SetColumn(SetColumn(t, name, a), name, b) == SetColumn(t, name, b)
  {
    var once := SetColumn(t, name, a);
    var twice := SetColumn(once, name, b);
    var direct := SetColumn(t, name, b);
    assert twice.columns == direct.columns;
    forall i | 0 <= i < |t.rows| ensures twice.rows[i] == direct.rows[i] {
      assert twice.rows[i] == t.rows[i][name := a[i]][name := b[i]];
    }
  }

  /** Reading back an assigned column gives what was assigned. */
  lemma ColumnOfSetColumn(t: Table, name: string, col: seq<Cell>)
    requires WellFormed(t) && |col| == |t.rows|
    ensures Column(SetColumn(t, name, col), name) == col
  {
  }
}
