/**
 * Reading only the map columns that the column sets name (csvjoin.py:29-31)
 * loses nothing: the run on the narrowed map table equals the run on the
 * whole one.
 */
module MapReading {
  import opened Wrappers
  import opened Tables
  import opened Join

  /** The columns of `cols` that are in `keep`, in their original order. */
  function KeepColumns(cols: seq<string>, keep: seq<string>): (r: seq<string>)
    ensures forall c :: c in r <==> c in cols && c in keep
    ensures Distinct(cols) ==> Distinct(r)
  {
    if cols == [] then []
    else
      var rest := KeepColumns(cols[1..], keep);
      assert Distinct(cols) ==> Distinct(cols[1..]) by {
        if Distinct(cols) {
          forall a, b | 0 <= a < b < |cols[1..]| ensures cols[1..][a] != cols[1..][b] {
            assert cols[1..][a] == cols[a + 1] && cols[1..][b] == cols[b + 1];
          }
        }
      }
      (if cols[0] in keep then [cols[0]] else []) + rest
  }

  /** The map table as read with `usecols`: only the columns in `keep`, every row narrowed alike. */
  function Restrict(m: Table, keep: seq<string>): (r: Table)
    requires WellFormed(m)
    ensures WellFormed(r) && |r.rows| == |m.rows|
    ensures forall c :: c in r.columns <==> c in m.columns && c in keep
    ensures forall i, c :: 0 <= i < |m.rows| && c in r.columns ==> r.rows[i][c] == m.rows[i][c]
  {
    var cols := KeepColumns(m.columns, keep);
    var r := Table(cols, seq(|m.rows|, i requires 0 <= i < |m.rows| => map c | c in m.rows[i] && c in keep :: m.rows[i][c]));
    assert forall i :: 0 <= i < |r.rows| ==> r.rows[i].Keys == set c | c in r.columns by {
      forall i | 0 <= i < |r.rows| ensures r.rows[i].Keys == set c | c in r.columns {
        assert m.rows[i].Keys == set c | c in m.columns;
      }
    }
    r
  }

  predicate PairsKept(pairs: seq<MapPair>, keep: seq<string>) {
    forall k :: 0 <= k < |pairs| ==> pairs[k].idColumn in keep && pairs[k].valueColumn in keep
  }

  lemma {:induction false} LookupRowsAgree(rows1: seq<Row>, rows2: seq<Row>, p: MapPair, key: Cell)
    requires RowsHave(rows1, p) && RowsHave(rows2, p) && |rows1| == |rows2|
    requires forall i :: 0 <= i < |rows1| ==>
      rows1[i][p.idColumn] == rows2[i][p.idColumn] && rows1[i][p.valueColumn] == rows2[i][p.valueColumn]
    ensures LookupRows(rows1, p, key) == LookupRows(rows2, p, key)
    decreases |rows1|
  {
    if rows1 != [] {
      LookupRowsAgree(rows1[1..], rows2[1..], p, key);
    }
  }

  lemma {:induction false} FirstMatchRestricted(m: Table, keep: seq<string>, pairs: seq<MapPair>, key: Cell)
    requires WellFormed(m) && PairsPresent(m, pairs) && PairsKept(pairs, keep)
    ensures PairsPresent(Restrict(m, keep), pairs)
    ensures FirstMatch(Restrict(m, keep), pairs, key) == FirstMatch(m, pairs, key)
    decreases |pairs|
  {
    var r := Restrict(m, keep);
    if pairs != [] {
      LookupRowsAgree(r.rows, m.rows, pairs[0], key);
      assert forall j :: 0 <= j < |pairs[1..]| ==> pairs[1..][j] == pairs[j + 1];
      FirstMatchRestricted(m, keep, pairs[1..], key);
    }
  }

  lemma {:induction false} MissingMapColumnRestricted(m: Table, keep: seq<string>, pairs: seq<MapPair>)
    requires WellFormed(m) && PairsKept(pairs, keep)
    ensures MissingMapColumn(Restrict(m, keep), pairs) == MissingMapColumn(m, pairs)
    decreases |pairs|
  {
    if pairs != [] {
      assert forall j :: 0 <= j < |pairs[1..]| ==> pairs[1..][j] == pairs[j + 1];
      MissingMapColumnRestricted(m, keep, pairs[1..]);
    }
  }

  /** A column set whose pair columns are all kept gives the same result on the narrowed map. */
  lemma ColumnSetRestricted(t: Table, m: Table, keep: seq<string>, cs: ColumnSet)
    requires WellFormed(t) && WellFormed(m) && PairsKept(cs.mapColumns, keep)
    ensures ColumnSetApplied(t, Restrict(m, keep), cs) == ColumnSetApplied(t, m, cs)
  {
    var r := Restrict(m, keep);
    MissingMapColumnRestricted(m, keep, cs.mapColumns);
    if cs.sourceIdColumn in t.columns && PairsPresent(m, cs.mapColumns) {
      var keys := Column(t, cs.sourceIdColumn);
      forall i | 0 <= i < |keys| ensures Filled(keys, r, cs.mapColumns)[i] == Filled(keys, m, cs.mapColumns)[i] {
        FirstMatchRestricted(m, keep, cs.mapColumns, keys[i]);
      }
      assert Filled(keys, r, cs.mapColumns) == Filled(keys, m, cs.mapColumns);
    }
  }

  lemma {:induction false} GeneratedRestricted(t: Table, m: Table, keep: seq<string>, sets: seq<ColumnSet>)
    requires WellFormed(t) && WellFormed(m)
    requires forall c :: ReadBy(sets, c) ==> c in keep
    ensures Generated(t, Restrict(m, keep), sets) == Generated(t, m, sets)
    decreases |sets|
  {
    if sets != [] {
      var pairs := sets[0].mapColumns;
      forall j | 0 <= j < |pairs| ensures pairs[j].idColumn in keep && pairs[j].valueColumn in keep {
        assert ReadBy(sets, pairs[j].idColumn) && ReadBy(sets, pairs[j].valueColumn);
      }
      ColumnSetRestricted(t, m, keep, sets[0]);
      forall c | ReadBy(sets[1..], c) ensures c in keep {
        var k, j :| 0 <= k < |sets[1..]| && 0 <= j < |sets[1..][k].mapColumns| &&
          (c == sets[1..][k].mapColumns[j].idColumn || c == sets[1..][k].mapColumns[j].valueColumn);
        assert sets[1..][k] == sets[k + 1];
        assert ReadBy(sets, c);
      }
      match ColumnSetApplied(t, m, sets[0])
      case Err(_) =>
      case Ok(next) =>
        GeneratedRestricted(next, m, keep, sets[1..]);
    }
  }

  /** Reading the map with only the flattened `map_columns` list gives the same run as reading all of it. */
  lemma ReadingNamedColumnsSuffices(t: Table, m: Table, sets: seq<ColumnSet>)
    requires WellFormed(t) && WellFormed(m)
    ensures Generated(t, Restrict(m, MapColumnsToRead(sets)), sets) == Generated(t, m, sets)
  {
    GeneratedRestricted(t, m, MapColumnsToRead(sets), sets);
  }
}
