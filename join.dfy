/**
 * The join-and-fill engine: for each column set in order, reset its target
 * column, fill it from the map table through each map pair in priority
 * order, then run its transformers.
 */
module Join {
  import opened Wrappers
  import opened Failures
  import opened Tables
  import opened Transformers

  /** One `map_columns` entry: a map id column and the map value column read through it. */
  datatype MapPair = MapPair(idColumn: string, valueColumn: string)

  /**
   * One join instruction. `mapColumns` is the ordered `map_columns` dict as a
   * list of pairs; an absent `transformers` entry is the empty list.
   */
  datatype ColumnSet = ColumnSet(
    sourceIdColumn: string,
    mapColumns: seq<MapPair>,
    targetColumn: string,
    transformers: seq<string>)

  predicate PairPresent(m: Table, p: MapPair) {
    p.idColumn in m.columns && p.valueColumn in m.columns
  }

  predicate PairsPresent(m: Table, pairs: seq<MapPair>) {
    forall k :: 0 <= k < |pairs| ==> PairPresent(m, pairs[k])
  }

  /** No two rows of `m` share a cell in column `col`. */
  predicate UniqueValues(m: Table, col: string)
    requires WellFormed(m)
  {
    col in m.columns ==> forall i, j :: 0 <= i < j < |m.rows| ==> m.rows[i][col] != m.rows[j][col]
  }

  /**
   * What the engine assumes of the map table for one column set: each map id
   * column names its rows uniquely (pandas would otherwise duplicate target
   * rows), and is not also the value column read through it.
   */
  predicate Admissible(m: Table, cs: ColumnSet)
    requires WellFormed(m)
  {
    forall k :: 0 <= k < |cs.mapColumns| ==>
      cs.mapColumns[k].idColumn != cs.mapColumns[k].valueColumn && UniqueValues(m, cs.mapColumns[k].idColumn)
  }

  /** The first pair column, in declared order, id before value, that the map table lacks. */
  function MissingMapColumn(m: Table, pairs: seq<MapPair>): (r: Option<string>)
    ensures r.None? <==> PairsPresent(m, pairs)
    ensures r.Some? ==> r.value !in m.columns
  {
    if pairs == [] then None
    else if pairs[0].idColumn !in m.columns then Some(pairs[0].idColumn)
    else if pairs[0].valueColumn !in m.columns then Some(pairs[0].valueColumn)
    else
      var r := MissingMapColumn(m, pairs[1..]);
      assert r.None? ==> forall k :: 0 <= k < |pairs| ==> PairPresent(m, pairs[k]) by {
        if r.None? {
          forall k | 0 <= k < |pairs| ensures PairPresent(m, pairs[k]) {
            if k > 0 { assert pairs[k] == pairs[1..][k - 1]; }
          }
        }
      }
      r
  }

  predicate RowsHave(rows: seq<Row>, p: MapPair) {
    forall i :: 0 <= i < |rows| ==> p.idColumn in rows[i] && p.valueColumn in rows[i]
  }

  /** The value cell of the first row whose id cell equals `key`; missing when no row matches. */
  function LookupRows(rows: seq<Row>, p: MapPair, key: Cell): Cell
    requires RowsHave(rows, p)
  {
    if rows == [] then None
    else if rows[0][p.idColumn] == key then rows[0][p.valueColumn]
    else LookupRows(rows[1..], p, key)
  }

  /**
   * The left lookup through one pair: the `valueColumn` cell of the map row
   * whose `idColumn` cell equals `key` (csvjoin.py:48-53).
   */
  function Lookup(m: Table, p: MapPair, key: Cell): Cell
    requires WellFormed(m) && PairPresent(m, p)
  {
    LookupRows(m.rows, p, key)
  }

  /** The anonymous temporary column of one join: one looked-up cell per target row. */
  function LeftJoin(keys: seq<Cell>, m: Table, p: MapPair): (joined: seq<Cell>)
    requires WellFormed(m) && PairPresent(m, p)
    ensures |joined| == |keys|
  {
    seq(|keys|, i requires 0 <= i < |keys| => Lookup(m, p, keys[i]))
  }

  /** pandas `mask(isnull, other)`: a present cell is kept, a missing one taken from `other`. */
  function Fill(current: seq<Cell>, other: seq<Cell>): (r: seq<Cell>)
    requires |current| == |other|
    ensures |r| == |current|
  {
    seq(|current|, i requires 0 <= i < |current| => if current[i].Some? then current[i] else other[i])
  }

  /** Filling a freshly reset column takes the other column as it is. */
  lemma FillAfterReset(other: seq<Cell>)
    ensures Fill(Nulls(|other|), other) == other
  {
    assert forall i :: 0 <= i < |other| ==> Fill(Nulls(|other|), other)[i] == other[i];
  }

  /** Filling from an all-missing column changes nothing. */
  lemma FillFromNothing(current: seq<Cell>)
    ensures Fill(current, Nulls(|current|)) == current
  {
    assert forall i :: 0 <= i < |current| ==> Fill(current, Nulls(|current|))[i] == current[i];
  }

  /** Filled cells are never overwritten, so successive fills may be grouped either way. */
  lemma FillAssociative(current: seq<Cell>, a: seq<Cell>, b: seq<Cell>)
    requires |current| == |a| == |b|
    ensures Fill(Fill(current, a), b) == Fill(current, Fill(a, b))
  {
    assert forall i :: 0 <= i < |current| ==> Fill(Fill(current, a), b)[i] == Fill(current, Fill(a, b))[i];
  }

  /** The cell the fallback chain gives for `key`: the first present value among the pairs, in declared order. */
  function FirstMatch(m: Table, pairs: seq<MapPair>, key: Cell): Cell
    requires WellFormed(m) && PairsPresent(m, pairs)
  {
    if pairs == [] then None
    else match Lookup(m, pairs[0], key)
      case Some(v) => Some(v)
      case None => FirstMatch(m, pairs[1..], key)
  }

  /** The target column after all lookups, one cell per key. */
  function Filled(keys: seq<Cell>, m: Table, pairs: seq<MapPair>): (col: seq<Cell>)
    requires WellFormed(m) && PairsPresent(m, pairs)
    ensures |col| == |keys|
  {
    seq(|keys|, i requires 0 <= i < |keys| => FirstMatch(m, pairs, keys[i]))
  }

  /**
   * The result of one column set (csvjoin.py:35-62). The keys are the source
   * id cells as they stood before the target column was reset; on success
   * the target column holds the filled and transformed cells and nothing
   * else changes.
   */
  function ColumnSetApplied(t: Table, m: Table, cs: ColumnSet): (r: Result<Table, Error>)
    requires WellFormed(t) && WellFormed(m)
    ensures r.Ok? ==> WellFormed(r.value) && |r.value.rows| == |t.rows|
    ensures r.Ok? ==> r.value.columns == WithColumn(t.columns, cs.targetColumn)
    ensures r.Ok? ==> forall i, c :: 0 <= i < |t.rows| && c in t.columns && c != cs.targetColumn ==>
                        r.value.rows[i][c] == t.rows[i][c]
  {
    if cs.sourceIdColumn !in t.columns then Err(MissingColumn(cs.sourceIdColumn))
    else match MissingMapColumn(m, cs.mapColumns)
      case Some(c) => Err(MissingColumn(c))
      case None =>
        var filled := Filled(Column(t, cs.sourceIdColumn), m, cs.mapColumns);
        match Transformed(filled, cs.transformers)
        case Err(e) => Err(e)
        case Ok(col) =>
          TransformedMeaning(filled, cs.transformers);
          Ok(SetColumn(t, cs.targetColumn, col))
  }

  /** The result of the whole run: the column sets in list order, each on the table the previous one produced. */
  function Generated(t: Table, m: Table, sets: seq<ColumnSet>): (r: Result<Table, Error>)
    requires WellFormed(t) && WellFormed(m)
    ensures r.Ok? ==> WellFormed(r.value) && |r.value.rows| == |t.rows|
    decreases |sets|
  {
    if sets == [] then Ok(t)
    else match ColumnSetApplied(t, m, sets[0])
      case Err(e) => Err(e)
      case Ok(next) => Generated(next, m, sets[1..])
  }

  /** Extending the fallback chain by one pair fills only what the chain left missing. */
  lemma {:induction false} FirstMatchSnoc(m: Table, pairs: seq<MapPair>, p: MapPair, key: Cell)
    requires WellFormed(m) && PairsPresent(m, pairs + [p])
    ensures PairsPresent(m, pairs) && PairPresent(m, p)
    ensures FirstMatch(m, pairs + [p], key) ==
      if FirstMatch(m, pairs, key).Some? then FirstMatch(m, pairs, key) else Lookup(m, p, key)
    decreases |pairs|
  {
    assert forall k :: 0 <= k < |pairs| ==> (pairs + [p])[k] == pairs[k];
    assert (pairs + [p])[|pairs|] == p;
    if pairs != [] {
      assert (pairs + [p])[1..] == pairs[1..] + [p];
      FirstMatchSnoc(m, pairs[1..], p, key);
    } else {
      assert (pairs + [p])[1..] == [];
    }
  }

  /**
   * One column set as the source runs it (csvjoin.py:35-62): snapshot the
   * source ids, reset the target column, join and fill through each pair in
   * order, then transform if transformers are listed.
   */
  method ApplyColumnSet(t: Table, m: Table, cs: ColumnSet) returns (r: Result<Table, Error>)
    requires WellFormed(t) && WellFormed(m) && Admissible(m, cs)
    ensures r == ColumnSetApplied(t, m, cs)
  {
    if cs.sourceIdColumn !in t.columns {
      return Err(MissingColumn(cs.sourceIdColumn));
    }
    var keys := Column(t, cs.sourceIdColumn);
    var target := SetColumn(t, cs.targetColumn, Nulls(|t.rows|));
    var pairs := cs.mapColumns;
    assert Nulls(|t.rows|) == Filled(keys, m, pairs[..0]);
    for k := 0 to |pairs|
      invariant PairsPresent(m, pairs[..k])
      invariant MissingMapColumn(m, pairs) == MissingMapColumn(m, pairs[k..])
      invariant target == SetColumn(t, cs.targetColumn, Filled(keys, m, pairs[..k]))
    {
      var p := pairs[k];
      assert pairs[k..][0] == p && pairs[k..][1..] == pairs[k + 1..];
      if p.idColumn !in m.columns {
        return Err(MissingColumn(p.idColumn));
      }
      if p.valueColumn !in m.columns {
        return Err(MissingColumn(p.valueColumn));
      }
      assert pairs[..k + 1] == pairs[..k] + [p];
      var before := Filled(keys, m, pairs[..k]);
      var joined := LeftJoin(keys, m, p);
      ColumnOfSetColumn(t, cs.targetColumn, before);
      var after := Fill(Column(target, cs.targetColumn), joined);
      forall i | 0 <= i < |keys| ensures after[i] == Filled(keys, m, pairs[..k + 1])[i] {
        FirstMatchSnoc(m, pairs[..k], p, keys[i]);
      }
      assert after == Filled(keys, m, pairs[..k + 1]);
      SetColumnTwice(t, cs.targetColumn, before, after);
      target := SetColumn(target, cs.targetColumn, after);
    }
    assert pairs[..|pairs|] == pairs;
    var filled := Filled(keys, m, pairs);
    ColumnOfSetColumn(t, cs.targetColumn, filled);
    if cs.transformers != [] {
      var transformed := Transform(Column(target, cs.targetColumn), cs.transformers);
      match transformed {
        case Err(e) =>
          return Err(e);
        case Ok(col) =>
          TransformedMeaning(filled, cs.transformers);
          SetColumnTwice(t, cs.targetColumn, filled, col);
          target := SetColumn(target, cs.targetColumn, col);
      }
    } else {
      TransformedNoNames(filled);
    }
    r := Ok(target);
  }

  /**
   * The engine (csvjoin.py:33-64): each column set in list order, each on the
   * table the previous one left; the first failure ends the run.
   */
  method Generate(target: Table, m: Table, sets: seq<ColumnSet>) returns (r: Result<Table, Error>)
    requires WellFormed(target) && WellFormed(m)
    requires forall k :: 0 <= k < |sets| ==> Admissible(m, sets[k])
    ensures r == Generated(target, m, sets)
  {
    var current := target;
    for i := 0 to |sets|
      invariant WellFormed(current)
      invariant Generated(target, m, sets) == Generated(current, m, sets[i..])
    {
      assert sets[i..][0] == sets[i] && sets[i..][1..] == sets[i + 1..];
      var step := ApplyColumnSet(current, m, sets[i]);
      match step {
        case Err(e) =>
          return Err(e);
        case Ok(next) =>
          current := next;
      }
    }
    assert sets[|sets|..] == [];
    r := Ok(current);
  }

  /** Some pair of some column set names `c` as its id or value column. */
  predicate ReadBy(sets: seq<ColumnSet>, c: string) {
    exists k, j :: 0 <= k < |sets| && 0 <= j < |sets[k].mapColumns| &&
      (c == sets[k].mapColumns[j].idColumn || c == sets[k].mapColumns[j].valueColumn)
  }

  /** The columns `map_columns` names, id then value, pair by pair. */
  function PairColumns(pairs: seq<MapPair>): (cols: seq<string>)
    ensures |cols| == 2 * |pairs|
    ensures forall k :: 0 <= k < |pairs| ==> cols[2 * k] == pairs[k].idColumn && cols[2 * k + 1] == pairs[k].valueColumn
  {
    if pairs == [] then []
    else
      var rest := PairColumns(pairs[1..]);
      assert forall k :: 1 <= k < |pairs| ==> pairs[k] == pairs[1..][k - 1];
      [pairs[0].idColumn, pairs[0].valueColumn] + rest
  }

  /**
   * The flattened list of every map column the column sets read
   * (csvjoin.py:29): exactly the id and value columns of their pairs.
   */
  function MapColumnsToRead(sets: seq<ColumnSet>): (cols: seq<string>)
    ensures forall k, j :: 0 <= k < |sets| && 0 <= j < |sets[k].mapColumns| ==>
      sets[k].mapColumns[j].idColumn in cols && sets[k].mapColumns[j].valueColumn in cols
    ensures forall c :: c in cols ==> ReadBy(sets, c)
  {
    if sets == [] then []
    else
      var head := PairColumns(sets[0].mapColumns);
      var rest := MapColumnsToRead(sets[1..]);
      MapColumnsToReadStep(sets, head, rest);
      head + rest
  }

  lemma MapColumnsToReadStep(sets: seq<ColumnSet>, head: seq<string>, rest: seq<string>)
    requires sets != [] && head == PairColumns(sets[0].mapColumns)
    requires forall k, j :: 0 <= k < |sets[1..]| && 0 <= j < |sets[1..][k].mapColumns| ==>
      sets[1..][k].mapColumns[j].idColumn in rest && sets[1..][k].mapColumns[j].valueColumn in rest
    requires forall c :: c in rest ==> ReadBy(sets[1..], c)
    ensures forall k, j :: 0 <= k < |sets| && 0 <= j < |sets[k].mapColumns| ==>
      sets[k].mapColumns[j].idColumn in head + rest && sets[k].mapColumns[j].valueColumn in head + rest
    ensures forall c :: c in head + rest ==> ReadBy(sets, c)
  {
    var pairs := sets[0].mapColumns;
    forall k, j | 0 <= k < |sets| && 0 <= j < |sets[k].mapColumns|
      ensures sets[k].mapColumns[j].idColumn in head + rest && sets[k].mapColumns[j].valueColumn in head + rest
    {
      if k == 0 {
        assert head[2 * j] == pairs[j].idColumn && head[2 * j + 1] == pairs[j].valueColumn;
      } else {
        assert sets[k] == sets[1..][k - 1];
      }
    }
    forall c | c in head + rest ensures ReadBy(sets, c) {
      if c in head {
        var n :| 0 <= n < |head| && head[n] == c;
        var j := n / 2;
        assert n == 2 * j || n == 2 * j + 1;
        assert c == pairs[j].idColumn || c == pairs[j].valueColumn;
      } else {
        assert c in rest;
        var k, j :| 0 <= k < |sets[1..]| && 0 <= j < |sets[1..][k].mapColumns| &&
          (c == sets[1..][k].mapColumns[j].idColumn || c == sets[1..][k].mapColumns[j].valueColumn);
        assert sets[1..][k] == sets[k + 1];
      }
    }
  }
}
