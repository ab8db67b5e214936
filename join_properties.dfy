/** What the join engine guarantees: lookups, fallback order, reset, row and column preservation, ordering and failure. */
module JoinProperties {
  import opened Wrappers
  import opened Failures
  import opened Tables
  import opened Transformers
  import opened Join

  // ---------------------------------------------------------------- lookups

  lemma {:induction false} LookupRowsFinds(rows: seq<Row>, p: MapPair, key: Cell, i: nat)
    requires RowsHave(rows, p)
    requires forall a, b :: 0 <= a < b < |rows| ==> rows[a][p.idColumn] != rows[b][p.idColumn]
    requires i < |rows| && rows[i][p.idColumn] == key
    ensures LookupRows(rows, p, key) == rows[i][p.valueColumn]
    decreases |rows|
  {
    if i > 0 {
      assert rows[0][p.idColumn] != key;
      LookupRowsFinds(rows[1..], p, key, i - 1);
    }
  }

  lemma {:induction false} LookupRowsMisses(rows: seq<Row>, p: MapPair, key: Cell)
    requires RowsHave(rows, p)
    requires forall i :: 0 <= i < |rows| ==> rows[i][p.idColumn] != key
    ensures LookupRows(rows, p, key).None?
    decreases |rows|
  {
    if rows != [] {
      LookupRowsMisses(rows[1..], p, key);
    }
  }

  /** With unique map ids, the lookup returns the value cell of the one map row whose id equals the key. */
  lemma LookupFindsMatchingRow(m: Table, p: MapPair, key: Cell, i: nat)
    requires WellFormed(m) && PairPresent(m, p) && UniqueValues(m, p.idColumn)
    requires i < |m.rows| && m.rows[i][p.idColumn] == key
    ensures Lookup(m, p, key) == m.rows[i][p.valueColumn]
  {
    LookupRowsFinds(m.rows, p, key, i);
  }

  /** A key that no map row carries looks up a missing cell. */
  lemma LookupWithoutMatchingRow(m: Table, p: MapPair, key: Cell)
    requires WellFormed(m) && PairPresent(m, p)
    requires forall i :: 0 <= i < |m.rows| ==> m.rows[i][p.idColumn] != key
    ensures Lookup(m, p, key).None?
  {
    LookupRowsMisses(m.rows, p, key);
  }

  // ---------------------------------------------------------- fallback order

  /** The first pair, in declared order, whose lookup is present decides the cell. */
  lemma {:induction false} FirstMatchTakesFirstHit(m: Table, pairs: seq<MapPair>, key: Cell, k: nat)
    requires WellFormed(m) && PairsPresent(m, pairs) && k < |pairs|
    requires Lookup(m, pairs[k], key).Some?
    requires forall j :: 0 <= j < k ==> Lookup(m, pairs[j], key).None?
    ensures FirstMatch(m, pairs, key) == Lookup(m, pairs[k], key)
    decreases k
  {
    if k > 0 {
      assert forall j :: 0 <= j < |pairs[1..]| ==> pairs[1..][j] == pairs[j + 1];
      FirstMatchTakesFirstHit(m, pairs[1..], key, k - 1);
    }
  }

  /** A present result comes from some pair all of whose predecessors looked up nothing. */
  lemma {:induction false} FirstMatchComesFromFirstHit(m: Table, pairs: seq<MapPair>, key: Cell)
    requires WellFormed(m) && PairsPresent(m, pairs)
    requires FirstMatch(m, pairs, key).Some?
    ensures
      exists k :: 0 <= k < |pairs| && FirstMatch(m, pairs, key) == Lookup(m, pairs[k], key) &&
        forall j :: 0 <= j < k ==> Lookup(m, pairs[j], key).None?
    decreases |pairs|
  {
    if Lookup(m, pairs[0], key).None? {
      assert forall j :: 0 <= j < |pairs[1..]| ==> pairs[1..][j] == pairs[j + 1];
      FirstMatchComesFromFirstHit(m, pairs[1..], key);
      var k :| 0 <= k < |pairs[1..]| && FirstMatch(m, pairs[1..], key) == Lookup(m, pairs[1..][k], key) &&
        forall j :: 0 <= j < k ==> Lookup(m, pairs[1..][j], key).None?;
      assert FirstMatch(m, pairs, key) == Lookup(m, pairs[k + 1], key);
      assert forall j :: 0 <= j < k + 1 ==> Lookup(m, pairs[j], key).None?;
    } else {
      assert FirstMatch(m, pairs, key) == Lookup(m, pairs[0], key);
    }
  }

  /** The chain yields a missing cell exactly when every pair looks up a missing cell. */
  lemma {:induction false} FirstMatchMissingIff(m: Table, pairs: seq<MapPair>, key: Cell)
    requires WellFormed(m) && PairsPresent(m, pairs)
    ensures FirstMatch(m, pairs, key).None? <==> forall k :: 0 <= k < |pairs| ==> Lookup(m, pairs[k], key).None?
    decreases |pairs|
  {
    if pairs != [] {
      assert forall j :: 0 <= j < |pairs[1..]| ==> pairs[1..][j] == pairs[j + 1];
      FirstMatchMissingIff(m, pairs[1..], key);
    }
  }

  /** Once the first `k` pairs have filled a cell, no later pair changes it. */
  lemma FirstMatchNeverOverwritten(m: Table, pairs: seq<MapPair>, key: Cell, k: nat)
    requires WellFormed(m) && PairsPresent(m, pairs) && k <= |pairs|
    ensures PairsPresent(m, pairs[..k])
    ensures FirstMatch(m, pairs[..k], key).Some? ==> FirstMatch(m, pairs, key) == FirstMatch(m, pairs[..k], key)
  {
    var prefix := pairs[..k];
    assert forall j :: 0 <= j < k ==> prefix[j] == pairs[j];
    if FirstMatch(m, prefix, key).Some? {
      FirstMatchComesFromFirstHit(m, prefix, key);
      var h :| 0 <= h < |prefix| && FirstMatch(m, prefix, key) == Lookup(m, prefix[h], key) &&
        forall j :: 0 <= j < h ==> Lookup(m, prefix[j], key).None?;
      FirstMatchTakesFirstHit(m, pairs, key, h);
    }
  }

  /**
   * The column the source builds: start from a reset column and, pair by
   * pair in declared order, fill what is still missing from that pair's join.
   */
  function MaskSteps(keys: seq<Cell>, m: Table, pairs: seq<MapPair>): (col: seq<Cell>)
    requires WellFormed(m) && PairsPresent(m, pairs)
    ensures |col| == |keys|
    decreases |pairs|
  {
    if pairs == [] then Nulls(|keys|)
    else
      var init := pairs[..|pairs| - 1];
      assert forall j :: 0 <= j < |init| ==> init[j] == pairs[j];
      Fill(MaskSteps(keys, m, init), LeftJoin(keys, m, pairs[|pairs| - 1]))
  }

  /** Filling pair by pair gives, in every row, the first hit of the fallback chain. */
  lemma {:induction false} FilledIsMaskSteps(keys: seq<Cell>, m: Table, pairs: seq<MapPair>)
    requires WellFormed(m) && PairsPresent(m, pairs)
    ensures MaskSteps(keys, m, pairs) == Filled(keys, m, pairs)
    decreases |pairs|
  {
    if pairs == [] {
      assert forall i :: 0 <= i < |keys| ==> Filled(keys, m, pairs)[i] == None;
    } else {
      var init := pairs[..|pairs| - 1];
      var p := pairs[|pairs| - 1];
      assert pairs == init + [p];
      FilledIsMaskSteps(keys, m, init);
      forall i | 0 <= i < |keys| ensures MaskSteps(keys, m, pairs)[i] == Filled(keys, m, pairs)[i] {
        FirstMatchSnoc(m, init, p, keys[i]);
      }
    }
  }

  /** Seen from the front: the first pair's join, filled where it is missing from the rest of the chain. */
  lemma FilledFromTheFront(keys: seq<Cell>, m: Table, p: MapPair, rest: seq<MapPair>)
    requires WellFormed(m) && PairsPresent(m, [p] + rest)
    ensures PairPresent(m, p) && PairsPresent(m, rest)
    ensures Filled(keys, m, [p] + rest) == Fill(LeftJoin(keys, m, p), Filled(keys, m, rest))
  {
    assert ([p] + rest)[0] == p && ([p] + rest)[1..] == rest;
    assert forall j :: 0 <= j < |rest| ==> rest[j] == ([p] + rest)[j + 1];
    assert forall i :: 0 <= i < |keys| ==>
      Filled(keys, m, [p] + rest)[i] == Fill(LeftJoin(keys, m, p), Filled(keys, m, rest))[i];
  }

  // --------------------------------------------------------- one column set

  /** A column set succeeds exactly when its columns exist and all its transformer names are registered. */
  lemma ColumnSetSucceedsIff(t: Table, m: Table, cs: ColumnSet)
    requires WellFormed(t) && WellFormed(m)
    ensures ColumnSetApplied(t, m, cs).Ok? <==>
      cs.sourceIdColumn in t.columns && PairsPresent(m, cs.mapColumns) &&
      forall j :: 0 <= j < |cs.transformers| ==> Resolve(cs.transformers[j]).Some?
  {
    if cs.sourceIdColumn in t.columns && PairsPresent(m, cs.mapColumns) {
      TransformedMeaning(Filled(Column(t, cs.sourceIdColumn), m, cs.mapColumns), cs.transformers);
    }
  }

  /** The failures of a column set, in the order the source meets them. */
  lemma ColumnSetFailures(t: Table, m: Table, cs: ColumnSet)
    requires WellFormed(t) && WellFormed(m)
    ensures cs.sourceIdColumn !in t.columns ==> ColumnSetApplied(t, m, cs) == Err(MissingColumn(cs.sourceIdColumn))
    ensures cs.sourceIdColumn in t.columns && !PairsPresent(m, cs.mapColumns) ==>
      ColumnSetApplied(t, m, cs).Err? && ColumnSetApplied(t, m, cs).error.MissingColumn? &&
      ColumnSetApplied(t, m, cs).error.name !in m.columns
  {
  }

  /** An unregistered transformer fails the column set with that name; no column is produced. */
  lemma ColumnSetUnknownTransformer(t: Table, m: Table, cs: ColumnSet, k: nat)
    requires WellFormed(t) && WellFormed(m)
    requires cs.sourceIdColumn in t.columns && PairsPresent(m, cs.mapColumns)
    requires k < |cs.transformers| && FirstUnknownAt(cs.transformers, k)
    ensures ColumnSetApplied(t, m, cs) == Err(UnknownTransformer(cs.transformers[k]))
  {
    ResolveAllStopsAt(cs.transformers, k);
  }

  /**
   * On success, a row's target cell is the fallback chain's result for the
   * row's source id, put through the listed transformers in order.
   */
  lemma ColumnSetFillsTarget(t: Table, m: Table, cs: ColumnSet, i: nat)
    requires WellFormed(t) && WellFormed(m)
    requires ColumnSetApplied(t, m, cs).Ok? && i < |t.rows|
    ensures cs.sourceIdColumn in t.columns && PairsPresent(m, cs.mapColumns) && ResolveAll(cs.transformers).Ok?
    ensures ColumnSetApplied(t, m, cs).value.rows[i][cs.targetColumn] ==
      ApplyAllCell(ResolveAll(cs.transformers).value, FirstMatch(m, cs.mapColumns, t.rows[i][cs.sourceIdColumn]))
  {
  }

  /** Without transformers the target cell is exactly the fallback chain's result. */
  lemma ColumnSetWithoutTransformers(t: Table, m: Table, cs: ColumnSet, i: nat)
    requires WellFormed(t) && WellFormed(m) && cs.transformers == []
    requires ColumnSetApplied(t, m, cs).Ok? && i < |t.rows|
    ensures cs.sourceIdColumn in t.columns && PairsPresent(m, cs.mapColumns)
    ensures ColumnSetApplied(t, m, cs).value.rows[i][cs.targetColumn] ==
      FirstMatch(m, cs.mapColumns, t.rows[i][cs.sourceIdColumn])
  {
    ColumnSetFillsTarget(t, m, cs, i);
    assert ResolveAll([]) == Ok([]);
    var c := FirstMatch(m, cs.mapColumns, t.rows[i][cs.sourceIdColumn]);
    if c.Some? { assert ApplyAll([], c.value) == c.value; }
  }

  /**
   * The target column starts from nothing: a row that every pair leaves
   * unmatched ends missing, whatever the column held before.
   */
  lemma ColumnSetResetsTarget(t: Table, m: Table, cs: ColumnSet, i: nat)
    requires WellFormed(t) && WellFormed(m)
    requires ColumnSetApplied(t, m, cs).Ok? && i < |t.rows|
    requires cs.sourceIdColumn in t.columns && PairsPresent(m, cs.mapColumns)
    requires forall k :: 0 <= k < |cs.mapColumns| ==> Lookup(m, cs.mapColumns[k], t.rows[i][cs.sourceIdColumn]).None?
    ensures ColumnSetApplied(t, m, cs).value.rows[i][cs.targetColumn].None?
  {
    FirstMatchMissingIff(m, cs.mapColumns, t.rows[i][cs.sourceIdColumn]);
    ColumnSetFillsTarget(t, m, cs, i);
  }

  // ---------------------------------------------------------- the whole run

  /** The target columns of the column sets, in order. */
  function Targets(sets: seq<ColumnSet>): (r: seq<string>)
    ensures |r| == |sets| && forall k :: 0 <= k < |sets| ==> r[k] == sets[k].targetColumn
  {
    seq(|sets|, k requires 0 <= k < |sets| => sets[k].targetColumn)
  }

  /**
   * Rows and columns after a successful run: the same rows in the same order,
   * every cell outside the target columns unchanged; the old header kept as a
   * prefix, extended by the target columns and nothing else.
   */
  lemma {:induction false} GeneratedShape(t: Table, m: Table, sets: seq<ColumnSet>)
    requires WellFormed(t) && WellFormed(m) && Generated(t, m, sets).Ok?
    ensures |Generated(t, m, sets).value.rows| == |t.rows|
    ensures t.columns <= Generated(t, m, sets).value.columns
    ensures forall c :: c in Generated(t, m, sets).value.columns <==> c in t.columns || c in Targets(sets)
    ensures forall i, c :: 0 <= i < |t.rows| && c in t.columns && c !in Targets(sets) ==>
      Generated(t, m, sets).value.rows[i][c] == t.rows[i][c]
    decreases |sets|
  {
    if sets != [] {
      var next := ColumnSetApplied(t, m, sets[0]).value;
      var out := Generated(t, m, sets).value;
      assert Generated(next, m, sets[1..]) == Generated(t, m, sets);
      GeneratedShape(next, m, sets[1..]);
      assert forall c :: c in Targets(sets) <==> c == sets[0].targetColumn || c in Targets(sets[1..]) by {
        assert Targets(sets) == [sets[0].targetColumn] + Targets(sets[1..]);
      }
      assert t.columns <= next.columns;
      assert next.columns <= out.columns;
      forall i, c | 0 <= i < |t.rows| && c in t.columns && c !in Targets(sets)
        ensures out.rows[i][c] == t.rows[i][c]
      {
        assert c in next.columns && c !in Targets(sets[1..]);
      }
    }
  }

  /** Running `s1 ++ s2` is running `s1`, then `s2` on its result; a failure in `s1` ends the run. */
  lemma {:induction false} GeneratedInOrder(t: Table, m: Table, s1: seq<ColumnSet>, s2: seq<ColumnSet>)
    requires WellFormed(t) && WellFormed(m)
    ensures Generated(t, m, s1 + s2) ==
      match Generated(t, m, s1)
      case Err(e) => Err(e)
      case Ok(mid) => Generated(mid, m, s2)
    decreases |s1|
  {
    if s1 == [] {
      assert s1 + s2 == s2;
    } else {
      assert (s1 + s2)[0] == s1[0] && (s1 + s2)[1..] == s1[1..] + s2;
      match ColumnSetApplied(t, m, s1[0])
      case Err(e) =>
      case Ok(next) =>
        GeneratedInOrder(next, m, s1[1..], s2);
    }
  }

  /**
   * A later column set can key on a column an earlier set wrote: when the
   * second set's source id is the first set's target, its lookup key for a
   * row is the value the first set filled in and transformed.
   */
  lemma GeneratedChains(t: Table, m: Table, first: ColumnSet, second: ColumnSet, i: nat)
    requires WellFormed(t) && WellFormed(m)
    requires second.sourceIdColumn == first.targetColumn
    requires Generated(t, m, [first, second]).Ok? && i < |t.rows|
    ensures first.sourceIdColumn in t.columns && PairsPresent(m, first.mapColumns) && PairsPresent(m, second.mapColumns)
    ensures ResolveAll(first.transformers).Ok? && ResolveAll(second.transformers).Ok?
    ensures second.targetColumn in Generated(t, m, [first, second]).value.columns
    ensures Generated(t, m, [first, second]).value.rows[i][second.targetColumn] ==
      ApplyAllCell(ResolveAll(second.transformers).value,
        FirstMatch(m, second.mapColumns,
          ApplyAllCell(ResolveAll(first.transformers).value,
            FirstMatch(m, first.mapColumns, t.rows[i][first.sourceIdColumn]))))
  {
    assert [first, second][1..] == [second] && [second][1..] == [];
    var mid := ColumnSetApplied(t, m, first).value;
    assert Generated(t, m, [first, second]) == Generated(mid, m, [second]);
    assert Generated(mid, m, [second]) == ColumnSetApplied(mid, m, second);
    ColumnSetFillsTarget(t, m, first, i);
    ColumnSetFillsTarget(mid, m, second, i);
  }

  /** A run that succeeds used only registered transformer names. */
  lemma {:induction false} GeneratedOnlyKnownTransformers(t: Table, m: Table, sets: seq<ColumnSet>)
    requires WellFormed(t) && WellFormed(m) && Generated(t, m, sets).Ok?
    ensures forall k, j :: 0 <= k < |sets| && 0 <= j < |sets[k].transformers| ==> Resolve(sets[k].transformers[j]).Some?
    decreases |sets|
  {
    if sets != [] {
      ColumnSetSucceedsIff(t, m, sets[0]);
      var next := ColumnSetApplied(t, m, sets[0]).value;
      GeneratedOnlyKnownTransformers(next, m, sets[1..]);
      assert forall k :: 1 <= k < |sets| ==> sets[k] == sets[1..][k - 1];
    }
  }
}
