/** Three worked runs of the engine: a one-pair join with `flip_names`, a two-pair fallback, an unknown transformer. */
module Scenarios {
  import opened Wrappers
  import opened Failures
  import opened Tables
  import opened StringOps
  import opened Transformers
  import opened Join
  import opened JoinProperties

  function TargetA(): Table {
    Table(["id"], [map["id" := Some("1")], map["id" := Some("2")], map["id" := Some("3")]])
  }

  function MapA(): Table {
    Table(["id", "name"], [
      map["id" := Some("1"), "name" := Some("Doe, Jane")],
      map["id" := Some("2"), "name" := Some("Roe, Rich")]])
  }

  function SetA(): ColumnSet {
    ColumnSet("id", [MapPair("id", "name")], "full_name", ["flip_names"])
  }

  lemma ScenarioTablesWellFormed()
    ensures WellFormed(TargetA()) && WellFormed(MapA())
    ensures PairsPresent(MapA(), SetA().mapColumns) && UniqueValues(MapA(), "id")
  {
    var t, m := TargetA(), MapA();
    assert t.rows[0].Keys == {"id"} && t.rows[1].Keys == {"id"} && t.rows[2].Keys == {"id"};
    assert m.rows[0].Keys == {"id", "name"} && m.rows[1].Keys == {"id", "name"};
  }

  lemma ScenarioLookups()
    requires WellFormed(MapA()) && PairsPresent(MapA(), SetA().mapColumns) && UniqueValues(MapA(), "id")
    ensures FirstMatch(MapA(), SetA().mapColumns, Some("1")) == Some("Doe, Jane")
    ensures FirstMatch(MapA(), SetA().mapColumns, Some("2")) == Some("Roe, Rich")
    ensures FirstMatch(MapA(), SetA().mapColumns, Some("3")) == None
  {
    var m, p := MapA(), MapPair("id", "name");
    LookupFindsMatchingRow(m, p, Some("1"), 0);
    LookupFindsMatchingRow(m, p, Some("2"), 1);
    LookupWithoutMatchingRow(m, p, Some("3"));
    assert [p][1..] == [];
  }

  lemma FlipsCell(last: string, first: string)
    requires forall j :: 0 <= j < |last| ==> last[j] != ','
    requires forall j :: 0 <= j < |first| ==> first[j] != ','
    ensures ApplyAllCell([FlipNames], Some(last + ", " + first)) == Some(first + " " + last)
  {
    NoCommaNoSeparator(last);
    NoCommaNoSeparator(first);
    FlipNameSwaps(last, first);
    assert [FlipNames][..0] == [];
  }

  lemma ScenarioFlips()
    ensures ApplyAllCell([FlipNames], Some("Doe, Jane")) == Some("Jane Doe")
    ensures ApplyAllCell([FlipNames], Some("Roe, Rich")) == Some("Rich Roe")
  {
    FlipsCell("Doe", "Jane");
    assert "Doe" + ", " + "Jane" == "Doe, Jane" && "Jane" + " " + "Doe" == "Jane Doe";
    FlipsCell("Roe", "Rich");
    assert "Roe" + ", " + "Rich" == "Roe, Rich" && "Rich" + " " + "Roe" == "Rich Roe";
  }

  /** Ids 1 and 2 get the flipped names, id 3 matches nothing and stays missing. */
  lemma ScenarioFlipNames()
    ensures WellFormed(TargetA()) && WellFormed(MapA())
    ensures Generated(TargetA(), MapA(), [SetA()]).Ok?
    ensures Generated(TargetA(), MapA(), [SetA()]).value.columns == ["id", "full_name"]
    ensures Generated(TargetA(), MapA(), [SetA()]).value.rows[0]["full_name"] == Some("Jane Doe")
    ensures Generated(TargetA(), MapA(), [SetA()]).value.rows[1]["full_name"] == Some("Rich Roe")
    ensures Generated(TargetA(), MapA(), [SetA()]).value.rows[2]["full_name"] == None
  {
    var t, m, cs := TargetA(), MapA(), SetA();
    ScenarioTablesWellFormed();
    ResolveAllKnown(cs.transformers, [FlipNames]);
    ColumnSetSucceedsIff(t, m, cs);
    assert Generated(t, m, [cs]) == ColumnSetApplied(t, m, cs) by {
      assert [cs][1..] == [];
    }
    ColumnSetFillsTarget(t, m, cs, 0);
    ColumnSetFillsTarget(t, m, cs, 1);
    ColumnSetFillsTarget(t, m, cs, 2);
    ScenarioLookups();
    ScenarioFlips();
  }

  /** The column the flip-names run hands to `flip_names`; the loop as written fails on its third, unmatched cell. */
  lemma ScenarioFlipNamesAsWritten()
    ensures TransformedAsWritten([Some("Doe, Jane"), Some("Roe, Rich"), None], ["flip_names"]) ==
      Err(TransformerFailed("flip_names"))
  {
    AsWrittenFailsOnMissingCell([Some("Doe, Jane"), Some("Roe, Rich"), None], ["flip_names"], 2);
  }

  function TargetB(): Table {
    Table(["id"], [map["id" := Some("1")]])
  }

  function MapB(): Table {
    Table(["id", "v1", "v2"], [map["id" := Some("1"), "v1" := None, "v2" := Some("X")]])
  }

  function SetB(): ColumnSet {
    ColumnSet("id", [MapPair("id", "v1"), MapPair("id", "v2")], "value", [])
  }

  /** The first pair finds the row but its value is missing, so the second pair fills the cell. */
  lemma ScenarioFallback()
    ensures WellFormed(TargetB()) && WellFormed(MapB())
    ensures Generated(TargetB(), MapB(), [SetB()]).Ok?
    ensures Generated(TargetB(), MapB(), [SetB()]).value.rows[0]["value"] == Some("X")
  {
    var t, m, cs := TargetB(), MapB(), SetB();
    assert t.rows[0].Keys == {"id"};
    assert WellFormed(t);
    assert m.rows[0].Keys == {"id", "v1", "v2"};
    assert WellFormed(m);
    assert PairsPresent(m, cs.mapColumns);
    ColumnSetSucceedsIff(t, m, cs);
    assert Generated(t, m, [cs]) == ColumnSetApplied(t, m, cs) by {
      assert [cs][1..] == [];
    }
    ColumnSetWithoutTransformers(t, m, cs, 0);
    assert UniqueValues(m, "id");
    LookupFindsMatchingRow(m, cs.mapColumns[0], Some("1"), 0);
    LookupFindsMatchingRow(m, cs.mapColumns[1], Some("1"), 0);
    FirstMatchTakesFirstHit(m, cs.mapColumns, Some("1"), 1);
  }

  function SetC(): ColumnSet {
    ColumnSet("id", [MapPair("id", "name")], "full_name", ["does_not_exist"])
  }

  /** An unregistered transformer name fails the run; no table comes back. */
  lemma ScenarioUnknownTransformer()
    ensures WellFormed(TargetA()) && WellFormed(MapA())
    ensures Generated(TargetA(), MapA(), [SetC()]) == Err(UnknownTransformer("does_not_exist"))
  {
    var t, m, cs := TargetA(), MapA(), SetC();
    assert t.rows[0].Keys == {"id"} && t.rows[1].Keys == {"id"} && t.rows[2].Keys == {"id"};
    assert WellFormed(t);
    assert m.rows[0].Keys == {"id", "name"} && m.rows[1].Keys == {"id", "name"};
    assert WellFormed(m);
    assert PairsPresent(m, cs.mapColumns);
    ColumnSetUnknownTransformer(t, m, cs, 0);
  }
}
