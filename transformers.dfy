/** The transformer registry and the transform pipeline applied to a column after its lookups. */
module Transformers {
  import opened Wrappers
  import opened Failures
  import opened Tables
  import opened StringOps

  /** The registered transformers; the registry holds exactly one. */
  datatype Transformer = FlipNames

  /** The registry: the transformer registered under `name`, if any. */
  function Resolve(name: string): Option<Transformer> {
    if name == "flip_names" then Some(FlipNames) else None
  }

  /** `flip_names`: split on ", ", reverse the pieces, join them with one space. */
  function FlipName(s: string): string {
    Join(Reverse(Split(s, ", ")), " ")
  }

  function Apply(t: Transformer, s: string): string {
    match t
    case FlipNames => FlipName(s)
  }

  /** A name without ", " is left as it is. */
  lemma FlipNameWithoutSeparator(s: string)
    requires !Contains(s, ", ")
    ensures FlipName(s) == s
  {
    SplitWithoutSeparator(s, ", ");
  }

  /** "Last, First" becomes "First Last". */
  lemma FlipNameSwaps(last: string, first: string)
    requires !Contains(last, ", ") && !Contains(first, ", ")
    ensures FlipName(last + ", " + first) == first + " " + last
  {
    var s := last + ", " + first;
    SplitCommaPair(last, first);
    assert Split(s, ", ") == [last, first];
    assert Reverse([last, first]) == [first, last];
    assert [first, last][1..] == [last];
    assert Join([first, last], " ") == first + " " + last;
    assert FlipName(s) == Join(Reverse(Split(s, ", ")), " ");
  }

  /** The pieces of the flipped name are the ", "-free pieces of the input, in reverse order. */
  lemma FlipNamePieces(s: string)
    ensures var pieces := Split(s, ", ");
      Join(pieces, ", ") == s &&
      (forall k :: 0 <= k < |pieces| ==> !Contains(pieces[k], ", ")) &&
      FlipName(s) == Join(Reverse(pieces), " ")
  {
    JoinSplit(s, ", ");
    SplitPiecesAreFree(s, ", ");
  }

  /** Any ", "-free pieces joined by ", " come back space-joined in reverse order. */
  lemma FlipNameReversesPieces(pieces: seq<string>)
    requires |pieces| >= 1
    requires forall k :: 0 <= k < |pieces| ==> !Contains(pieces[k], ", ")
    ensures FlipName(Join(pieces, ", ")) == Join(Reverse(pieces), " ")
  {
    SplitJoin(pieces);
  }

  /**
   * Resolves every name in list order; the first name the registry does not
   * hold stops the resolution with UnknownTransformer.
   */
  function ResolveAll(names: seq<string>): (r: Result<seq<Transformer>, Error>)
    ensures r.Ok? ==> (|r.value| == |names| &&
      forall i :: 0 <= i < |names| ==> Resolve(names[i]) == Some(r.value[i]))
    ensures r.Err? ==>
      exists k :: 0 <= k < |names| && FirstUnknownAt(names, k) && r.error == UnknownTransformer(names[k])
  {
    if names == [] then Ok([])
    else match Resolve(names[0])
      case None => Err(UnknownTransformer(names[0]))
      case Some(t) =>
        match ResolveAll(names[1..])
        case Err(e) =>
          ResolveAllErrShift(names, e);
          Err(e)
        case Ok(ts) => Ok([t] + ts)
  }

  lemma ResolveAllErrShift(names: seq<string>, e: Error)
    requires |names| > 0 && Resolve(names[0]).Some?
    requires exists k :: 0 <= k < |names[1..]| && FirstUnknownAt(names[1..], k) && e == UnknownTransformer(names[1..][k])
    ensures exists k :: 0 <= k < |names| && FirstUnknownAt(names, k) && e == UnknownTransformer(names[k])
  {
    var k :| 0 <= k < |names[1..]| && FirstUnknownAt(names[1..], k) &&
      e == UnknownTransformer(names[1..][k]);
    assert Resolve(names[k + 1]).None?;
    forall j | 0 <= j < k + 1 ensures Resolve(names[j]).Some? {
      if j > 0 { assert names[j] == names[1..][j - 1]; }
    }
    assert FirstUnknownAt(names, k + 1);
  }

  /** `names[k]` is unregistered and every name before it is registered. */
  predicate FirstUnknownAt(names: seq<string>, k: nat)
    requires k < |names|
  {
    Resolve(names[k]).None? && forall j :: 0 <= j < k ==> Resolve(names[j]).Some?
  }

  /** When every name is registered, resolution succeeds with the registered transformers. */
  lemma {:induction false} ResolveAllKnown(names: seq<string>, ts: seq<Transformer>)
    requires |ts| == |names|
    requires forall j :: 0 <= j < |names| ==> Resolve(names[j]) == Some(ts[j])
    ensures ResolveAll(names) == Ok(ts)
  {
    if names != [] {
      ResolveAllKnown(names[1..], ts[1..]);
      assert ts == [ts[0]] + ts[1..];
    }
  }

  /** Resolution stops at the first unregistered name. */
  lemma ResolveAllStopsAt(names: seq<string>, k: nat)
    requires k < |names| && FirstUnknownAt(names, k)
    ensures ResolveAll(names) == Err(UnknownTransformer(names[k]))
  {
    var r := ResolveAll(names);
    assert r.Err?;
    var k' :| 0 <= k' < |names| && FirstUnknownAt(names, k') && r.error == UnknownTransformer(names[k']);
    assert !(k' < k) && !(k < k');
  }

  /** A string after every transformer of `ts`, the last one applied last. */
  function ApplyAll(ts: seq<Transformer>, s: string): string
    decreases |ts|
  {
    if ts == [] then s else Apply(ts[|ts| - 1], ApplyAll(ts[..|ts| - 1], s))
  }

  /** A cell after `ts`; a missing cell stays missing. */
  function ApplyAllCell(ts: seq<Transformer>, c: Cell): Cell {
    match c
    case None => None
    case Some(s) => Some(ApplyAll(ts, s))
  }

  /** pandas `Series.apply` of one transformer to every present cell. */
  function ApplyToColumn(t: Transformer, column: seq<Cell>): (r: seq<Cell>)
    ensures |r| == |column|
  {
    seq(|column|, i requires 0 <= i < |column| =>
      match column[i] case None => None case Some(s) => Some(Apply(t, s)))
  }

  /** What the transform pipeline makes of `column`: every name resolved, then every transformer applied to every cell. */
  function Transformed(column: seq<Cell>, names: seq<string>): Result<seq<Cell>, Error> {
    match ResolveAll(names)
    case Err(e) => Err(e)
    case Ok(ts) => Ok(seq(|column|, i requires 0 <= i < |column| => ApplyAllCell(ts, column[i])))
  }

  /** The transformer listed first is applied first. */
  lemma {:induction false} ApplyAllFirstFirst(t: Transformer, ts: seq<Transformer>, s: string)
    ensures ApplyAll([t] + ts, s) == ApplyAll(ts, Apply(t, s))
    decreases |ts|
  {
    if ts != [] {
      var init := ts[..|ts| - 1];
      ApplyAllFirstFirst(t, init, s);
      assert ([t] + ts)[..|ts|] == [t] + init;
      assert ([t] + ts)[|ts|] == ts[|ts| - 1];
    } else {
      assert ([t] + ts)[..0] == [];
    }
  }

  /**
   * The transform loop as the source runs it (csvjoin.py:68-75): names in
   * list order, each registered one applied to the whole column, the first
   * unknown one stopping everything. Equal to `Transformed`.
   */
  method Transform(column: seq<Cell>, names: seq<string>) returns (r: Result<seq<Cell>, Error>)
    ensures r == Transformed(column, names)
  {
    var current := column;
    ghost var applied: seq<Transformer> := [];
    for i := 0 to |names|
      invariant |applied| == i && |current| == |column|
      invariant forall j :: 0 <= j < i ==> Resolve(names[j]) == Some(applied[j])
      invariant forall c :: 0 <= c < |column| ==> current[c] == ApplyAllCell(applied, column[c])
    {
      match Resolve(names[i]) {
        case None =>
          ResolveAllStopsAt(names, i);
          return Err(UnknownTransformer(names[i]));
        case Some(t) =>
          current := ApplyToColumn(t, current);
          assert (applied + [t])[..i] == applied;
          applied := applied + [t];
      }
    }
    ResolveAllKnown(names, applied);
    assert current == seq(|column|, c requires 0 <= c < |column| => ApplyAllCell(applied, column[c]));
    r := Ok(current);
  }

  /** With no transformer names the column comes back as it went in. */
  lemma TransformedNoNames(column: seq<Cell>)
    ensures Transformed(column, []) == Ok(column)
  {
    assert ResolveAll([]) == Ok([]);
    var same := seq(|column|, i requires 0 <= i < |column| => ApplyAllCell([], column[i]));
    forall i | 0 <= i < |column| ensures same[i] == column[i] {
      if column[i].Some? { assert ApplyAll([], column[i].value) == column[i].value; }
    }
    assert same == column;
  }

  /**
   * The pipeline fails exactly when some name is unregistered, with the first
   * such name; on success each cell is its input under the listed
   * transformers, missing cells staying missing.
   */
  lemma TransformedMeaning(column: seq<Cell>, names: seq<string>)
    ensures Transformed(column, names).Err? <==> exists k :: 0 <= k < |names| && Resolve(names[k]).None?
    ensures Transformed(column, names).Err? ==>
      exists k :: 0 <= k < |names| && FirstUnknownAt(names, k) && Transformed(column, names).error == UnknownTransformer(names[k])
    ensures Transformed(column, names).Ok? ==> (|Transformed(column, names).value| == |column| &&
      forall i :: 0 <= i < |column| ==> (column[i].None? <==> Transformed(column, names).value[i].None?))
  {
  }

  /** Applying the first listed transformer and then the rest is the same as applying the whole list. */
  lemma TransformedInListOrder(column: seq<Cell>, name: string, rest: seq<string>)
    requires Resolve(name).Some?
    ensures Transformed(column, [name] + rest) == Transformed(ApplyToColumn(Resolve(name).value, column), rest)
  {
    var t := Resolve(name).value;
    assert ([name] + rest)[0] == name && ([name] + rest)[1..] == rest;
    match ResolveAll(rest)
    case Err(e) =>
    case Ok(ts) =>
      assert ResolveAll([name] + rest) == Ok([t] + ts);
      var once := ApplyToColumn(t, column);
      var lhs := seq(|column|, i requires 0 <= i < |column| => ApplyAllCell([t] + ts, column[i]));
      var rhs := seq(|once|, i requires 0 <= i < |once| => ApplyAllCell(ts, once[i]));
      forall i | 0 <= i < |column| ensures lhs[i] == rhs[i] {
        if column[i].Some? { ApplyAllFirstFirst(t, ts, column[i].value); }
      }
      assert lhs == rhs;
  }

  /**
   * The transform loop exactly as written: pandas `apply` hands every cell,
   * missing ones included, to the transformer, and `str.split` raises on a
   * missing value, so one missing cell fails the whole column.
   */
  function TransformedAsWritten(column: seq<Cell>, names: seq<string>): Result<seq<Cell>, Error>
    decreases |names|
  {
    if names == [] then Ok(column)
    else match Resolve(names[0])
      case None => Err(UnknownTransformer(names[0]))
      case Some(t) =>
        if exists i :: 0 <= i < |column| && column[i].None? then Err(TransformerFailed(names[0]))
        else TransformedAsWritten(ApplyToColumn(t, column), names[1..])
  }

  /** On a column without missing cells the as-written loop and the pipeline agree. */
  lemma {:induction false} AsWrittenAgreesWithoutMissingCells(column: seq<Cell>, names: seq<string>)
    requires forall i :: 0 <= i < |column| ==> column[i].Some?
    ensures TransformedAsWritten(column, names) == Transformed(column, names)
    decreases |names|
  {
    if names == [] {
      TransformedNoNames(column);
    } else {
      assert names == [names[0]] + names[1..];
      match Resolve(names[0])
      case None =>
      case Some(t) =>
        AsWrittenAgreesWithoutMissingCells(ApplyToColumn(t, column), names[1..]);
        TransformedInListOrder(column, names[0], names[1..]);
    }
  }

  /**
   * The discrepancy: one missing cell makes the as-written loop fail at the
   * first registered transformer, while the pipeline succeeds and leaves that
   * cell missing.
   */
  lemma AsWrittenFailsOnMissingCell(column: seq<Cell>, names: seq<string>, i: nat)
    requires i < |column| && column[i].None?
    requires names != [] && forall j :: 0 <= j < |names| ==> Resolve(names[j]).Some?
    ensures TransformedAsWritten(column, names) == Err(TransformerFailed(names[0]))
    ensures Transformed(column, names).Ok? && Transformed(column, names).value[i].None?
  {
    TransformedMeaning(column, names);
  }
}
