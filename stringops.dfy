/** The parts of Python's `str.split`, `str.join` and list reversal that the name flipper uses. */
module StringOps {

  /** `sep` occurs in `s` starting at index `j`. */
  predicate OccursAt(s: string, sep: string, j: nat) {
    j + |sep| <= |s| && s[j..j + |sep|] == sep
  }

  predicate Contains(s: string, sep: string) {
    exists j: nat | j <= |s| :: OccursAt(s, sep, j)
  }

  lemma OccursAtTail(s: string, sep: string, j: nat)
    requires |s| > 0
    ensures OccursAt(s, sep, j + 1) <==> OccursAt(s[1..], sep, j)
  {
    if j + 1 + |sep| <= |s| {
      assert s[1..][j..j + |sep|] == s[j + 1..j + 1 + |sep|];
    }
  }

  /** Index of the first occurrence of `sep` in `s`, or `|s|` when there is none. */
  function IndexOf(s: string, sep: string): (i: nat)
    requires |sep| > 0
    ensures i <= |s|
    ensures i < |s| ==> OccursAt(s, sep, i)
    ensures forall j: nat :: j < i ==> !OccursAt(s, sep, j)
    ensures i == |s| <==> !Contains(s, sep)
    decreases |s|
  {
    if |s| < |sep| then
      |s|
    else if s[..|sep|] == sep then
      assert OccursAt(s, sep, 0);
      0
    else
      var k := IndexOf(s[1..], sep);
      IndexOfStep(s, sep, k);
      1 + k
  }

  /** The first occurrence in `s[1..]`, shifted by one, is the first in `s` when `s` does not start with `sep`. */
  lemma IndexOfStep(s: string, sep: string, k: nat)
    requires |sep| > 0 && |s| >= |sep| && s[..|sep|] != sep
    requires k <= |s[1..]|
    requires k < |s[1..]| ==> OccursAt(s[1..], sep, k)
    requires forall j: nat :: j < k ==> !OccursAt(s[1..], sep, j)
    requires k == |s[1..]| <==> !Contains(s[1..], sep)
    ensures 1 + k < |s| ==> OccursAt(s, sep, 1 + k)
    ensures forall j: nat :: j < 1 + k ==> !OccursAt(s, sep, j)
    ensures 1 + k == |s| <==> !Contains(s, sep)
  {
    forall j: nat | j < 1 + k ensures !OccursAt(s, sep, j) {
      if j > 0 { OccursAtTail(s, sep, j - 1); }
    }
    if k < |s[1..]| { OccursAtTail(s, sep, k); }
  }

  /** Python's `s.split(sep)` for a non-empty separator: the pieces between non-overlapping occurrences, left to right. */
  function Split(s: string, sep: string): (parts: seq<string>)
    requires |sep| > 0
    ensures |parts| >= 1
    decreases |s|
  {
    var i := IndexOf(s, sep);
    if i == |s| then [s] else [s[..i]] + Split(s[i + |sep|..], sep)
  }

  /** Python's `sep.join(parts)`. */
  function Join(parts: seq<string>, sep: string): string {
    if |parts| == 0 then ""
    else if |parts| == 1 then parts[0]
    else parts[0] + sep + Join(parts[1..], sep)
  }

  /** Python's `xs[::-1]`. */
  function Reverse<T>(xs: seq<T>): (r: seq<T>)
    ensures |r| == |xs|
    ensures forall i :: 0 <= i < |xs| ==> r[i] == xs[|xs| - 1 - i]
  {
    if xs == [] then [] else Reverse(xs[1..]) + [xs[0]]
  }

  /** Joining the pieces of a split with the same separator gives back the string. */
  lemma {:induction false} JoinSplit(s: string, sep: string)
    requires |sep| > 0
    ensures Join(Split(s, sep), sep) == s
    decreases |s|
  {
    var i := IndexOf(s, sep);
    if i < |s| {
      var rest := s[i + |sep|..];
      var pieces := Split(rest, sep);
      JoinSplit(rest, sep);
      var all := [s[..i]] + pieces;
      assert Split(s, sep) == all;
      assert all[0] == s[..i] && all[1..] == pieces;
      assert Join(all, sep) == s[..i] + sep + Join(pieces, sep);
      assert s[i..i + |sep|] == sep;
      assert s == s[..i] + s[i..i + |sep|] + rest;
    }
  }

  /** No piece of a split contains the separator. */
  lemma {:induction false} SplitPiecesAreFree(s: string, sep: string)
    requires |sep| > 0
    ensures forall k :: 0 <= k < |Split(s, sep)| ==> !Contains(Split(s, sep)[k], sep)
    decreases |s|
  {
    var i := IndexOf(s, sep);
    if i < |s| {
      var head := s[..i];
      assert !Contains(head, sep) by {
        if Contains(head, sep) {
          var j: nat :| j <= |head| && OccursAt(head, sep, j);
          assert |head| == i;
          assert j + |sep| <= i;
          assert s[j..j + |sep|] == head[j..j + |sep|];
          assert OccursAt(s, sep, j);
          assert false;
        }
      }
      SplitPiecesAreFree(s[i + |sep|..], sep);
    }
  }

  /** A string without the separator splits into itself alone. */
  lemma SplitWithoutSeparator(s: string, sep: string)
    requires |sep| > 0 && !Contains(s, sep)
    ensures Split(s, sep) == [s]
  {
  }

  /** In `a, b`, the separator cannot start inside `a` when `a` does not hold it. */
  lemma NoSeparatorBefore(a: string, b: string, j: nat)
    requires !Contains(a, ", ") && j < |a|
    ensures !OccursAt(a + ", " + b, ", ", j)
  {
    var s := a + ", " + b;
    if j + 2 <= |a| {
      assert s[j..j + 2] == a[j..j + 2];
      assert !OccursAt(a, ", ", j);
    } else {
      assert s[j + 1] == ',';
      assert j + 2 <= |s| ==> s[j..j + 2][1] == ',';
    }
  }

  /** Splitting `a, rest` on ", " gives `a` first when `a` does not hold ", ". */
  lemma SplitAfterFirst(a: string, rest: string)
    requires !Contains(a, ", ")
    ensures Split(a + ", " + rest, ", ") == [a] + Split(rest, ", ")
  {
    var s := a + ", " + rest;
    assert OccursAt(s, ", ", |a|) by {
      assert s[|a|..|a| + 2] == ", ";
    }
    forall j: nat | j < |a| ensures !OccursAt(s, ", ", j) {
      NoSeparatorBefore(a, rest, j);
    }
    var i := IndexOf(s, ", ");
    assert i == |a|;
    assert s[..i] == a;
    assert s[i + 2..] == rest;
  }

  /** Splitting `a, b` on ", " gives `a` and `b` when neither holds ", ". */
  lemma SplitCommaPair(a: string, b: string)
    requires !Contains(a, ", ") && !Contains(b, ", ")
    ensures Split(a + ", " + b, ", ") == [a, b]
  {
    SplitAfterFirst(a, b);
    SplitWithoutSeparator(b, ", ");
  }

  /**
   * On ", " the split is the only way to cut a string into ", "-free pieces:
   * any such pieces whose ", "-join is the string are its split.
   */
  lemma {:induction false} SplitJoin(pieces: seq<string>)
    requires |pieces| >= 1
    requires forall k :: 0 <= k < |pieces| ==> !Contains(pieces[k], ", ")
    ensures Split(Join(pieces, ", "), ", ") == pieces
    decreases |pieces|
  {
    if |pieces| == 1 {
      SplitWithoutSeparator(pieces[0], ", ");
    } else {
      var rest := pieces[1..];
      assert forall k :: 0 <= k < |rest| ==> rest[k] == pieces[k + 1];
      SplitJoin(rest);
      SplitAfterFirst(pieces[0], Join(rest, ", "));
      assert pieces == [pieces[0]] + rest;
    }
  }

  /** A string without a comma holds no ", ". */
  lemma NoCommaNoSeparator(s: string)
    requires forall j :: 0 <= j < |s| ==> s[j] != ','
    ensures !Contains(s, ", ")
  {
    forall j: nat | j <= |s| ensures !OccursAt(s, ", ", j) {
      if j + 2 <= |s| { assert s[j..j + 2][0] == s[j]; }
    }
  }
}
