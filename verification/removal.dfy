/**
 * Deleting ranges of a text, as the editing buffer does when a call is
 * removed: every range `[start, end)` is given in the coordinates of the
 * original text, so removals may nest or overlap, and the output keeps
 * exactly the code units that no range covers, in their original order.
 */
module Removal {

  /** A half-open range `[start, end)` of code-unit offsets. */
  datatype Range = Range(start: int, end: int)

  /** A range within the text, with its end not before its start. */
  predicate ValidRange(code: string, r: Range) {
    0 <= r.start <= r.end <= |code|
  }

  /** Some range covers offset `i`. */
  predicate Covered(rs: seq<Range>, i: int) {
    exists k :: 0 <= k < |rs| && rs[k].start <= i < rs[k].end
  }

  /** The text from offset `i` on with every covered code unit dropped. */
  function CutFrom(code: string, rs: seq<Range>, i: nat): (r: string)
    requires i <= |code|
    ensures |r| <= |code| - i
    decreases |code| - i
  {
    if i == |code| then []
    else if Covered(rs, i) then CutFrom(code, rs, i + 1)
    else [code[i]] + CutFrom(code, rs, i + 1)
  }

  /** `code` after removing every range in `rs`. */
  function Cut(code: string, rs: seq<Range>): (r: string)
    ensures |r| <= |code|
  {
    CutFrom(code, rs, 0)
  }

  /** The offsets from `i` on that no range covers, ascending: the code units a cut keeps. */
  function KeptFrom(n: nat, rs: seq<Range>, i: nat): (r: seq<nat>)
    requires i <= n
    ensures forall k :: 0 <= k < |r| ==> i <= r[k] < n && !Covered(rs, r[k])
    ensures forall a, b :: 0 <= a < b < |r| ==> r[a] < r[b]
    ensures forall x :: i <= x < n && !Covered(rs, x) ==> x in r
    decreases n - i
  {
    if i == n then []
    else if Covered(rs, i) then KeptFrom(n, rs, i + 1)
    else [i] + KeptFrom(n, rs, i + 1)
  }

  /**
   * The cut is the original text read at the kept offsets: every code unit
   * outside the removed ranges survives, unchanged and in order, and
   * nothing else does.
   */
  lemma {:induction false} CutKeeps(code: string, rs: seq<Range>, i: nat)
    requires i <= |code|
    ensures var kept := KeptFrom(|code|, rs, i);
      |CutFrom(code, rs, i)| == |kept|
      && forall k :: 0 <= k < |kept| ==> CutFrom(code, rs, i)[k] == code[kept[k]]
    decreases |code| - i
  {
    if i < |code| {
      CutKeeps(code, rs, i + 1);
    }
  }

  /** The covered offsets of the text from `i` on. */
  function CoveredFrom(code: string, rs: seq<Range>, i: nat): set<int> {
    set x | i <= x < |code| && Covered(rs, x)
  }

  /** The cut is shorter than the text by the number of covered offsets. */
  lemma {:induction false} CutLength(code: string, rs: seq<Range>, i: nat)
    requires i <= |code|
    ensures |CutFrom(code, rs, i)| == |code| - i - |CoveredFrom(code, rs, i)|
    decreases |code| - i
  {
    if i == |code| {
      assert CoveredFrom(code, rs, i) == {};
    } else {
      CutLength(code, rs, i + 1);
      var rest := CoveredFrom(code, rs, i + 1);
      assert i !in rest;
      if Covered(rs, i) {
        assert CoveredFrom(code, rs, i) == {i} + rest;
      } else {
        assert CoveredFrom(code, rs, i) == rest;
      }
    }
  }

  /** The length of the output is the length of the input less the size of the union of the ranges. */
  lemma CutSize(code: string, rs: seq<Range>)
    ensures |Cut(code, rs)| == |code| - |set x | 0 <= x < |code| && Covered(rs, x)|
  {
    CutLength(code, rs, 0);
  }

  /**
   * Only the union of the ranges matters: reordering, repeating, nesting
   * or merging ranges that cover the same offsets gives the same output.
   */
  lemma {:induction false} CutSameCover(code: string, rs: seq<Range>, qs: seq<Range>, i: nat)
    requires i <= |code|
    requires forall x :: 0 <= x < |code| ==> (Covered(rs, x) <==> Covered(qs, x))
    ensures CutFrom(code, rs, i) == CutFrom(code, qs, i)
    decreases |code| - i
  {
    if i < |code| {
      CutSameCover(code, rs, qs, i + 1);
    }
  }

  /** Removing a range nested in another removed range changes nothing. */
  lemma NestedRemoval(code: string, outer: Range, inner: Range)
    requires outer.start <= inner.start && inner.end <= outer.end
    ensures Cut(code, [outer, inner]) == Cut(code, [outer])
  {
    forall x | 0 <= x < |code| ensures Covered([outer, inner], x) <==> Covered([outer], x) {
      if Covered([outer, inner], x) {
        var k :| 0 <= k < 2 && [outer, inner][k].start <= x < [outer, inner][k].end;
        assert [outer][0].start <= x < [outer][0].end;
      }
      if Covered([outer], x) {
        assert [outer, inner][0] == outer;
      }
    }
    CutSameCover(code, [outer, inner], [outer], 0);
  }

  /** A stretch of covered offsets contributes nothing to the cut. */
  lemma {:induction false} CutSkips(code: string, rs: seq<Range>, i: nat, j: nat)
    requires i <= j <= |code|
    requires forall x :: i <= x < j ==> Covered(rs, x)
    ensures CutFrom(code, rs, i) == CutFrom(code, rs, j)
    decreases j - i
  {
    if i < j {
      CutSkips(code, rs, i + 1, j);
    }
  }

  /** With nothing to remove, the text is returned as it is. */
  lemma {:induction false} CutNothing(code: string, i: nat)
    requires i <= |code|
    ensures CutFrom(code, [], i) == code[i..]
    decreases |code| - i
  {
    if i < |code| {
      CutNothing(code, i + 1);
      assert code[i..] == [code[i]] + code[i + 1..];
    }
  }
}
