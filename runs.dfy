/**
 * Draw spans: the row scan of `DrawArray` splits a row into maximal runs of
 * marked cells (a cell is marked when it is alive or has just changed) and
 * emits one half-open column range [start, end) per run.
 */
module Runs {

  /** A half-open column range [start, end) of one row. */
  datatype Span = Span(start: int, end: int)

  /**
   * `runs` is the list of maximal runs of `true` in `marks`, left to right:
   * each run is non-empty, inside the row and wholly marked; runs are
   * ascending with at least one unmarked column between two of them; a run
   * cannot be extended on either side; and every marked column is in a run.
   */
  ghost predicate IsRunDecomposition(marks: seq<bool>, runs: seq<Span>) {
    (forall k :: 0 <= k < |runs| ==> 0 <= runs[k].start < runs[k].end <= |marks|) &&
    (forall k, l :: 0 <= k < l < |runs| ==> runs[k].end < runs[l].start) &&
    (forall k, c :: 0 <= k < |runs| && runs[k].start <= c < runs[k].end ==> marks[c]) &&
    (forall k :: 0 <= k < |runs| && 0 < runs[k].start ==> !marks[runs[k].start - 1]) &&
    (forall k :: 0 <= k < |runs| && runs[k].end < |marks| ==> !marks[runs[k].end]) &&
    (forall c :: 0 <= c < |marks| && marks[c] ==> Covered(runs, c))
  }

  /** Column c lies in one of the runs. */
  ghost predicate Covered(runs: seq<Span>, c: int) {
    exists k :: 0 <= k < |runs| && runs[k].start <= c < runs[k].end
  }

  /**
   * Closing a run: the runs of the first `s` columns, followed by the marked
   * stretch [s, e) that starts after an unmarked column, are the runs of the
   * first `e` columns.
   */
  lemma CloseRun(marks: seq<bool>, runs: seq<Span>, s: int, e: int)
    requires 0 <= s < e <= |marks|
    requires IsRunDecomposition(marks[..s], runs)
    requires 0 < s ==> !marks[s - 1]
    requires forall c :: s <= c < e ==> marks[c]
    ensures IsRunDecomposition(marks[..e], runs + [Span(s, e)])
  {
    EarlierRunsEndBefore(marks, runs, s);
    CloseRunMarks(marks, runs, s, e);
    CloseRunCovers(marks, runs, s, e);
  }

  /** The runs of the first `s` columns end before column `s` when column s - 1 is unmarked. */
  lemma EarlierRunsEndBefore(marks: seq<bool>, runs: seq<Span>, s: int)
    requires 0 <= s <= |marks|
    requires IsRunDecomposition(marks[..s], runs)
    requires 0 < s ==> !marks[s - 1]
    ensures forall k :: 0 <= k < |runs| ==> runs[k].end < s
  {
    forall k | 0 <= k < |runs|
      ensures runs[k].end < s
    {
      assert marks[..s][runs[k].end - 1];
    }
  }

  /** Part of `CloseRun`: the new run list is ordered, wholly marked and maximal. */
  lemma CloseRunMarks(marks: seq<bool>, runs: seq<Span>, s: int, e: int)
    requires 0 <= s < e <= |marks|
    requires IsRunDecomposition(marks[..s], runs)
    requires forall k :: 0 <= k < |runs| ==> runs[k].end < s
    requires 0 < s ==> !marks[s - 1]
    requires forall c :: s <= c < e ==> marks[c]
    ensures var m, r := marks[..e], runs + [Span(s, e)];
      (forall k :: 0 <= k < |r| ==> 0 <= r[k].start < r[k].end <= |m|) &&
      (forall k, l :: 0 <= k < l < |r| ==> r[k].end < r[l].start) &&
      (forall k, c :: 0 <= k < |r| && r[k].start <= c < r[k].end ==> m[c]) &&
      (forall k :: 0 <= k < |r| && 0 < r[k].start ==> !m[r[k].start - 1]) &&
      (forall k :: 0 <= k < |r| && r[k].end < |m| ==> !m[r[k].end])
  {
    var m, r := marks[..e], runs + [Span(s, e)];
    forall k, c | 0 <= k < |runs| && runs[k].start <= c < runs[k].end
      ensures m[c]
    {
      assert marks[..s][c];
    }
    forall k | 0 <= k < |runs| && 0 < runs[k].start
      ensures !m[runs[k].start - 1]
    {
      assert !marks[..s][runs[k].start - 1];
    }
    forall k | 0 <= k < |runs|
      ensures !m[runs[k].end]
    {
      assert !marks[..s][runs[k].end];
    }
    assert forall k :: 0 <= k < |runs| ==> r[k] == runs[k];
    assert r[|runs|] == Span(s, e);
  }

  /** Part of `CloseRun`: every marked column of the first `e` is in a run. */
  lemma CloseRunCovers(marks: seq<bool>, runs: seq<Span>, s: int, e: int)
    requires 0 <= s < e <= |marks|
    requires IsRunDecomposition(marks[..s], runs)
    ensures forall c :: 0 <= c < e && marks[..e][c] ==> Covered(runs + [Span(s, e)], c)
  {
    var r := runs + [Span(s, e)];
    forall c | 0 <= c < e && marks[..e][c]
      ensures Covered(r, c)
    {
      if c < s {
        assert marks[..s][c];
        var k :| 0 <= k < |runs| && runs[k].start <= c < runs[k].end;
        assert r[k] == runs[k];
      } else {
        assert r[|runs|].start <= c < r[|runs|].end;
      }
    }
  }

  /** An unmarked column extends the row without changing its runs. */
  lemma SkipUnmarked(marks: seq<bool>, runs: seq<Span>, j: int)
    requires 0 <= j < |marks|
    requires IsRunDecomposition(marks[..j], runs)
    requires !marks[j]
    ensures IsRunDecomposition(marks[..j + 1], runs)
  {
    var m := marks[..j + 1];
    forall c | 0 <= c < |m| && m[c]
      ensures Covered(runs, c)
    {
      assert marks[..j][c];
    }
  }

  /** The start of every run lies outside all earlier runs. */
  lemma StartsUncovered(marks: seq<bool>, r: seq<Span>)
    requires IsRunDecomposition(marks, r)
    ensures forall l {:trigger r[..l]} :: 0 <= l < |r| ==> marks[r[l].start] && !Covered(r[..l], r[l].start)
  {
    forall l | 0 <= l < |r|
      ensures marks[r[l].start] && !Covered(r[..l], r[l].start)
    {
      assert forall k :: 0 <= k < l ==> r[..l][k].end < r[l].start;
    }
  }

  /**
   * The maximal runs of a row are unique: two lists that both satisfy
   * `IsRunDecomposition` for the same row are equal.
   */
  lemma DecompositionUnique(marks: seq<bool>, r1: seq<Span>, r2: seq<Span>)
    requires IsRunDecomposition(marks, r1) && IsRunDecomposition(marks, r2)
    ensures r1 == r2
  {
    AgreeFrom(marks, r1, r2, 0);
  }

  /** If two decompositions agree on their first n runs, they are equal. */
  lemma {:induction false} AgreeFrom(marks: seq<bool>, r1: seq<Span>, r2: seq<Span>, n: nat)
    requires IsRunDecomposition(marks, r1) && IsRunDecomposition(marks, r2)
    requires n <= |r1| && n <= |r2| && r1[..n] == r2[..n]
    ensures r1 == r2
    decreases |r1| - n
  {
    if n < |r1| && n < |r2| {
      NextRunAgrees(marks, r1, r2, n);
      assert r1[..n + 1] == r1[..n] + [r1[n]];
      assert r2[..n + 1] == r2[..n] + [r2[n]];
      AgreeFrom(marks, r1, r2, n + 1);
    } else {
      NoFurtherRun(marks, r1, r2, n);
    }
  }

  /**
   * Two decompositions that agree up to the end of one of them are equal: the
   * longer one cannot have a further run.
   */
  lemma NoFurtherRun(marks: seq<bool>, r1: seq<Span>, r2: seq<Span>, n: nat)
    requires IsRunDecomposition(marks, r1) && IsRunDecomposition(marks, r2)
    requires n <= |r1| && n <= |r2| && r1[..n] == r2[..n]
    requires n == |r1| || n == |r2|
    ensures r1 == r2
  {
    StartsUncovered(marks, r1);
    StartsUncovered(marks, r2);
    assert n == |r1| ==> r1[..n] == r1;
    assert n == |r2| ==> r2[..n] == r2;
  }

  /** Two decompositions that agree on their first n runs also agree on run n. */
  lemma NextRunAgrees(marks: seq<bool>, r1: seq<Span>, r2: seq<Span>, n: nat)
    requires IsRunDecomposition(marks, r1) && IsRunDecomposition(marks, r2)
    requires n < |r1| && n < |r2| && r1[..n] == r2[..n]
    ensures r1[n] == r2[n]
  {
    StartNotBefore(marks, r1, r2, n);
    StartNotBefore(marks, r2, r1, n);
  }

  /** Run n of r2 does not start after run n of r1. */
  lemma StartNotBefore(marks: seq<bool>, r1: seq<Span>, r2: seq<Span>, n: nat)
    requires IsRunDecomposition(marks, r1) && IsRunDecomposition(marks, r2)
    requires n < |r1| && n < |r2| && r1[..n] == r2[..n]
    ensures r2[n].start <= r1[n].start
  {
    var c := r1[n].start;
    assert marks[c] && Covered(r2, c);
    assert forall k :: 0 <= k < n ==> r2[k] == r1[..n][k] && r1[k].end < c;
  }

  /** The example row of width 10 whose marked columns are 2, 3, 4 and 7. */
  const ExampleMarks := [false, false, true, true, true, false, false, true, false, false]

  /** Its runs are [2, 5) and [7, 8). */
  lemma ExampleRowRuns()
    ensures IsRunDecomposition(ExampleMarks, [Span(2, 5), Span(7, 8)])
  {
    var marks, expected := ExampleMarks, [Span(2, 5), Span(7, 8)];
    forall k, c | 0 <= k < |expected| && expected[k].start <= c < expected[k].end
      ensures marks[c]
    {
    }
    forall c | 0 <= c < |marks| && marks[c]
      ensures Covered(expected, c)
    {
      if c < 5 {
        assert expected[0].start <= c < expected[0].end;
      } else {
        assert expected[1].start <= c < expected[1].end;
      }
    }
  }

  /** Any run list computed for the example row is exactly [2, 5), [7, 8). */
  lemma ExampleRow(runs: seq<Span>)
    requires IsRunDecomposition(ExampleMarks, runs)
    ensures runs == [Span(2, 5), Span(7, 8)]
  {
    ExampleRowRuns();
    DecompositionUnique(ExampleMarks, runs, [Span(2, 5), Span(7, 8)]);
  }
}
