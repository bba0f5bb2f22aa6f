/**
 * `filter_overlap` of geotargeting/geotargeting.py: one greedy pass over the
 * finished rows in index order.  A row is dropped when some other row that has
 * not been dropped already intersects it and covers more than 80 % of its area.
 *
 * Intersection tests and areas are shapely calls; they are the oracle
 * functions of `Overlay`.
 */
module Overlap {
  import opened Seqs
  import opened Growth

  /** `a.intersects(b)` and `area(a ∩ b) / area(b)`. */
  datatype Overlay<!G> = Overlay(intersects: (G, G) -> bool, coverage: (G, G) -> real)

  /** The share of a row's area that another row must exceed to drop it. */
  const Threshold: real := 0.8

  /** Row `a` votes against row `b`: it intersects `b` and covers strictly more than 80 % of it. */
  predicate Covers<G>(ov: Overlay<G>, a: City<G>, b: City<G>)
  {
    ov.intersects(a.geometry, b.geometry) && ov.coverage(a.geometry, b.geometry) > Threshold
  }

  /**
   * The test of one iteration: some row other than `i` and not listed in
   * `bads` covers row `i`.
   */
  predicate Overlapped<G>(ov: Overlay<G>, rows: seq<City<G>>, bads: seq<nat>, i: nat)
    requires i < |rows|
  {
    exists j :: 0 <= j < |rows| && j != i && j !in bads && Covers(ov, rows[j], rows[i])
  }

  /** The `bads` list after the iterations for indices `0 .. k - 1`: indices below `k`. */
  function BadsAfter<G>(ov: Overlay<G>, rows: seq<City<G>>, k: nat): (r: seq<nat>)
    requires k <= |rows|
    ensures forall m :: 0 <= m < |r| ==> r[m] < k
  {
    if k == 0 then []
    else
      var before := BadsAfter(ov, rows, k - 1);
      if Overlapped(ov, rows, before, k - 1) then before + [k - 1] else before
  }

  /** `finished.drop(bads)` on the first `n` rows: the rows whose index is not listed, in order. */
  function SurvivorsUpTo<G>(rows: seq<City<G>>, bads: seq<nat>, n: nat): (r: seq<City<G>>)
    requires n <= |rows|
  {
    if n == 0 then [] else SurvivorsUpTo(rows, bads, n - 1) + (if n - 1 in bads then [] else [rows[n - 1]])
  }

  function Survivors<G>(rows: seq<City<G>>, bads: seq<nat>): seq<City<G>>
  {
    SurvivorsUpTo(rows, bads, |rows|)
  }

  /** `filter_overlap`: the loop that grows `bads`, then the drop. */
  method FilterOverlap<G>(ov: Overlay<G>, rows: seq<City<G>>) returns (kept: seq<City<G>>)
    ensures kept == Survivors(rows, BadsAfter(ov, rows, |rows|))
  {
    var bads: seq<nat> := [];
    for i := 0 to |rows|
      invariant bads == BadsAfter(ov, rows, i)
    {
      if Overlapped(ov, rows, bads, i) {
        bads := bads + [i];
      }
    }
    kept := Survivors(rows, bads);
  }

  /** `bads` is appended to in index order, so it is ascending. */
  lemma {:induction false} BadsAscending<G>(ov: Overlay<G>, rows: seq<City<G>>, k: nat)
    requires k <= |rows|
    ensures forall m, l :: 0 <= m < l < |BadsAfter(ov, rows, k)| ==> BadsAfter(ov, rows, k)[m] < BadsAfter(ov, rows, k)[l]
  {
    if k > 0 {
      BadsAscending(ov, rows, k - 1);
    }
  }

  /** One iteration decides index `i`. */
  lemma BadsStep<G>(ov: Overlay<G>, rows: seq<City<G>>, i: nat)
    requires i < |rows|
    ensures i in BadsAfter(ov, rows, i + 1) <==> Overlapped(ov, rows, BadsAfter(ov, rows, i), i)
  {
    var before := BadsAfter(ov, rows, i);
    assert BadsAfter(ov, rows, i + 1) == if Overlapped(ov, rows, before, i) then before + [i] else before;
    assert i !in before;
  }

  /** One iteration leaves the decision about a smaller index `j` alone. */
  lemma BadsStepKeeps<G>(ov: Overlay<G>, rows: seq<City<G>>, i: nat, j: nat)
    requires j < i < |rows|
    ensures j in BadsAfter(ov, rows, i + 1) <==> j in BadsAfter(ov, rows, i)
  {
    var before := BadsAfter(ov, rows, i);
    assert BadsAfter(ov, rows, i + 1) == if Overlapped(ov, rows, before, i) then before + [i] else before;
  }

  /** The decision about index `j`, once made, holds from iteration `i` to iteration `k`. */
  lemma {:induction false} BadsDecided<G>(ov: Overlay<G>, rows: seq<City<G>>, j: nat, i: nat, k: nat)
    requires j < i <= k <= |rows|
    ensures j in BadsAfter(ov, rows, i) <==> j in BadsAfter(ov, rows, k)
    decreases k - i
  {
    if i < k {
      BadsStepKeeps(ov, rows, i, j);
      BadsDecided(ov, rows, j, i + 1, k);
    }
  }

  /** The decision about index `j` is made once: later iterations never revise it. */
  lemma BadsStable<G>(ov: Overlay<G>, rows: seq<City<G>>, i: nat, k: nat)
    requires i <= k <= |rows|
    ensures forall j :: 0 <= j < i ==> (j in BadsAfter(ov, rows, i) <==> j in BadsAfter(ov, rows, k))
  {
    forall j | 0 <= j < i
      ensures j in BadsAfter(ov, rows, i) <==> j in BadsAfter(ov, rows, k)
    {
      BadsDecided(ov, rows, j, i, k);
    }
  }

  /**
   * The drop rule: row `i` is dropped exactly when some other row `j` covers it
   * and `j` was not dropped in an earlier iteration.  Later rows vote whatever
   * becomes of them.
   */
  lemma DropRule<G>(ov: Overlay<G>, rows: seq<City<G>>, i: nat)
    requires i < |rows|
    ensures i in BadsAfter(ov, rows, |rows|) <==>
              exists j :: 0 <= j < |rows| && j != i && !(j < i && j in BadsAfter(ov, rows, |rows|))
                          && Covers(ov, rows[j], rows[i])
  {
    var n := |rows|;
    var before := BadsAfter(ov, rows, i);
    var bads := BadsAfter(ov, rows, n);
    BadsStep(ov, rows, i);
    BadsStable(ov, rows, i + 1, n);
    BadsStable(ov, rows, i, n);
    assert i in bads <==> Overlapped(ov, rows, before, i);
    forall j | 0 <= j < n
      ensures (j in before) == (j < i && j in bads)
    {
    }
  }

  /** `drop(bads)` keeps order: the kept rows form a subsequence of the frame. */
  lemma {:induction false} SurvivorsSubsequence<G>(rows: seq<City<G>>, bads: seq<nat>, n: nat)
    requires n <= |rows|
    ensures IsSubsequence(SurvivorsUpTo(rows, bads, n), rows[..n])
  {
    if n > 0 {
      SurvivorsSubsequence(rows, bads, n - 1);
      var t := SurvivorsUpTo(rows, bads, n - 1);
      assert rows[..n] == rows[..n - 1] + [rows[n - 1]];
      if n - 1 in bads {
        assert SurvivorsUpTo(rows, bads, n) == t + [] == t;
        SubsequenceAppend(t, rows[..n - 1], rows[n - 1]);
      } else {
        SubsequenceExtend(t, rows[..n - 1], rows[n - 1]);
      }
    }
  }

  /** A row is kept when its index is not listed, and every kept row is such a row. */
  lemma {:induction false} SurvivorsMembers<G>(rows: seq<City<G>>, bads: seq<nat>, n: nat)
    requires n <= |rows|
    ensures forall j :: 0 <= j < n && j !in bads ==> rows[j] in SurvivorsUpTo(rows, bads, n)
    ensures forall x :: x in SurvivorsUpTo(rows, bads, n) ==> exists j :: 0 <= j < n && j !in bads && x == rows[j]
  {
    if n > 0 {
      SurvivorsMembers(rows, bads, n - 1);
      var t := SurvivorsUpTo(rows, bads, n - 1);
      assert forall x :: x in SurvivorsUpTo(rows, bads, n) ==> x in t || (n - 1 !in bads && x == rows[n - 1]);
    }
  }

  /**
   * Counting: the rows kept by the final `bads` and the indices it lists add
   * up to the length of the frame.
   */
  lemma SurvivorsCount<G>(ov: Overlay<G>, rows: seq<City<G>>)
    ensures |Survivors(rows, BadsAfter(ov, rows, |rows|))| + |BadsAfter(ov, rows, |rows|)| == |rows|
  {
    var bads := BadsAfter(ov, rows, |rows|);
    assert SurvivorsUpTo(rows, bads, 0) == [] && BadsAfter(ov, rows, 0) == [];
    SurvivorsCountFrom(ov, rows, 0);
  }

  /**
   * If the first `i` rows are counted right, so are all of them: each further
   * index is either kept or listed.
   */
  lemma {:induction false} SurvivorsCountFrom<G>(ov: Overlay<G>, rows: seq<City<G>>, i: nat)
    requires i <= |rows|
    requires |SurvivorsUpTo(rows, BadsAfter(ov, rows, |rows|), i)| + |BadsAfter(ov, rows, i)| == i
    ensures |SurvivorsUpTo(rows, BadsAfter(ov, rows, |rows|), |rows|)| + |BadsAfter(ov, rows, |rows|)| == |rows|
    decreases |rows| - i
  {
    if i < |rows| {
      SurvivorsCountStep(ov, rows, i);
      SurvivorsCountFrom(ov, rows, i + 1);
    }
  }

  /** The count of the first `i` rows extends to the first `i + 1`. */
  lemma SurvivorsCountStep<G>(ov: Overlay<G>, rows: seq<City<G>>, i: nat)
    requires i < |rows|
    requires |SurvivorsUpTo(rows, BadsAfter(ov, rows, |rows|), i)| + |BadsAfter(ov, rows, i)| == i
    ensures |SurvivorsUpTo(rows, BadsAfter(ov, rows, |rows|), i + 1)| + |BadsAfter(ov, rows, i + 1)| == i + 1
  {
    var bads := BadsAfter(ov, rows, |rows|);
    BadsGrowth(ov, rows, i);
    BadsDecided(ov, rows, i, i + 1, |rows|);
    SurvivorsGrowth(rows, bads, i);
  }

  /** One more row adds one survivor unless its index is listed. */
  lemma SurvivorsGrowth<G>(rows: seq<City<G>>, bads: seq<nat>, i: nat)
    requires i < |rows|
    ensures |SurvivorsUpTo(rows, bads, i + 1)| == |SurvivorsUpTo(rows, bads, i)| + (if i in bads then 0 else 1)
  {
  }

  /** Iteration `i` adds one index to `bads` when it lists `i`, and none otherwise. */
  lemma BadsGrowth<G>(ov: Overlay<G>, rows: seq<City<G>>, i: nat)
    requires i < |rows|
    ensures |BadsAfter(ov, rows, i + 1)| == |BadsAfter(ov, rows, i)| + (if i in BadsAfter(ov, rows, i + 1) then 1 else 0)
  {
    var before := BadsAfter(ov, rows, i);
    assert BadsAfter(ov, rows, i + 1) == if Overlapped(ov, rows, before, i) then before + [i] else before;
    assert i !in before;
  }

  /**
   * `filter_overlap` returns the undropped rows, in their order: one row per
   * index missing from `bads`, whose indices are distinct.
   */
  lemma FilterOverlapKeeps<G>(ov: Overlay<G>, rows: seq<City<G>>)
    ensures IsSubsequence(Survivors(rows, BadsAfter(ov, rows, |rows|)), rows)
    ensures |Survivors(rows, BadsAfter(ov, rows, |rows|))| + |BadsAfter(ov, rows, |rows|)| == |rows|
    ensures forall m, l :: 0 <= m < l < |BadsAfter(ov, rows, |rows|)| ==>
              BadsAfter(ov, rows, |rows|)[m] < BadsAfter(ov, rows, |rows|)[l]
    ensures forall j :: 0 <= j < |rows| && j !in BadsAfter(ov, rows, |rows|)
              ==> rows[j] in Survivors(rows, BadsAfter(ov, rows, |rows|))
    ensures forall x :: x in Survivors(rows, BadsAfter(ov, rows, |rows|))
              ==> exists j :: 0 <= j < |rows| && j !in BadsAfter(ov, rows, |rows|) && x == rows[j]
  {
    SurvivorsSubsequence(rows, BadsAfter(ov, rows, |rows|), |rows|);
    assert rows[..|rows|] == rows;
    SurvivorsMembers(rows, BadsAfter(ov, rows, |rows|), |rows|);
    SurvivorsCount(ov, rows);
    BadsAscending(ov, rows, |rows|);
  }

  /** When no row covers another, nothing is dropped; a ratio of exactly 0.8 keeps both rows. */
  lemma NoCoverKeepsAll<G>(ov: Overlay<G>, rows: seq<City<G>>)
    requires forall i, j :: 0 <= i < |rows| && 0 <= j < |rows| && i != j ==> !Covers(ov, rows[j], rows[i])
    ensures Survivors(rows, BadsAfter(ov, rows, |rows|)) == rows
  {
    NothingDropped(ov, rows, |rows|);
    NothingListed(rows, |rows|);
    assert rows[..|rows|] == rows;
  }

  lemma {:induction false} NothingDropped<G>(ov: Overlay<G>, rows: seq<City<G>>, k: nat)
    requires k <= |rows|
    requires forall i, j :: 0 <= i < |rows| && 0 <= j < |rows| && i != j ==> !Covers(ov, rows[j], rows[i])
    ensures BadsAfter(ov, rows, k) == []
  {
    if k > 0 {
      NothingDropped(ov, rows, k - 1);
      assert !Overlapped(ov, rows, [], k - 1);
    }
  }

  lemma {:induction false} NothingListed<G>(rows: seq<City<G>>, n: nat)
    requires n <= |rows|
    ensures SurvivorsUpTo(rows, [], n) == rows[..n]
  {
    if n > 0 {
      NothingListed(rows, n - 1);
      assert rows[..n] == rows[..n - 1] + [rows[n - 1]];
    }
  }

  /**
   * The last row is dropped only when an earlier row still kept covers it, so a
   * non-empty frame never loses all its rows.
   */
  lemma KeepsSome<G>(ov: Overlay<G>, rows: seq<City<G>>)
    requires |rows| > 0
    ensures |Survivors(rows, BadsAfter(ov, rows, |rows|))| > 0
  {
    var n := |rows|;
    var bads := BadsAfter(ov, rows, n);
    SurvivorsMembers(rows, bads, n);
    if n - 1 in bads {
      DropRule(ov, rows, n - 1);
      var j :| 0 <= j < n && j != n - 1 && !(j < n - 1 && j in bads) && Covers(ov, rows[j], rows[n - 1]);
      assert rows[j] in Survivors(rows, bads);
    } else {
      assert rows[n - 1] in Survivors(rows, bads);
    }
  }

  /** Two rows that cover each other, such as two identical polygons: the earlier one is dropped. */
  lemma MutualCoverKeepsLater<G>(ov: Overlay<G>, a: City<G>, b: City<G>)
    requires Covers(ov, a, b) && Covers(ov, b, a)
    ensures Survivors([a, b], BadsAfter(ov, [a, b], 2)) == [b]
  {
    var rows := [a, b];
    assert Overlapped(ov, rows, [], 0) by {
      assert Covers(ov, rows[1], rows[0]);
    }
    assert BadsAfter(ov, rows, 1) == [0];
    assert !Overlapped(ov, rows, [0], 1);
    assert BadsAfter(ov, rows, 2) == [0];
    assert SurvivorsUpTo(rows, [0], 1) == [];
  }

  /** A coverage of exactly 80 % does not drop: two such rows are both kept. */
  lemma ThresholdIsStrict<G>(ov: Overlay<G>, a: City<G>, b: City<G>)
    requires ov.coverage(a.geometry, b.geometry) == Threshold && ov.coverage(b.geometry, a.geometry) == Threshold
    ensures Survivors([a, b], BadsAfter(ov, [a, b], 2)) == [a, b]
  {
    NoCoverKeepsAll(ov, [a, b]);
  }
}
