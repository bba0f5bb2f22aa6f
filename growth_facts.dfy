/**
 * What the batched rounds of `algo` amount to for one city.  Classification is
 * per row and the radii are shared by all rows of a round, so the finished frame
 * holds, for every input city, its row at the first round whose ring is not
 * dense, or at round 10 when every ring up to it is dense.
 */
module GrowthFacts {
  import opened Seqs
  import opened Growth

  /** The row of city `c` as it enters round `k`: the input row, or its row after round `k - 1`. */
  function Before<G>(o: Oracles<G>, c: City<G>, k: nat): City<G>
    decreases k, 0
  {
    if k == 0 then c else RowAt(o, c, k - 1)
  }

  /** The row of city `c` after round `k`, had it been active in every round up to `k`. */
  function RowAt<G>(o: Oracles<G>, c: City<G>, k: nat): City<G>
    decreases k, 1
  {
    BufferRow(o, Before(o, c, k), Outer(k), Inner(k))
  }

  /** The radius and name recorded after round `k`; the geometry is the outer buffer of the previous one. */
  lemma {:induction false} RowAtFields<G>(o: Oracles<G>, c: City<G>, k: nat)
    ensures RowAt(o, c, k).rad == (k + 1) as real
    ensures RowAt(o, c, k).name == c.name
    ensures RowAt(o, c, k).geometry == o.buffer(Before(o, c, k).geometry, 1000 * (k + 1))
  {
    RoundRadius(k);
    if k > 0 {
      RowAtFields(o, c, k - 1);
    }
  }

  /** The first round from `k` on whose ring is not dense; round 10 whatever its density. */
  function FirstSparseFrom<G>(o: Oracles<G>, lim: Limits, c: City<G>, k: nat): (r: nat)
    requires k <= RoundCap
    ensures k <= r <= RoundCap
    ensures forall j :: k <= j < r ==> IsDense(RowAt(o, c, j), lim)
    ensures r < RoundCap ==> !IsDense(RowAt(o, c, r), lim)
    decreases RoundCap - k
  {
    if k == RoundCap || !IsDense(RowAt(o, c, k), lim) then k
    else FirstSparseFrom(o, lim, c, k + 1)
  }

  /** The round in which city `c` is finished. */
  function FinishRound<G>(o: Oracles<G>, lim: Limits, c: City<G>): nat
  {
    FirstSparseFrom(o, lim, c, 0)
  }

  /** The finished row of city `c`, defined city by city. */
  function Fate<G>(o: Oracles<G>, lim: Limits, c: City<G>): City<G>
  {
    RowAt(o, c, FinishRound(o, lim, c))
  }

  /**
   * A city keeps growing while its ring is dense: it is finished in round `r`
   * exactly when every earlier ring was dense and ring `r` is not, or `r` is the
   * last round; its finished row has radius `r + 1` km and keeps its name.
   */
  lemma FateCharacterized<G>(o: Oracles<G>, lim: Limits, c: City<G>, r: nat)
    ensures r == FinishRound(o, lim, c) <==>
              r <= RoundCap
              && (forall j :: 0 <= j < r ==> IsDense(RowAt(o, c, j), lim))
              && (r < RoundCap ==> !IsDense(RowAt(o, c, r), lim))
    ensures Fate(o, lim, c).rad == (FinishRound(o, lim, c) + 1) as real
    ensures Fate(o, lim, c).name == c.name
    ensures 1.0 <= Fate(o, lim, c).rad <= 11.0
  {
    var f := FinishRound(o, lim, c);
    RowAtFields(o, c, f);
  }

  /** The finished row of `row`, which enters round `k`, grown one round at a time. */
  function FateAt<G>(o: Oracles<G>, lim: Limits, row: City<G>, k: nat): City<G>
    decreases RoundCap - k
  {
    var next := BufferRow(o, row, Outer(k), Inner(k));
    if k < RoundCap && IsDense(next, lim) then FateAt(o, lim, next, k + 1) else next
  }

  function FatesAt<G>(o: Oracles<G>, lim: Limits, rows: seq<City<G>>, k: nat): (r: seq<City<G>>)
    ensures |r| == |rows|
  {
    if |rows| == 0 then [] else [FateAt(o, lim, rows[0], k)] + FatesAt(o, lim, rows[1..], k)
  }

  /** `Fate` of every input city, in input order. */
  function Fates<G>(o: Oracles<G>, lim: Limits, cities: seq<City<G>>): (r: seq<City<G>>)
    ensures |r| == |cities|
  {
    if |cities| == 0 then [] else [Fate(o, lim, cities[0])] + Fates(o, lim, cities[1..])
  }

  lemma {:induction false} FateAtIsRowAt<G>(o: Oracles<G>, lim: Limits, c: City<G>, k: nat)
    requires k <= RoundCap
    ensures FateAt(o, lim, Before(o, c, k), k) == RowAt(o, c, FirstSparseFrom(o, lim, c, k))
    decreases RoundCap - k
  {
    if k < RoundCap && IsDense(RowAt(o, c, k), lim) {
      FateAtIsRowAt(o, lim, c, k + 1);
    }
  }

  lemma {:induction false} FatesAtZero<G>(o: Oracles<G>, lim: Limits, cities: seq<City<G>>)
    ensures FatesAt(o, lim, cities, 0) == Fates(o, lim, cities)
  {
    if |cities| > 0 {
      FateAtIsRowAt(o, lim, cities[0], 0);
      FatesAtZero(o, lim, cities[1..]);
    }
  }

  lemma FatesAtCap<G>(o: Oracles<G>, lim: Limits, rows: seq<City<G>>)
    ensures FatesAt(o, lim, rows, RoundCap) == Buffered(o, rows, Outer(RoundCap), Inner(RoundCap))
  {
    if |rows| > 0 {
      FatesAtCap(o, lim, rows[1..]);
    }
  }

  /** Round `k` splits the rows that enter it into the ones it finishes and the ones that grow on. */
  lemma {:induction false} SplitFates<G>(o: Oracles<G>, lim: Limits, rows: seq<City<G>>, k: nat)
    requires k < RoundCap
    ensures multiset(Filter(Buffered(o, rows, Outer(k), Inner(k)), SparseRow(lim)))
          + multiset(FatesAt(o, lim, Filter(Buffered(o, rows, Outer(k), Inner(k)), DenseRow(lim)), k + 1))
         == multiset(FatesAt(o, lim, rows, k))
  {
    if |rows| > 0 {
      SplitFates(o, lim, rows[1..], k);
      var b := BufferRow(o, rows[0], Outer(k), Inner(k));
      var rest := Buffered(o, rows[1..], Outer(k), Inner(k));
      assert Buffered(o, rows, Outer(k), Inner(k)) == [b] + rest;
      SplitHead(o, lim, rows[0], b, rest, FatesAt(o, lim, rows[1..], k), k);
    }
  }

  lemma SplitHead<G>(o: Oracles<G>, lim: Limits, x: City<G>, b: City<G>, rest: seq<City<G>>,
                     tail: seq<City<G>>, k: nat)
    requires k < RoundCap && b == BufferRow(o, x, Outer(k), Inner(k))
    requires multiset(Filter(rest, SparseRow(lim))) + multiset(FatesAt(o, lim, Filter(rest, DenseRow(lim)), k + 1))
          == multiset(tail)
    ensures multiset(Filter([b] + rest, SparseRow(lim))) + multiset(FatesAt(o, lim, Filter([b] + rest, DenseRow(lim)), k + 1))
         == multiset([FateAt(o, lim, x, k)] + tail)
  {
    FilterCons(b, rest, SparseRow(lim));
    FilterCons(b, rest, DenseRow(lim));
    if IsDense(b, lim) {
      assert FateAt(o, lim, x, k) == FateAt(o, lim, b, k + 1);
      SplitHeadDense(o, lim, b, rest, tail, k + 1);
    } else {
      assert FateAt(o, lim, x, k) == b;
      SplitHeadSparse(o, lim, b, rest, tail, k + 1);
    }
  }

  lemma SplitHeadDense<G>(o: Oracles<G>, lim: Limits, b: City<G>, rest: seq<City<G>>, tail: seq<City<G>>, k: nat)
    requires IsDense(b, lim)
    requires multiset(Filter(rest, SparseRow(lim))) + multiset(FatesAt(o, lim, Filter(rest, DenseRow(lim)), k))
          == multiset(tail)
    requires Filter([b] + rest, SparseRow(lim)) == Filter(rest, SparseRow(lim))
    requires Filter([b] + rest, DenseRow(lim)) == [b] + Filter(rest, DenseRow(lim))
    ensures multiset(Filter([b] + rest, SparseRow(lim))) + multiset(FatesAt(o, lim, Filter([b] + rest, DenseRow(lim)), k))
         == multiset([FateAt(o, lim, b, k)] + tail)
  {
    FatesAtCons(o, lim, b, Filter(rest, DenseRow(lim)), k);
  }

  lemma SplitHeadSparse<G>(o: Oracles<G>, lim: Limits, b: City<G>, rest: seq<City<G>>, tail: seq<City<G>>, k: nat)
    requires multiset(Filter(rest, SparseRow(lim))) + multiset(FatesAt(o, lim, Filter(rest, DenseRow(lim)), k))
          == multiset(tail)
    requires Filter([b] + rest, SparseRow(lim)) == [b] + Filter(rest, SparseRow(lim))
    requires Filter([b] + rest, DenseRow(lim)) == Filter(rest, DenseRow(lim))
    ensures multiset(Filter([b] + rest, SparseRow(lim))) + multiset(FatesAt(o, lim, Filter([b] + rest, DenseRow(lim)), k))
         == multiset([b] + tail)
  {
  }

  lemma FatesAtCons<G>(o: Oracles<G>, lim: Limits, x: City<G>, rows: seq<City<G>>, k: nat)
    ensures FatesAt(o, lim, [x] + rows, k) == [FateAt(o, lim, x, k)] + FatesAt(o, lim, rows, k)
  {
    assert ([x] + rows)[0] == x && ([x] + rows)[1..] == rows;
  }

  /** The rows `Continue` finishes are the fates of the rows still active after round `k`. */
  lemma {:induction false} ContinueFates<G>(o: Oracles<G>, lim: Limits, active: seq<City<G>>, k: nat)
    requires k < RoundCap
    ensures multiset(Continue(o, lim, active, k)) == multiset(FatesAt(o, lim, active, k + 1))
    decreases RoundCap - k
  {
    if |active| > 0 {
      var proposed := Buffered(o, active, Outer(k + 1), Inner(k + 1));
      var survived := Filter(proposed, DenseRow(lim));
      if k + 1 == RoundCap {
        ContinueAtCap(o, lim, active, k);
      } else {
        ContinueFates(o, lim, survived, k + 1);
        ContinueFatesStep(o, lim, active, k);
      }
    }
  }

  lemma ContinueFatesStep<G>(o: Oracles<G>, lim: Limits, active: seq<City<G>>, k: nat)
    requires |active| > 0 && k + 1 < RoundCap
    requires multiset(Continue(o, lim, Filter(Buffered(o, active, Outer(k + 1), Inner(k + 1)), DenseRow(lim)), k + 1))
          == multiset(FatesAt(o, lim, Filter(Buffered(o, active, Outer(k + 1), Inner(k + 1)), DenseRow(lim)), (k + 1) + 1))
    ensures multiset(Continue(o, lim, active, k)) == multiset(FatesAt(o, lim, active, k + 1))
  {
    var proposed := Buffered(o, active, Outer(k + 1), Inner(k + 1));
    var survived := Filter(proposed, DenseRow(lim));
    var kickedOut := Filter(proposed, SparseRow(lim));
    ContinueRound(o, lim, active, k, survived, kickedOut);
    SplitFates(o, lim, active, k + 1);
  }

  lemma ContinueAtCap<G>(o: Oracles<G>, lim: Limits, active: seq<City<G>>, k: nat)
    requires k + 1 == RoundCap
    ensures multiset(Filter(Buffered(o, active, Outer(k + 1), Inner(k + 1)), SparseRow(lim)))
          + multiset(Continue(o, lim, Filter(Buffered(o, active, Outer(k + 1), Inner(k + 1)), DenseRow(lim)), k + 1))
         == multiset(FatesAt(o, lim, active, k + 1))
  {
    var proposed := Buffered(o, active, Outer(k + 1), Inner(k + 1));
    FilterPartition(proposed, SparseRow(lim), DenseRow(lim));
    FatesAtCap(o, lim, active);
  }

  /**
   * Every input city appears in the finished frame exactly once, as its own
   * `Fate`: the batched rounds of `algo` grow each city independently.
   */
  lemma FinishedAreFates<G>(o: Oracles<G>, lim: Limits, cities: seq<City<G>>)
    ensures multiset(Finished(o, lim, cities)) == multiset(Fates(o, lim, cities))
    ensures |Finished(o, lim, cities)| == |cities|
  {
    FinishedAreFatesFrom(o, lim, cities, 0);
  }

  /**
   * `FinishedAreFates` with the first round passed as `z` instead of the
   * literal 0: the solver unfolds `Continue` and `FatesAt` at a literal round
   * number much too eagerly, and a symbolic one keeps the proof small.
   */
  lemma FinishedAreFatesFrom<G>(o: Oracles<G>, lim: Limits, cities: seq<City<G>>, z: nat)
    requires z == 0
    ensures multiset(Finished(o, lim, cities)) == multiset(Fates(o, lim, cities))
    ensures |Finished(o, lim, cities)| == |cities|
  {
    var proposed := Buffered(o, cities, Outer(z), Inner(z));
    var survived := Filter(proposed, DenseRow(lim));
    var kickedOut := Filter(proposed, SparseRow(lim));
    var fin := Finished(o, lim, cities);
    assert fin == kickedOut + Continue(o, lim, survived, z);
    ContinueFates(o, lim, survived, z);
    SplitFates(o, lim, cities, z);
    FatesAtZero(o, lim, cities);
    assert FatesAt(o, lim, cities, z) == Fates(o, lim, cities);
    assert multiset(fin) == multiset(Fates(o, lim, cities));
    assert |multiset(fin)| == |fin|;
  }

  /** Before the radius filter every finished row has a radius of 1 to 11 km. */
  lemma FinishedRadius<G>(o: Oracles<G>, lim: Limits, cities: seq<City<G>>)
    ensures forall k :: 0 <= k < |Finished(o, lim, cities)| ==> 1.0 <= Finished(o, lim, cities)[k].rad <= 11.0
  {
    FinishedAreFates(o, lim, cities);
    forall k | 0 <= k < |Finished(o, lim, cities)|
      ensures 1.0 <= Finished(o, lim, cities)[k].rad <= 11.0
    {
      var x := Finished(o, lim, cities)[k];
      assert x in multiset(Fates(o, lim, cities));
      var j := FateIndex(o, lim, cities, x);
      FateCharacterized(o, lim, cities[j], 0);
    }
  }

  lemma {:induction false} FateIndex<G>(o: Oracles<G>, lim: Limits, cities: seq<City<G>>, x: City<G>) returns (j: nat)
    requires x in Fates(o, lim, cities)
    ensures j < |cities| && x == Fate(o, lim, cities[j])
  {
    if x == Fate(o, lim, cities[0]) {
      j := 0;
    } else {
      var i := FateIndex(o, lim, cities[1..], x);
      j := i + 1;
    }
  }

  /**
   * The result of `algo` holds, up to order, exactly the fates of radius at
   * least `minRad`, and lists them in their order in the finished frame.
   */
  lemma AlgoResult<G>(o: Oracles<G>, lim: Limits, cities: seq<City<G>>, minRad: real)
    ensures IsSubsequence(Filter(Finished(o, lim, cities), RadAtLeast(minRad)), Finished(o, lim, cities))
    ensures multiset(Filter(Finished(o, lim, cities), RadAtLeast(minRad)))
         == multiset(Filter(Fates(o, lim, cities), RadAtLeast(minRad)))
  {
    FilterIsSubsequence(Finished(o, lim, cities), RadAtLeast(minRad));
    FinishedAreFates(o, lim, cities);
    FilterPermutation(Finished(o, lim, cities), Fates(o, lim, cities), RadAtLeast(minRad));
  }

  /** A city whose first ring is already sparse is finished in round 0 with a radius of 1 km. */
  lemma SparseCityFinishesFirst<G>(o: Oracles<G>, lim: Limits, c: City<G>)
    requires !IsDense(RowAt(o, c, 0), lim)
    ensures FinishRound(o, lim, c) == 0 && Fate(o, lim, c).rad == 1.0
  {
    FateCharacterized(o, lim, c, 0);
  }

  /** A city whose rings are dense up to round 9 is finished at the cap with a radius of 11 km. */
  lemma DenseCityReachesCap<G>(o: Oracles<G>, lim: Limits, c: City<G>)
    requires forall j :: 0 <= j < RoundCap ==> IsDense(RowAt(o, c, j), lim)
    ensures FinishRound(o, lim, c) == RoundCap && Fate(o, lim, c).rad == 11.0
  {
    FateCharacterized(o, lim, c, RoundCap);
  }

  /**
   * An isolated place whose first ring is below both limits is not returned
   * by `algo` when `min_rad` is 2: it finishes at 1 km.
   */
  lemma IsolatedCityDropped<G>(o: Oracles<G>, lim: Limits, c: City<G>)
    requires !IsDense(RowAt(o, c, 0), lim)
    ensures Filter(Finished(o, lim, [c]), RadAtLeast(2.0)) == []
  {
    SparseCityFinishesFirst(o, lim, c);
    AlgoResult(o, lim, [c], 2.0);
    assert Fates(o, lim, [c]) == [Fate(o, lim, c)];
    FilterSingleton(Fate(o, lim, c), RadAtLeast(2.0));
    assert |multiset(Filter(Finished(o, lim, [c]), RadAtLeast(2.0)))| == 0;
  }

  /** A place dense up to round 9 is returned at 11 km for any `min_rad` up to 11. */
  lemma DenseCityKept<G>(o: Oracles<G>, lim: Limits, c: City<G>, minRad: real)
    requires forall j :: 0 <= j < RoundCap ==> IsDense(RowAt(o, c, j), lim)
    requires minRad <= 11.0
    ensures Filter(Finished(o, lim, [c]), RadAtLeast(minRad)) == [Fate(o, lim, c)]
  {
    DenseCityReachesCap(o, lim, c);
    KeptAlone(o, lim, c, minRad);
  }

  /** A single place whose finished radius reaches `minRad` is returned alone. */
  lemma KeptAlone<G>(o: Oracles<G>, lim: Limits, c: City<G>, minRad: real)
    requires minRad <= Fate(o, lim, c).rad
    ensures Filter(Finished(o, lim, [c]), RadAtLeast(minRad)) == [Fate(o, lim, c)]
  {
    AlgoResult(o, lim, [c], minRad);
    assert Fates(o, lim, [c]) == [Fate(o, lim, c)];
    FilterToSingleton(Finished(o, lim, [c]), Fate(o, lim, c), RadAtLeast(minRad));
  }
}
