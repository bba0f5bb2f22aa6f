/**
 * The growth engine of geotargeting/geotargeting.py: `buffer_city`, `step` and
 * `algo`.  Every populated place grows in 1000 m rings; a place keeps growing
 * while the density sampled over its newest ring is above either limit, and is
 * finished once both statistics are at or below the limits, or after the
 * tenth expansion round.
 *
 * Geometry and raster work is not modelled: reprojection, buffering,
 * set difference and zonal statistics are the oracle functions of `Oracles`.
 */
module Growth {
  import opened Wrappers
  import opened Seqs

  /** The per-polygon summary of zonal statistics; a statistic is missing over an empty polygon. */
  datatype RawStats = RawStats(max: Option<real>, mean: Option<real>)

  /**
   * One row of the city frame.  `rad` (km), `maxDensity` and `meanDensity` are the
   * columns that `buffer_city` writes; an input row's values for them play no role.
   */
  datatype City<G> = City(name: string, geometry: G, rad: real, maxDensity: real, meanDensity: real)

  /** The two density limits, `mean_lim` and `max_lim`. */
  datatype Limits = Limits(mean: real, max: real)

  /** The geometry and raster services the engine calls. */
  datatype Oracles<!G> = Oracles(
    buffer: (G, int) -> G,      // reproject to EPSG:3857 and buffer by a distance in metres
    difference: (G, G) -> G,    // polygon set difference
    zonal: G -> RawStats)       // reproject to EPSG:4326 and aggregate the population raster

  /** Expansion rounds after the first one. */
  const RoundCap: nat := 10
  /** Width of every ring, in metres. */
  const RingWidth: int := 1000

  /** The outer and inner buffer distances of round `round` (round 0 is the first call of `step`). */
  function Outer(round: nat): int { RingWidth * (round + 1) }
  function Inner(round: nat): int { RingWidth * round }

  /** The radius in kilometres recorded for a buffer distance in metres (`o / 1000`). */
  function Km(metres: int): real { metres as real / 1000.0 }

  lemma RoundRadius(round: nat)
    ensures Km(Outer(round)) == (round + 1) as real
    ensures Outer(round) + RingWidth == Outer(round + 1) && Inner(round + 1) == Outer(round)
  {
  }

  /** Python truthiness of a number. */
  predicate Truthy(x: real) { x != 0.0 }

  /** `d['max'] if d['max'] else 0`: a missing or falsy statistic becomes 0. */
  function OrZero(v: Option<real>): (r: real)
    ensures v.None? ==> r == 0.0
    ensures v.Some? ==> r == v.value
  {
    match v
    case None => 0.0
    case Some(x) => if Truthy(x) then x else 0.0
  }

  /** The ring sampled in a round: outer buffer minus inner buffer of the stored geometry. */
  function Ring<G>(o: Oracles<G>, g: G, outer: int, inner: int): G
  {
    o.difference(o.buffer(g, outer), o.buffer(g, inner))
  }

  /** One row after `buffer_city`: densities of its ring, the outer buffer as geometry, `rad = o / 1000`. */
  function BufferRow<G>(o: Oracles<G>, c: City<G>, outer: int, inner: int): City<G>
  {
    var stats := o.zonal(Ring(o, c.geometry, outer, inner));
    c.(maxDensity := OrZero(stats.max),
       meanDensity := OrZero(stats.mean),
       geometry := o.buffer(c.geometry, outer),
       rad := Km(outer))
  }

  /** Every row of a frame after `buffer_city`. */
  function Buffered<G>(o: Oracles<G>, cities: seq<City<G>>, outer: int, inner: int): (r: seq<City<G>>)
    ensures |r| == |cities|
    ensures forall k :: 0 <= k < |r| ==> r[k] == BufferRow(o, cities[k], outer, inner)
  {
    if |cities| == 0 then []
    else [BufferRow(o, cities[0], outer, inner)] + Buffered(o, cities[1..], outer, inner)
  }

  /** The mask of `step`: the ring is dense when either statistic exceeds its limit. */
  predicate IsDense<G>(c: City<G>, lim: Limits)
  {
    c.meanDensity > lim.mean || c.maxDensity > lim.max
  }

  function DenseRow<G>(lim: Limits): City<G> -> bool { (c: City<G>) => IsDense(c, lim) }
  function SparseRow<G>(lim: Limits): City<G> -> bool { (c: City<G>) => !IsDense(c, lim) }

  /** `finished[finished.rad >= min_rad]` */
  function RadAtLeast<G>(minRad: real): City<G> -> bool { (c: City<G>) => c.rad >= minRad }

  /** `buffer_city` on the frame copy that `step` makes: writes the four columns of every row in place. */
  method BufferCity<G>(o: Oracles<G>, frame: array<City<G>>, outer: int, inner: int)
    modifies frame
    ensures frame[..] == Buffered(o, old(frame[..]), outer, inner)
  {
    for k := 0 to frame.Length
      invariant forall j :: 0 <= j < k ==> frame[j] == BufferRow(o, old(frame[j]), outer, inner)
      invariant forall j :: k <= j < frame.Length ==> frame[j] == old(frame[j])
    {
      var row := frame[k];
      var stats := o.zonal(Ring(o, row.geometry, outer, inner));
      frame[k] := row.(maxDensity := OrZero(stats.max),
                       meanDensity := OrZero(stats.mean),
                       geometry := o.buffer(row.geometry, outer),
                       rad := Km(outer));
    }
  }

  /**
   * `step`: buffers a copy of the frame and splits it by the density mask into
   * the rows that go on growing and the rows that are finished.
   */
  method Step<G>(o: Oracles<G>, lim: Limits, cities: seq<City<G>>, outer: int, inner: int)
    returns (dense: seq<City<G>>, sparse: seq<City<G>>)
    ensures dense == Filter(Buffered(o, cities, outer, inner), DenseRow(lim))
    ensures sparse == Filter(Buffered(o, cities, outer, inner), SparseRow(lim))
    ensures |dense| + |sparse| == |cities|
    ensures forall k :: 0 <= k < |dense| ==> IsDense(dense[k], lim) && dense[k].rad == Km(outer)
    ensures forall k :: 0 <= k < |sparse| ==> !IsDense(sparse[k], lim) && sparse[k].rad == Km(outer)
  {
    var frame := new City<G>[|cities|](k requires 0 <= k < |cities| => cities[k]);
    assert frame[..] == cities;
    BufferCity(o, frame, outer, inner);
    var proposed := frame[..];
    dense := Filter(proposed, DenseRow(lim));
    sparse := Filter(proposed, SparseRow(lim));
    FilterPartition(proposed, DenseRow(lim), SparseRow(lim));
  }

  /** Every row of a round is either still dense or finished, never both and never neither. */
  lemma StepSplitsRows<G>(o: Oracles<G>, lim: Limits, cities: seq<City<G>>, outer: int, inner: int)
    ensures multiset(Filter(Buffered(o, cities, outer, inner), DenseRow(lim)))
          + multiset(Filter(Buffered(o, cities, outer, inner), SparseRow(lim)))
         == multiset(Buffered(o, cities, outer, inner))
  {
    FilterPartition(Buffered(o, cities, outer, inner), DenseRow(lim), SparseRow(lim));
  }

  /**
   * The rows finished from expansion round `i + 1` onwards, given the rows
   * still active after round `i`; at the cap the active rows are finished as they are.
   */
  function Continue<G>(o: Oracles<G>, lim: Limits, active: seq<City<G>>, i: nat): seq<City<G>>
    decreases RoundCap - i
  {
    if |active| == 0 || i >= RoundCap then active
    else
      var proposed := Buffered(o, active, Outer(i + 1), Inner(i + 1));
      Filter(proposed, SparseRow(lim)) + Continue(o, lim, Filter(proposed, DenseRow(lim)), i + 1)
  }

  /** One loop iteration of `algo`, round `i + 1`, moves the rows it finishes out of the pending part. */
  lemma ContinueRound<G>(o: Oracles<G>, lim: Limits, active: seq<City<G>>, i: nat,
                         survived: seq<City<G>>, kickedOut: seq<City<G>>)
    requires |active| > 0 && i < RoundCap
    requires survived == Filter(Buffered(o, active, Outer(i + 1), Inner(i + 1)), DenseRow(lim))
    requires kickedOut == Filter(Buffered(o, active, Outer(i + 1), Inner(i + 1)), SparseRow(lim))
    ensures Continue(o, lim, active, i) == kickedOut + Continue(o, lim, survived, i + 1)
  {
  }

  /** The loop invariant of `algo` is kept by one iteration. */
  lemma GrowIteration<G>(o: Oracles<G>, lim: Limits, target: seq<City<G>>, finished: seq<City<G>>,
                         active: seq<City<G>>, i: nat, survived: seq<City<G>>, kickedOut: seq<City<G>>)
    requires |active| > 0 && i < RoundCap
    requires finished + Continue(o, lim, active, i) == target
    requires survived == Filter(Buffered(o, active, Outer(i + 1), Inner(i + 1)), DenseRow(lim))
    requires kickedOut == Filter(Buffered(o, active, Outer(i + 1), Inner(i + 1)), SparseRow(lim))
    ensures (finished + kickedOut) + Continue(o, lim, survived, i + 1) == target
  {
    ContinueRound(o, lim, active, i, survived, kickedOut);
    AppendAssociates(finished, kickedOut, Continue(o, lim, survived, i + 1));
  }

  /** The `finished` frame of `algo` before the radius filter. */
  function Finished<G>(o: Oracles<G>, lim: Limits, cities: seq<City<G>>): seq<City<G>>
  {
    var proposed := Buffered(o, cities, Outer(0), Inner(0));
    Filter(proposed, SparseRow(lim)) + Continue(o, lim, Filter(proposed, DenseRow(lim)), 0)
  }

  /**
   * `algo`: round 0 with outer 1000 and inner 0, then at most ten expansion
   * rounds; rows still dense after the last round are finished unchanged, and
   * only rows of radius at least `minRad` are returned.  `rounds` counts the
   * loop's iterations.
   */
  method Algo<G>(o: Oracles<G>, lim: Limits, cities: seq<City<G>>, minRad: real)
    returns (result: seq<City<G>>, ghost rounds: nat)
    ensures result == Filter(Finished(o, lim, cities), RadAtLeast(minRad))
    ensures rounds <= RoundCap
    ensures forall k :: 0 <= k < |result| ==> minRad <= result[k].rad
    ensures Settled(result, lim, rounds as real + 1.0, rounds == RoundCap)
  {
    RoundRadius(0);
    var active, kickedOut := Step(o, lim, cities, 1000, 0);
    var finished;
    finished, rounds := Grow(o, lim, active, kickedOut, Finished(o, lim, cities));
    result := Filter(finished, RadAtLeast(minRad));
    KeptRows(finished, lim, rounds as real + 1.0, rounds == RoundCap, minRad);
  }

  /**
   * The loop of `algo`: each iteration moves the inner radius to the old outer
   * one, adds 1000 m to the outer radius and runs `step` on the active rows.
   */
  method Grow<G>(o: Oracles<G>, lim: Limits, active0: seq<City<G>>, finished0: seq<City<G>>,
                 ghost target: seq<City<G>>)
    returns (finished: seq<City<G>>, ghost rounds: nat)
    requires finished0 + Continue(o, lim, active0, 0) == target
    requires SparseWithin(finished0, lim, 1.0)
    requires forall k :: 0 <= k < |active0| ==> active0[k].rad == 1.0
    ensures finished == target
    ensures rounds <= RoundCap
    ensures Settled(finished, lim, rounds as real + 1.0, rounds == RoundCap)
  {
    var outer := 1000;
    var inner := 0;
    var active := active0;
    finished := finished0;
    var i := 0;
    RoundRadius(0);
    while |active| > 0 && i < RoundCap
      invariant 0 <= i <= RoundCap
      invariant outer == Outer(i) && inner == Inner(i)
      invariant finished + Continue(o, lim, active, i) == target
      invariant SparseWithin(finished, lim, i as real + 1.0)
      invariant forall k :: 0 <= k < |active| ==> active[k].rad == i as real + 1.0
    {
      ghost var previous := i;
      i := i + 1;
      inner := outer;
      outer := outer + 1000;
      RoundRadius(previous);
      RoundRadius(i);
      assert outer == Outer(previous + 1) && inner == Inner(previous + 1);
      var survived, kickedOut := Step(o, lim, active, outer, inner);
      GrowIteration(o, lim, target, finished, active, previous, survived, kickedOut);
      SparseWithinAppend(finished, kickedOut, lim, previous as real + 1.0, i as real + 1.0);
      finished := finished + kickedOut;
      active := survived;
    }
    assert Continue(o, lim, active, i) == active;
    FinalRows(finished, active, lim, i as real + 1.0, i == RoundCap);
    finished := finished + active;
    rounds := i;
  }

  /** Rows of radius 1 to `hi` km that, unless `capped`, were all finished by density. */
  ghost predicate Settled<G>(rows: seq<City<G>>, lim: Limits, hi: real, capped: bool)
  {
    forall k :: 0 <= k < |rows| ==> 1.0 <= rows[k].rad <= hi && (!capped ==> !IsDense(rows[k], lim))
  }

  lemma FinalRows<G>(finished: seq<City<G>>, active: seq<City<G>>, lim: Limits, hi: real, capped: bool)
    requires SparseWithin(finished, lim, hi)
    requires forall k :: 0 <= k < |active| ==> active[k].rad == hi
    requires 1.0 <= hi
    requires !capped ==> |active| == 0
    ensures Settled(finished + active, lim, hi, capped)
  {
  }

  lemma KeptRows<G>(rows: seq<City<G>>, lim: Limits, hi: real, capped: bool, minRad: real)
    requires Settled(rows, lim, hi, capped)
    ensures forall k :: 0 <= k < |Filter(rows, RadAtLeast(minRad))| ==> minRad <= Filter(rows, RadAtLeast(minRad))[k].rad
    ensures Settled(Filter(rows, RadAtLeast(minRad)), lim, hi, capped)
  {
    var r := Filter(rows, RadAtLeast(minRad));
    forall k | 0 <= k < |r| ensures 1.0 <= r[k].rad <= hi && (!capped ==> !IsDense(r[k], lim)) {
      assert r[k] in rows;
    }
  }

  lemma AppendAssociates<T>(a: seq<T>, b: seq<T>, c: seq<T>)
    ensures a + (b + c) == (a + b) + c
  {
  }

  /** Every row is finished by density, with a radius between 1 and `hi` km. */
  ghost predicate SparseWithin<G>(rows: seq<City<G>>, lim: Limits, hi: real)
  {
    forall k :: 0 <= k < |rows| ==> 1.0 <= rows[k].rad <= hi && !IsDense(rows[k], lim)
  }

  lemma SparseWithinAppend<G>(a: seq<City<G>>, b: seq<City<G>>, lim: Limits, lo: real, hi: real)
    requires SparseWithin(a, lim, lo) && lo <= hi && SparseWithin(b, lim, hi)
    ensures SparseWithin(a + b, lim, hi)
  {
  }
}
