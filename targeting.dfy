/**
 * The row tables of `prepare_targeting` in geotargeting/geotargeting.py.
 * Every city shape is looked up in the region frame, once by its polygon and
 * once by its centroid; every matching region gives one row carrying the
 * region's name with surrounding whitespace removed, and each table is sorted
 * by city name.
 *
 * The spatial predicate and the centroid are shapely calls; they are the
 * oracle functions of `Lookup`.
 */
module Targeting {

  /** One row of the region frame: its name column and its geometry. */
  datatype Region<G> = Region(name: string, geometry: G)

  /** One city shape: its name, its buffer polygon and its `overlap_population`. */
  datatype Shape<G> = Shape(name: string, geometry: G, population: int)

  /** One emitted row: `region`, `name` and `total_population`. */
  datatype TargetRow = TargetRow(region: string, name: string, totalPopulation: int)

  /** `region.intersects(g)` and `g.centroid`. */
  datatype Lookup<!G> = Lookup(intersects: (G, G) -> bool, centroid: G -> G)

  /** What a city shape is looked up by: its polygon (`overlaps`) or its centroid (`cities`). */
  datatype Probe = Polygon | Centroid

  function ProbeOf<G>(lk: Lookup<G>, probe: Probe, g: G): G
  {
    match probe
    case Polygon => g
    case Centroid => lk.centroid(g)
  }

  // ---------------------------------------------------------------- strip

  /** The characters for which Python's `str.isspace` holds. */
  predicate IsSpace(c: char)
  {
    ('\t' <= c <= '\r') || ('\U{1C}' <= c <= ' ') || c == '\U{85}' || c == '\U{A0}' || c == '\U{1680}'
    || ('\U{2000}' <= c <= '\U{200A}') || c == '\U{2028}' || c == '\U{2029}' || c == '\U{202F}'
    || c == '\U{205F}' || c == '\U{3000}'
  }

  /** `s` with its leading whitespace removed. */
  function TrimStart(s: string): (r: string)
    ensures |r| <= |s| && r == s[|s| - |r|..]
    ensures |r| > 0 ==> !IsSpace(r[0])
    ensures forall k :: 0 <= k < |s| - |r| ==> IsSpace(s[k])
  {
    if |s| > 0 && IsSpace(s[0]) then TrimStart(s[1..]) else s
  }

  /** `s` with its trailing whitespace removed. */
  function TrimEnd(s: string): (r: string)
    ensures |r| <= |s| && r == s[..|r|]
    ensures |r| > 0 ==> !IsSpace(r[|r| - 1])
    ensures forall k :: |r| <= k < |s| ==> IsSpace(s[k])
  {
    if |s| > 0 && IsSpace(s[|s| - 1]) then TrimEnd(s[..|s| - 1]) else s
  }

  /** How many characters `strip` removes from the front of `s`. */
  function Lead(s: string): nat
  {
    |s| - |TrimStart(s)|
  }

  /** Python's `x.strip()`. */
  function Strip(s: string): string
  {
    TrimEnd(TrimStart(s))
  }

  /**
   * `strip` removes exactly the whitespace at both ends: the result is the
   * middle of `s`, does not begin or end with whitespace, and everything cut
   * off is whitespace.
   */
  lemma StripSpec(s: string)
    ensures |Strip(s)| > 0 ==> !IsSpace(Strip(s)[0]) && !IsSpace(Strip(s)[|Strip(s)| - 1])
    ensures Lead(s) + |Strip(s)| <= |s| && Strip(s) == s[Lead(s)..Lead(s) + |Strip(s)|]
    ensures forall k :: 0 <= k < Lead(s) ==> IsSpace(s[k])
    ensures forall k :: Lead(s) + |Strip(s)| <= k < |s| ==> IsSpace(s[k])
  {
    var t := TrimStart(s);
    var r := TrimEnd(t);
    assert Strip(s) == r && Lead(s) == |s| - |t|;
    StripEdges(t);
    StripCut(s, t, r);
  }

  lemma StripEdges(t: string)
    requires |t| > 0 ==> !IsSpace(t[0])
    ensures |TrimEnd(t)| > 0 ==> !IsSpace(TrimEnd(t)[0]) && !IsSpace(TrimEnd(t)[|TrimEnd(t)| - 1])
  {
    var r := TrimEnd(t);
    if |r| > 0 {
      assert r[0] == t[0];
    }
  }

  lemma StripCut(s: string, t: string, r: string)
    requires |r| <= |t| <= |s|
    requires t == s[|s| - |t|..] && r == t[..|r|]
    requires forall k :: 0 <= k < |s| - |t| ==> IsSpace(s[k])
    requires forall k :: |r| <= k < |t| ==> IsSpace(t[k])
    ensures r == s[|s| - |t|..|s| - |t| + |r|]
    ensures forall k :: 0 <= k < |s| - |t| ==> IsSpace(s[k])
    ensures forall k :: |s| - |t| + |r| <= k < |s| ==> IsSpace(s[k])
  {
    var a := |s| - |t|;
    forall k | a + |r| <= k < |s|
      ensures IsSpace(s[k])
    {
      assert s[k] == t[k - a];
    }
  }

  /** Stripping twice is stripping once. */
  lemma StripIdempotent(s: string)
    ensures Strip(Strip(s)) == Strip(s)
  {
    var r := Strip(s);
    StripSpec(s);
    assert TrimStart(r) == r;
    assert TrimEnd(r) == r;
  }

  // ---------------------------------------------------------------- lookup

  /** `get_states(g)`: the stripped names of the regions that intersect `g`, in frame order. */
  function GetStates<G>(lk: Lookup<G>, regions: seq<Region<G>>, g: G): (r: seq<string>)
    ensures |r| <= |regions|
  {
    if |regions| == 0 then []
    else (if lk.intersects(regions[0].geometry, g) then [Strip(regions[0].name)] else [])
         + GetStates(lk, regions[1..], g)
  }

  /** A name is returned exactly when some intersecting region has it after stripping. */
  lemma GetStatesMembers<G>(lk: Lookup<G>, regions: seq<Region<G>>, g: G, name: string)
    ensures name in GetStates(lk, regions, g) <==>
              exists k :: 0 <= k < |regions| && lk.intersects(regions[k].geometry, g) && Strip(regions[k].name) == name
  {
    if name in GetStates(lk, regions, g) {
      var k := GetStatesSource(lk, regions, g, name);
    }
    forall k | 0 <= k < |regions| && lk.intersects(regions[k].geometry, g) && Strip(regions[k].name) == name
      ensures name in GetStates(lk, regions, g)
    {
      GetStatesHas(lk, regions, g, k);
    }
  }

  /** Every returned name comes from an intersecting region. */
  lemma {:induction false} GetStatesSource<G>(lk: Lookup<G>, regions: seq<Region<G>>, g: G, name: string)
    returns (k: nat)
    requires name in GetStates(lk, regions, g)
    ensures k < |regions| && lk.intersects(regions[k].geometry, g) && Strip(regions[k].name) == name
  {
    if lk.intersects(regions[0].geometry, g) && Strip(regions[0].name) == name {
      k := 0;
    } else {
      var j := GetStatesSource(lk, regions[1..], g, name);
      k := j + 1;
    }
  }

  /** Every intersecting region gives its stripped name. */
  lemma {:induction false} GetStatesHas<G>(lk: Lookup<G>, regions: seq<Region<G>>, g: G, k: nat)
    requires k < |regions| && lk.intersects(regions[k].geometry, g)
    ensures Strip(regions[k].name) in GetStates(lk, regions, g)
  {
    if k > 0 {
      GetStatesHas(lk, regions[1..], g, k - 1);
    }
  }

  /** The number of names equals the number of intersecting regions; none when no region intersects. */
  lemma {:induction false} GetStatesCount<G>(lk: Lookup<G>, regions: seq<Region<G>>, g: G)
    ensures |GetStates(lk, regions, g)| == Matches(lk, regions, g)
    ensures |GetStates(lk, regions, g)| == 0 <==> forall k :: 0 <= k < |regions| ==> !lk.intersects(regions[k].geometry, g)
  {
    if |regions| > 0 {
      GetStatesCount(lk, regions[1..], g);
      if forall k :: 0 <= k < |regions[1..]| ==> !lk.intersects(regions[1..][k].geometry, g) {
        forall k | 1 <= k < |regions|
          ensures !lk.intersects(regions[k].geometry, g)
        {
          assert regions[k] == regions[1..][k - 1];
        }
      } else {
        var k :| 0 <= k < |regions[1..]| && lk.intersects(regions[1..][k].geometry, g);
        assert regions[k + 1] == regions[1..][k];
      }
    }
  }

  /** How many regions intersect `g`. */
  function Matches<G>(lk: Lookup<G>, regions: seq<Region<G>>, g: G): nat
  {
    if |regions| == 0 then 0
    else (if lk.intersects(regions[0].geometry, g) then 1 else 0) + Matches(lk, regions[1..], g)
  }

  // ---------------------------------------------------------------- rows

  /** The rows one city shape contributes: as many as the regions it matches, each with its name and population. */
  function CityRows<G>(lk: Lookup<G>, regions: seq<Region<G>>, probe: Probe, c: Shape<G>): (r: seq<TargetRow>)
    ensures |r| == Matches(lk, regions, ProbeOf(lk, probe, c.geometry))
    ensures |r| == |GetStates(lk, regions, ProbeOf(lk, probe, c.geometry))|
    ensures forall k :: 0 <= k < |r| ==>
              r[k].name == c.name && r[k].totalPopulation == c.population
              && r[k].region == GetStates(lk, regions, ProbeOf(lk, probe, c.geometry))[k]
  {
    GetStatesCount(lk, regions, ProbeOf(lk, probe, c.geometry));
    var states := GetStates(lk, regions, ProbeOf(lk, probe, c.geometry));
    seq(|states|, k requires 0 <= k < |states| => TargetRow(states[k], c.name, c.population))
  }

  /**
   * A city shape emits a row exactly when the row carries the shape's name and
   * population and the stripped name of a region that intersects the probe.
   */
  lemma CityRowsMembers<G>(lk: Lookup<G>, regions: seq<Region<G>>, probe: Probe, c: Shape<G>, row: TargetRow)
    ensures row in CityRows(lk, regions, probe, c) <==>
              row.name == c.name && row.totalPopulation == c.population
              && exists j :: 0 <= j < |regions| && lk.intersects(regions[j].geometry, ProbeOf(lk, probe, c.geometry))
                             && Strip(regions[j].name) == row.region
  {
    var g := ProbeOf(lk, probe, c.geometry);
    var rows := CityRows(lk, regions, probe, c);
    var states := GetStates(lk, regions, g);
    GetStatesMembers(lk, regions, g, row.region);
    if row.name == c.name && row.totalPopulation == c.population && row.region in states {
      var m :| 0 <= m < |states| && states[m] == row.region;
      assert rows[m] == row;
    }
  }

  /** The list comprehension over city shapes and their regions. */
  function RegionRows<G>(lk: Lookup<G>, regions: seq<Region<G>>, probe: Probe, shapes: seq<Shape<G>>): seq<TargetRow>
  {
    if |shapes| == 0 then [] else CityRows(lk, regions, probe, shapes[0]) + RegionRows(lk, regions, probe, shapes[1..])
  }

  /** How many rows the shapes give: the sum over shapes of their matching regions. */
  function RowCount<G>(lk: Lookup<G>, regions: seq<Region<G>>, probe: Probe, shapes: seq<Shape<G>>): nat
  {
    if |shapes| == 0 then 0
    else Matches(lk, regions, ProbeOf(lk, probe, shapes[0].geometry)) + RowCount(lk, regions, probe, shapes[1..])
  }

  /** A shape contributes one row per matching region, and none when no region matches. */
  lemma {:induction false} RegionRowsCount<G>(lk: Lookup<G>, regions: seq<Region<G>>, probe: Probe, shapes: seq<Shape<G>>)
    ensures |RegionRows(lk, regions, probe, shapes)| == RowCount(lk, regions, probe, shapes)
  {
    if |shapes| > 0 {
      RegionRowsCount(lk, regions, probe, shapes[1..]);
      GetStatesCount(lk, regions, ProbeOf(lk, probe, shapes[0].geometry));
    }
  }

  /**
   * A row is emitted exactly when some shape has its name and population and
   * some region matching that shape has its region name after stripping.
   */
  lemma RegionRowsMembers<G>(lk: Lookup<G>, regions: seq<Region<G>>, probe: Probe,
                             shapes: seq<Shape<G>>, row: TargetRow)
    ensures row in RegionRows(lk, regions, probe, shapes) <==>
              exists k :: 0 <= k < |shapes| && EmittedFor(lk, regions, probe, shapes[k], row)
  {
    if row in RegionRows(lk, regions, probe, shapes) {
      var k := RowSource(lk, regions, probe, shapes, row);
    }
    forall k | 0 <= k < |shapes| && EmittedFor(lk, regions, probe, shapes[k], row)
      ensures row in RegionRows(lk, regions, probe, shapes)
    {
      RowHas(lk, regions, probe, shapes, k, row);
    }
  }

  /** `row` carries the name and population of `c` and one of the regions `c` matches. */
  predicate EmittedFor<G>(lk: Lookup<G>, regions: seq<Region<G>>, probe: Probe, c: Shape<G>, row: TargetRow)
  {
    row.name == c.name && row.totalPopulation == c.population
    && row.region in GetStates(lk, regions, ProbeOf(lk, probe, c.geometry))
  }

  lemma {:induction false} RowSource<G>(lk: Lookup<G>, regions: seq<Region<G>>, probe: Probe,
                                        shapes: seq<Shape<G>>, row: TargetRow) returns (k: nat)
    requires row in RegionRows(lk, regions, probe, shapes)
    ensures k < |shapes| && EmittedFor(lk, regions, probe, shapes[k], row)
  {
    var own := CityRows(lk, regions, probe, shapes[0]);
    if row in own {
      var m :| 0 <= m < |own| && own[m] == row;
      k := 0;
    } else {
      var j := RowSource(lk, regions, probe, shapes[1..], row);
      k := j + 1;
    }
  }

  lemma {:induction false} RowHas<G>(lk: Lookup<G>, regions: seq<Region<G>>, probe: Probe,
                                     shapes: seq<Shape<G>>, k: nat, row: TargetRow)
    requires k < |shapes| && EmittedFor(lk, regions, probe, shapes[k], row)
    ensures row in RegionRows(lk, regions, probe, shapes)
  {
    if k == 0 {
      var states := GetStates(lk, regions, ProbeOf(lk, probe, shapes[0].geometry));
      var m :| 0 <= m < |states| && states[m] == row.region;
      assert CityRows(lk, regions, probe, shapes[0])[m] == row;
    } else {
      RowHas(lk, regions, probe, shapes[1..], k - 1, row);
    }
  }

  // ---------------------------------------------------------------- sorting

  /** Python's string order: lexicographic by code point. */
  predicate NameLeq(a: string, b: string)
  {
    |a| == 0 || (|b| > 0 && (a[0] < b[0] || (a[0] == b[0] && NameLeq(a[1..], b[1..]))))
  }

  lemma {:induction false} NameLeqTotal(a: string, b: string)
    ensures NameLeq(a, b) || NameLeq(b, a)
  {
    if |a| > 0 && |b| > 0 && a[0] == b[0] {
      NameLeqTotal(a[1..], b[1..]);
    }
  }

  lemma {:induction false} NameLeqTransitive(a: string, b: string, c: string)
    requires NameLeq(a, b) && NameLeq(b, c)
    ensures NameLeq(a, c)
  {
    if |a| > 0 && a[0] == b[0] && b[0] == c[0] {
      NameLeqTransitive(a[1..], b[1..], c[1..]);
    }
  }

  /** Every row's name is at most the next row's name. */
  predicate SortedByName(rows: seq<TargetRow>)
  {
    forall k :: 0 <= k < |rows| - 1 ==> NameLeq(rows[k].name, rows[k + 1].name)
  }

  /** Inserts `x` before the first row whose name is not smaller. */
  function Insert(x: TargetRow, rows: seq<TargetRow>): (r: seq<TargetRow>)
    requires SortedByName(rows)
    ensures SortedByName(r)
    ensures multiset(r) == multiset(rows) + multiset{x}
    ensures |r| > 0 && (r[0] == x || (|rows| > 0 && r[0] == rows[0]))
  {
    if |rows| == 0 then [x]
    else if NameLeq(x.name, rows[0].name) then [x] + rows
    else
      NameLeqTotal(x.name, rows[0].name);
      var rest := Insert(x, rows[1..]);
      assert rows == [rows[0]] + rows[1..];
      [rows[0]] + rest
  }

  /** `sort_values('name')`: the same rows, ordered by name. */
  function SortByName(rows: seq<TargetRow>): (r: seq<TargetRow>)
    ensures SortedByName(r)
    ensures multiset(r) == multiset(rows)
  {
    if |rows| == 0 then []
    else
      assert rows == [rows[0]] + rows[1..];
      Insert(rows[0], SortByName(rows[1..]))
  }

  /** Sorted by neighbours means sorted by every pair. */
  lemma {:induction false} SortedPairwise(rows: seq<TargetRow>, i: nat, j: nat)
    requires SortedByName(rows) && i <= j < |rows|
    ensures NameLeq(rows[i].name, rows[j].name)
    decreases j - i
  {
    if i == j {
      NameLeqTotal(rows[i].name, rows[i].name);
    } else {
      SortedPairwise(rows, i + 1, j);
      NameLeqTransitive(rows[i].name, rows[i + 1].name, rows[j].name);
    }
  }

  /**
   * `prepare_targeting` without the merge: the centroid table and the overlap
   * table, each the rows of its lookup sorted by name.
   */
  function PrepareTargeting<G>(lk: Lookup<G>, regions: seq<Region<G>>, shapes: seq<Shape<G>>)
    : (r: (seq<TargetRow>, seq<TargetRow>))
    ensures SortedByName(r.0) && multiset(r.0) == multiset(RegionRows(lk, regions, Centroid, shapes))
    ensures SortedByName(r.1) && multiset(r.1) == multiset(RegionRows(lk, regions, Polygon, shapes))
  {
    (SortByName(RegionRows(lk, regions, Centroid, shapes)), SortByName(RegionRows(lk, regions, Polygon, shapes)))
  }
}
