/**
 * Grid clustering of the map markers (calculateClusters): each marker is
 * filed under the 2-degree cell that holds it, and each occupied cell becomes
 * one cluster with the number of its markers and their mean position.
 * Coordinates are exact reals, so the incremental mean is exact here.
 */
module Clustering {
  import opened Markers
  import GridKey

  /** A cluster as shown on the map: how many markers it holds and its centre. */
  datatype Cluster = Cluster(count: nat, lat: real, lng: real)

  /** A grid cell: gridX indexes longitude, gridY latitude. */
  datatype Cell = Cell(x: int, y: int)

  /** Side of a grid cell, in degrees. */
  const GridSize: real := 2.0

  /** The cell of a marker: (floor(longitude / 2), floor(latitude / 2)). */
  function CellOf(m: Marker): Cell
  {
    Cell((m.longitude / GridSize).Floor, (m.latitude / GridSize).Floor)
  }

  /** A marker lies inside its cell: 2 * gridX <= longitude < 2 * (gridX + 1), and likewise for latitude. */
  lemma CellBounds(m: Marker)
    ensures var c := CellOf(m);
      GridSize * c.x as real <= m.longitude < GridSize * (c.x + 1) as real &&
      GridSize * c.y as real <= m.latitude < GridSize * (c.y + 1) as real
  {
  }

  function CellKey(c: Cell): string
  {
    GridKey.Key(c.x, c.y)
  }

  predicate Distinct(s: seq<Cell>)
  {
    forall i, j :: 0 <= i < j < |s| ==> s[i] != s[j]
  }

  // ---------------------------------------------------------------------
  // Specification: what the table holds after the markers have been read.
  // Every definition consumes the markers from the end, as the loop does.
  // ---------------------------------------------------------------------

  /** The occupied cells, in the order in which each first occurs among the markers. */
  function Occupied(ms: seq<Marker>): seq<Cell>
  {
    if ms == [] then []
    else
      var prev, c := Occupied(ms[..|ms| - 1]), CellOf(ms[|ms| - 1]);
      if c in prev then prev else prev + [c]
  }

  /** How many markers lie in cell `c`. */
  function CountIn(ms: seq<Marker>, c: Cell): nat
  {
    if ms == [] then 0
    else CountIn(ms[..|ms| - 1], c) + (if CellOf(ms[|ms| - 1]) == c then 1 else 0)
  }

  /** The sum of the latitudes of the markers in cell `c`. */
  function LatSum(ms: seq<Marker>, c: Cell): real
  {
    if ms == [] then 0.0
    else LatSum(ms[..|ms| - 1], c) + (if CellOf(ms[|ms| - 1]) == c then ms[|ms| - 1].latitude else 0.0)
  }

  /** The sum of the longitudes of the markers in cell `c`. */
  function LngSum(ms: seq<Marker>, c: Cell): real
  {
    if ms == [] then 0.0
    else LngSum(ms[..|ms| - 1], c) + (if CellOf(ms[|ms| - 1]) == c then ms[|ms| - 1].longitude else 0.0)
  }

  /** The cluster of cell `c`: its marker count and the arithmetic mean of their coordinates. */
  function Summary(ms: seq<Marker>, c: Cell): Cluster
  {
    var n := CountIn(ms, c);
    if n == 0 then Cluster(0, 0.0, 0.0)
    else Cluster(n, LatSum(ms, c) / n as real, LngSum(ms, c) / n as real)
  }

  /** The clusters calculateClusters publishes: one per occupied cell, in first-occurrence order. */
  function Clusters(ms: seq<Marker>): seq<Cluster>
  {
    var cells := Occupied(ms);
    seq(|cells|, k requires 0 <= k < |cells| => Summary(ms, cells[k]))
  }

  // ---------------------------------------------------------------------
  // The loop of calculateClusters.
  // ---------------------------------------------------------------------

  /**
   * calculateClusters: reads the markers in order into a table keyed by
   * `${gridX}-${gridY}`; a new key gets count 1 and the marker's position,
   * a known key gets count + 1 and its centre moved by the incremental mean.
   * The result is Object.values of the table: insertion order, since no key
   * is an array index (GridKey.KeyIsNotArrayIndex).
   */
  method CalculateClusters(markers: seq<Marker>) returns (clusters: seq<Cluster>)
    ensures clusters == Clusters(markers)
  {
    var keys: seq<string> := [];
    var table: map<string, Cluster> := map[];
    var i := 0;
    while i < |markers|
      invariant 0 <= i <= |markers|
      invariant Tabulates(keys, table, markers[..i])
    {
      var marker := markers[i];
      var gridX := (marker.longitude / GridSize).Floor;
      var gridY := (marker.latitude / GridSize).Floor;
      var key := GridKey.Key(gridX, gridY);
      assert markers[..i + 1] == markers[..i] + [marker];

      if key !in table {
        TabulateNewCell(keys, table, markers[..i], marker);
        table := table[key := Cluster(1, marker.latitude, marker.longitude)];
        keys := keys + [key];
      } else {
        TabulateKnownCell(keys, table, markers[..i], marker);
        table := table[key := Absorb(table[key], marker)];
      }
      i := i + 1;
    }
    assert markers[..i] == markers;
    TabulatedClusters(keys, table, markers);
    clusters := seq(|keys|, k requires 0 <= k < |keys| => table[keys[k]]);
  }

  /**
   * The loop invariant of calculateClusters: after the markers `ms`, the
   * keys in insertion order are those of the occupied cells in first-
   * occurrence order, and each key maps to its cell's summary.
   */
  ghost predicate Tabulates(keys: seq<string>, table: map<string, Cluster>, ms: seq<Marker>)
  {
    |keys| == |Occupied(ms)| &&
    (forall k :: 0 <= k < |keys| ==> keys[k] == CellKey(Occupied(ms)[k])) &&
    (forall c :: CellKey(c) in table <==> c in Occupied(ms)) &&
    (forall c :: c in Occupied(ms) ==> table[CellKey(c)] == Summary(ms, c))
  }

  /** Reading the table's values in key insertion order gives the specified clusters. */
  lemma TabulatedClusters(keys: seq<string>, table: map<string, Cluster>, ms: seq<Marker>)
    requires Tabulates(keys, table, ms)
    ensures forall k :: 0 <= k < |keys| ==> keys[k] in table
    ensures seq(|keys|, k requires 0 <= k < |keys| => table[keys[k]]) == Clusters(ms)
  {
    forall k | 0 <= k < |keys| ensures keys[k] in table && table[keys[k]] == Summary(ms, Occupied(ms)[k]) {
      assert Occupied(ms)[k] in Occupied(ms);
    }
  }

  /** Distinct cells have distinct keys. */
  lemma CellKeyInjective(c: Cell, d: Cell)
    ensures CellKey(c) == CellKey(d) <==> c == d
  {
    GridKey.KeyInjective(c.x, c.y, d.x, d.y);
  }

  /** A marker in a cell not yet in the table adds that cell, with count 1 at the marker's position. */
  lemma TabulateNewCell(keys: seq<string>, table: map<string, Cluster>, p: seq<Marker>, m: Marker)
    requires Tabulates(keys, table, p)
    requires CellKey(CellOf(m)) !in table
    ensures Tabulates(keys + [CellKey(CellOf(m))],
                      table[CellKey(CellOf(m)) := Cluster(1, m.latitude, m.longitude)], p + [m])
  {
    var q, cell := p + [m], CellOf(m);
    assert q[..|q| - 1] == p;
    forall c ensures CellKey(c) == CellKey(cell) <==> c == cell {
      CellKeyInjective(c, cell);
    }
    OccupiedCounts(p);
    FirstInCell(p, m);
    OtherCellsUnchanged(p, m);
  }

  /** A marker in a known cell moves that cell's entry to the incremental mean and leaves the keys alone. */
  lemma TabulateKnownCell(keys: seq<string>, table: map<string, Cluster>, p: seq<Marker>, m: Marker)
    requires Tabulates(keys, table, p)
    requires CellKey(CellOf(m)) in table
    ensures Tabulates(keys, table[CellKey(CellOf(m)) := Absorb(table[CellKey(CellOf(m))], m)], p + [m])
  {
    var q, cell := p + [m], CellOf(m);
    assert q[..|q| - 1] == p;
    forall c ensures CellKey(c) == CellKey(cell) <==> c == cell {
      CellKeyInjective(c, cell);
    }
    RunningMean(p, m);
    OtherCellsUnchanged(p, m);
  }

  /** The update of a known cell's entry: count + 1, then the centre moved by the incremental mean. */
  function Absorb(cl: Cluster, m: Marker): Cluster
  {
    var count := cl.count + 1;
    Cluster(count,
            (cl.lat * (count - 1) as real + m.latitude) / count as real,
            (cl.lng * (count - 1) as real + m.longitude) / count as real)
  }

  /**
   * The incremental mean is the mean: one marker more moves its cell's
   * summary exactly as Absorb does, from the empty summary too.
   */
  lemma RunningMean(p: seq<Marker>, m: Marker)
    ensures Summary(p + [m], CellOf(m)) == Absorb(Summary(p, CellOf(m)), m)
  {
    var q, c := p + [m], CellOf(m);
    assert q[..|q| - 1] == p;
    var n := CountIn(p, c);
    if n == 0 {
      EmptyCellSums(p, c);
    } else {
      var s := LatSum(p, c);
      assert (s / n as real) * n as real == s;
      var t := LngSum(p, c);
      assert (t / n as real) * n as real == t;
    }
  }

  /** The first marker of a cell makes a cluster of one at the marker's position. */
  lemma FirstInCell(p: seq<Marker>, m: Marker)
    requires CountIn(p, CellOf(m)) == 0
    ensures Summary(p + [m], CellOf(m)) == Cluster(1, m.latitude, m.longitude)
  {
    var q := p + [m];
    assert q[..|q| - 1] == p;
    EmptyCellSums(p, CellOf(m));
  }

  /** A marker leaves the summaries of all other cells alone. */
  lemma OtherCellsUnchanged(p: seq<Marker>, m: Marker)
    ensures forall c :: c != CellOf(m) ==> Summary(p + [m], c) == Summary(p, c)
  {
    var q := p + [m];
    assert q[..|q| - 1] == p;
  }

  /** A cell without markers has coordinate sums zero. */
  lemma {:induction false} EmptyCellSums(ms: seq<Marker>, c: Cell)
    requires CountIn(ms, c) == 0
    ensures LatSum(ms, c) == 0.0 && LngSum(ms, c) == 0.0
  {
    if ms != [] {
      EmptyCellSums(ms[..|ms| - 1], c);
    }
  }

  // ---------------------------------------------------------------------
  // Properties of the clusters.
  // ---------------------------------------------------------------------

  /**
   * The occupied cells are exactly the cells holding at least one marker,
   * each listed once.
   */
  lemma {:induction false} OccupiedCounts(ms: seq<Marker>)
    ensures forall c :: c in Occupied(ms) <==> CountIn(ms, c) > 0
    ensures Distinct(Occupied(ms))
  {
    if ms != [] {
      OccupiedCounts(ms[..|ms| - 1]);
    }
  }

  /** A cell is occupied exactly when some marker lies in it. */
  lemma {:induction false} OccupiedByMarkers(ms: seq<Marker>)
    ensures forall k :: 0 <= k < |ms| ==> CellOf(ms[k]) in Occupied(ms)
    ensures forall c :: c in Occupied(ms) ==> exists k :: 0 <= k < |ms| && CellOf(ms[k]) == c
  {
    if ms != [] {
      var p := ms[..|ms| - 1];
      OccupiedByMarkers(p);
      forall c | c in Occupied(ms) ensures exists k :: 0 <= k < |ms| && CellOf(ms[k]) == c {
        if c in Occupied(p) {
          var k :| 0 <= k < |p| && CellOf(p[k]) == c;
          assert ms[k] == p[k];
        } else {
          assert CellOf(ms[|ms| - 1]) == c;
        }
      }
      forall k | 0 <= k < |ms| ensures CellOf(ms[k]) in Occupied(ms) {
        if k < |p| {
          assert ms[k] == p[k];
        }
      }
    }
  }

  /** The sum of the counts of `cs`. */
  function TotalCount(cs: seq<Cluster>): nat
  {
    if cs == [] then 0 else TotalCount(cs[..|cs| - 1]) + cs[|cs| - 1].count
  }

  /** The number of markers lying in any of `cells`, counted per cell. */
  function CountSum(ms: seq<Marker>, cells: seq<Cell>): nat
  {
    if cells == [] then 0 else CountSum(ms, cells[..|cells| - 1]) + CountIn(ms, cells[|cells| - 1])
  }

  lemma {:induction false} CountSumAppend(p: seq<Marker>, m: Marker, cells: seq<Cell>)
    requires Distinct(cells)
    ensures CountSum(p + [m], cells) == CountSum(p, cells) + (if CellOf(m) in cells then 1 else 0)
  {
    var q := p + [m];
    assert q[..|q| - 1] == p;
    if cells != [] {
      var init := cells[..|cells| - 1];
      assert forall c :: c in init ==> c in cells;
      CountSumAppend(p, m, init);
      assert CellOf(m) in cells <==> CellOf(m) in init || CellOf(m) == cells[|cells| - 1];
    }
  }

  lemma {:induction false} CountSumOccupied(ms: seq<Marker>)
    ensures CountSum(ms, Occupied(ms)) == |ms|
  {
    if ms != [] {
      var p, m := ms[..|ms| - 1], ms[|ms| - 1];
      assert ms == p + [m];
      OccupiedCounts(p);
      CountSumOccupied(p);
      CountSumAppend(p, m, Occupied(p));
      if CellOf(m) !in Occupied(p) {
        var cells := Occupied(p) + [CellOf(m)];
        assert cells[..|cells| - 1] == Occupied(p);
      }
    }
  }

  lemma {:induction false} TotalCountOfSummaries(ms: seq<Marker>, cs: seq<Cluster>, cells: seq<Cell>)
    requires |cs| == |cells|
    requires forall k :: 0 <= k < |cs| ==> cs[k].count == CountIn(ms, cells[k])
    ensures TotalCount(cs) == CountSum(ms, cells)
  {
    if cs != [] {
      TotalCountOfSummaries(ms, cs[..|cs| - 1], cells[..|cells| - 1]);
    }
  }

  /** The cluster counts add up to the number of markers. */
  lemma CountsAddUp(ms: seq<Marker>)
    ensures TotalCount(Clusters(ms)) == |ms|
  {
    TotalCountOfSummaries(ms, Clusters(ms), Occupied(ms));
    CountSumOccupied(ms);
  }

  /** Every cluster holds at least one marker, and there are clusters exactly when there are markers. */
  lemma ClustersNonEmpty(ms: seq<Marker>)
    ensures forall cl :: cl in Clusters(ms) ==> cl.count >= 1
    ensures Clusters(ms) == [] <==> ms == []
  {
    OccupiedCounts(ms);
    OccupiedByMarkers(ms);
    if ms != [] {
      assert CellOf(ms[0]) in Occupied(ms);
    }
  }

  /** The index of `c` in a list of distinct cells. */
  function IndexOf(cells: seq<Cell>, c: Cell): (k: nat)
    requires c in cells
    ensures k < |cells| && cells[k] == c
  {
    if cells[0] == c then 0 else 1 + IndexOf(cells[1..], c)
  }

  /** The cluster that marker `k` is counted in. */
  function ClusterOf(ms: seq<Marker>, k: nat): (r: nat)
    requires k < |ms|
    ensures r < |Clusters(ms)| && Occupied(ms)[r] == CellOf(ms[k])
  {
    OccupiedByMarkers(ms);
    IndexOf(Occupied(ms), CellOf(ms[k]))
  }

  /** Two markers share a cluster exactly when both their floor(lon / 2) and their floor(lat / 2) agree. */
  lemma SameClusterIff(ms: seq<Marker>, i: nat, j: nat)
    requires i < |ms| && j < |ms|
    ensures ClusterOf(ms, i) == ClusterOf(ms, j) <==>
      (ms[i].longitude / GridSize).Floor == (ms[j].longitude / GridSize).Floor &&
      (ms[i].latitude / GridSize).Floor == (ms[j].latitude / GridSize).Floor
  {
  }

  /** Each marker is counted in exactly one cluster: the only cluster of its cell is ClusterOf. */
  lemma ExactlyOneCluster(ms: seq<Marker>, i: nat)
    requires i < |ms|
    ensures forall r :: 0 <= r < |Clusters(ms)| ==> (Occupied(ms)[r] == CellOf(ms[i]) <==> r == ClusterOf(ms, i))
  {
    OccupiedCounts(ms);
  }

  /** Counts and coordinate sums of a cell split over a concatenation. */
  lemma {:induction false} SplitSums(a: seq<Marker>, b: seq<Marker>, c: Cell)
    ensures CountIn(a + b, c) == CountIn(a, c) + CountIn(b, c)
    ensures LatSum(a + b, c) == LatSum(a, c) + LatSum(b, c)
    ensures LngSum(a + b, c) == LngSum(a, c) + LngSum(b, c)
  {
    if b == [] {
      assert a + b == a;
    } else {
      var ab := a + b;
      assert ab[..|ab| - 1] == a + b[..|b| - 1];
      SplitSums(a, b[..|b| - 1], c);
    }
  }

  /** Taking out the marker at position i lowers a cell's count and sums by that marker's part. */
  lemma RemoveMarker(ms: seq<Marker>, i: nat, c: Cell)
    requires i < |ms|
    ensures var rest, inC := ms[..i] + ms[i + 1..], CellOf(ms[i]) == c;
      CountIn(ms, c) == CountIn(rest, c) + (if inC then 1 else 0) &&
      LatSum(ms, c) == LatSum(rest, c) + (if inC then ms[i].latitude else 0.0) &&
      LngSum(ms, c) == LngSum(rest, c) + (if inC then ms[i].longitude else 0.0)
  {
    assert ms == ms[..i] + [ms[i]] + ms[i + 1..];
    SplitSums(ms[..i] + [ms[i]], ms[i + 1..], c);
    SplitSums(ms[..i], [ms[i]], c);
    SplitSums(ms[..i], ms[i + 1..], c);
    assert [ms[i]][..0] == [];
  }

  /** Taking the last marker of ms1 out of a permutation ms2 leaves a permutation of the rest of ms1. */
  lemma PermutationRest(ms1: seq<Marker>, ms2: seq<Marker>, i: nat)
    requires ms1 != [] && multiset(ms1) == multiset(ms2)
    requires i < |ms2| && ms2[i] == ms1[|ms1| - 1]
    ensures multiset(ms1[..|ms1| - 1]) == multiset(ms2[..i] + ms2[i + 1..])
  {
    var init, x := ms1[..|ms1| - 1], ms1[|ms1| - 1];
    assert ms1 == init + [x];
    assert ms2 == ms2[..i] + [x] + ms2[i + 1..];
    assert multiset(ms2) == multiset(ms2[..i]) + multiset{x} + multiset(ms2[i + 1..]);
    assert multiset(ms1) == multiset(init) + multiset{x};
    assert multiset(ms2[..i] + ms2[i + 1..]) == multiset(ms2) - multiset{x};
  }

  /** The order in which the markers are read does not change any cell's count or sums. */
  lemma {:induction false} SumsPermutation(ms1: seq<Marker>, ms2: seq<Marker>, c: Cell)
    requires multiset(ms1) == multiset(ms2)
    ensures CountIn(ms1, c) == CountIn(ms2, c)
    ensures LatSum(ms1, c) == LatSum(ms2, c) && LngSum(ms1, c) == LngSum(ms2, c)
    decreases |ms1|
  {
    if ms1 == [] {
      assert |ms2| == |multiset(ms2)| == 0;
    } else {
      var n := |ms1| - 1;
      assert ms1[n] in multiset(ms2);
      var i :| 0 <= i < |ms2| && ms2[i] == ms1[n];
      PermutationRest(ms1, ms2, i);
      SumsPermutation(ms1[..n], ms2[..i] + ms2[i + 1..], c);
      RemoveMarker(ms2, i, c);
      RemoveMarker(ms1, n, c);
      assert ms1[..n] + ms1[n + 1..] == ms1[..n];
    }
  }

  /** A cell's cluster, count and centroid, does not depend on the order in which its markers are accumulated. */
  lemma SummaryPermutation(ms1: seq<Marker>, ms2: seq<Marker>, c: Cell)
    requires multiset(ms1) == multiset(ms2)
    ensures Summary(ms1, c) == Summary(ms2, c)
  {
    SumsPermutation(ms1, ms2, c);
  }

  /** A cluster of one marker sits exactly on that marker. */
  lemma {:induction false} SingleMarkerCluster(ms: seq<Marker>, c: Cell)
    requires CountIn(ms, c) == 1
    ensures exists k :: (0 <= k < |ms| && CellOf(ms[k]) == c &&
                          Summary(ms, c).lat == ms[k].latitude && Summary(ms, c).lng == ms[k].longitude)
  {
    var p, m := ms[..|ms| - 1], ms[|ms| - 1];
    if CellOf(m) == c {
      EmptyCellSums(p, c);
      assert CellOf(ms[|ms| - 1]) == c;
    } else {
      SingleMarkerCluster(p, c);
      var k :| 0 <= k < |p| && CellOf(p[k]) == c &&
        Summary(p, c).lat == p[k].latitude && Summary(p, c).lng == p[k].longitude;
      assert ms[k] == p[k];
    }
  }

  /** n copies of v added up: n * v written without a multiplication. */
  function Times(n: nat, v: real): real
  {
    if n == 0 then 0.0 else Times(n - 1, v) + v
  }

  lemma {:induction false} TimesIsProduct(n: nat, v: real)
    ensures Times(n, v) == n as real * v
  {
    if n > 0 {
      TimesIsProduct(n - 1, v);
    }
  }

  /** The longitudes of the markers of an occupied cell add up to within count times its west and east edges. */
  lemma {:induction false} LngSumWithinCell(ms: seq<Marker>, c: Cell)
    ensures var n := CountIn(ms, c);
      Times(n, GridSize * c.x as real) <= LngSum(ms, c) <= Times(n, GridSize * (c.x + 1) as real) &&
      (n > 0 ==> LngSum(ms, c) < Times(n, GridSize * (c.x + 1) as real))
  {
    if ms != [] {
      var p, m := ms[..|ms| - 1], ms[|ms| - 1];
      LngSumWithinCell(p, c);
      if CellOf(m) == c {
        CellBounds(m);
      }
    }
  }

  /** The latitudes of the markers of an occupied cell add up to within count times its south and north edges. */
  lemma {:induction false} LatSumWithinCell(ms: seq<Marker>, c: Cell)
    ensures var n := CountIn(ms, c);
      Times(n, GridSize * c.y as real) <= LatSum(ms, c) <= Times(n, GridSize * (c.y + 1) as real) &&
      (n > 0 ==> LatSum(ms, c) < Times(n, GridSize * (c.y + 1) as real))
  {
    if ms != [] {
      var p, m := ms[..|ms| - 1], ms[|ms| - 1];
      LatSumWithinCell(p, c);
      if CellOf(m) == c {
        CellBounds(m);
      }
    }
  }

  /** The mean of n values within [lo, hi) is within [lo, hi). */
  lemma MeanWithin(s: real, n: nat, lo: real, hi: real)
    requires n > 0 && Times(n, lo) <= s < Times(n, hi)
    ensures lo <= s / n as real < hi
  {
    TimesIsProduct(n, lo);
    TimesIsProduct(n, hi);
    var r := n as real;
    assert (s / r) * r == s;
  }

  /** Each cluster's centre lies inside the grid cell of its key. */
  lemma CentroidInCell(ms: seq<Marker>, k: nat)
    requires k < |Clusters(ms)|
    ensures var c, cl := Occupied(ms)[k], Clusters(ms)[k];
      GridSize * c.x as real <= cl.lng < GridSize * (c.x + 1) as real &&
      GridSize * c.y as real <= cl.lat < GridSize * (c.y + 1) as real
  {
    var c := Occupied(ms)[k];
    OccupiedCounts(ms);
    LngSumWithinCell(ms, c);
    LatSumWithinCell(ms, c);
    var n := CountIn(ms, c);
    MeanWithin(LngSum(ms, c), n, GridSize * c.x as real, GridSize * (c.x + 1) as real);
    MeanWithin(LatSum(ms, c), n, GridSize * c.y as real, GridSize * (c.y + 1) as real);
  }

  /** The index of the first marker lying in `c`, or |ms| when none does. */
  function FirstIndex(ms: seq<Marker>, c: Cell): (k: nat)
    ensures k <= |ms|
    ensures k < |ms| ==> CellOf(ms[k]) == c
    ensures forall l :: 0 <= l < k ==> CellOf(ms[l]) != c
  {
    if ms == [] then 0
    else if CellOf(ms[0]) == c then 0
    else 1 + FirstIndex(ms[1..], c)
  }

  /** Appending a marker keeps the first index of every cell that already occurs. */
  lemma {:induction false} FirstIndexAppend(p: seq<Marker>, m: Marker, c: Cell)
    ensures FirstIndex(p, c) < |p| ==> FirstIndex(p + [m], c) == FirstIndex(p, c)
    ensures FirstIndex(p, c) == |p| ==> FirstIndex(p + [m], c) >= |p|
  {
    if p != [] {
      assert (p + [m])[1..] == p[1..] + [m];
      FirstIndexAppend(p[1..], m, c);
    }
  }

  /** A cell is occupied exactly when its first index is a marker's. */
  lemma OccupiedFirstIndex(ms: seq<Marker>, c: Cell)
    ensures c in Occupied(ms) <==> FirstIndex(ms, c) < |ms|
  {
    OccupiedByMarkers(ms);
  }

  /** Clusters come in the order in which their cells first occur among the markers. */
  lemma {:induction false} FirstOccurrenceOrder(ms: seq<Marker>, i: nat, j: nat)
    requires i < j < |Clusters(ms)|
    ensures FirstIndex(ms, Occupied(ms)[i]) < FirstIndex(ms, Occupied(ms)[j]) < |ms|
  {
    var p, m := ms[..|ms| - 1], ms[|ms| - 1];
    assert ms == p + [m];
    var ci, cj := Occupied(ms)[i], Occupied(ms)[j];
    assert ci == Occupied(p)[i];
    OccupiedFirstIndex(p, ci);
    FirstIndexAppend(p, m, ci);
    FirstIndexAppend(p, m, cj);
    if j < |Occupied(p)| {
      FirstOccurrenceOrder(p, i, j);
      assert cj == Occupied(p)[j];
    } else {
      assert cj == CellOf(m) && cj !in Occupied(p);
      OccupiedFirstIndex(p, cj);
      OccupiedFirstIndex(ms, cj);
    }
  }

  /** Two markers in the cell at the origin and one far away make two clusters, the first centred between its two markers. */
  lemma TwoCellExample()
    ensures Clusters([Marker("a", 0.0, 0.0), Marker("b", 0.0, 1.0), Marker("c", 10.0, 10.0)])
         == [Cluster(2, 0.0, 0.5), Cluster(1, 10.0, 10.0)]
  {
    var a, b, c := Marker("a", 0.0, 0.0), Marker("b", 0.0, 1.0), Marker("c", 10.0, 10.0);
    var p1, p2, ms := [a], [a, b], [a, b, c];
    var near, far := Cell(0, 0), Cell(5, 5);
    assert CellOf(a) == near && CellOf(b) == near && CellOf(c) == far;
    assert p1[..0] == [] && p2[..1] == p1 && ms[..2] == p2;
    assert Occupied(p1) == [near];
    assert Occupied(p2) == [near];
    assert Occupied(ms) == [near, far];
    assert CountIn(p1, near) == 1 && CountIn(p2, near) == 2 && CountIn(ms, near) == 2;
    assert CountIn(p1, far) == 0 && CountIn(p2, far) == 0 && CountIn(ms, far) == 1;
    assert LatSum(p1, near) == 0.0 && LngSum(p1, near) == 0.0;
    assert LatSum(p2, near) == LatSum(p1, near) + b.latitude;
    assert LngSum(p2, near) == LngSum(p1, near) + b.longitude;
    assert LatSum(ms, near) == LatSum(p2, near) && LngSum(ms, near) == LngSum(p2, near);
    assert LatSum(p1, far) == 0.0 && LngSum(p1, far) == 0.0;
    assert LatSum(p2, far) == 0.0 && LngSum(p2, far) == 0.0;
    assert LatSum(ms, far) == c.latitude && LngSum(ms, far) == c.longitude;
    assert Summary(ms, near) == Cluster(2, 0.0, 0.5);
    assert Summary(ms, far) == Cluster(1, 10.0, 10.0);
  }
}
