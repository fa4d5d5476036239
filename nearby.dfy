/**
 * The nearby search of handleCalloutPress: drop the pressed marker (by
 * identity), attach to every other marker its distance from the pressed
 * one, keep those within the search radius and sort them nearest first.
 * The haversine distance is a parameter; list identity is the position in
 * the marker list.
 */
module Nearby {
  import opened Markers

  /** calculateDistance(lat1, lon1, lat2, lon2), in kilometres. */
  type Distance = (real, real, real, real) -> real

  /**
   * `{ ...m, distance }`: a fresh copy of list element `from` carrying its
   * distance. `from` records which element was copied; the copy itself is
   * identical to no list element.
   */
  datatype NearbyResult = NearbyResult(from: nat, marker: Marker, distance: real)

  /**
   * The marker handleCalloutPress receives: an element of the marker list
   * (a map pin's callout), or a result object of an earlier search (an entry
   * of the nearby list), which is not in the marker list.
   */
  datatype Reference = Element(index: nat) | Detached(copy: NearbyResult)

  predicate ValidReference(ms: seq<Marker>, ref: Reference)
  {
    ref.Element? ==> ref.index < |ms|
  }

  /** The position the distances are measured from. */
  function Origin(ms: seq<Marker>, ref: Reference): Marker
    requires ValidReference(ms, ref)
  {
    match ref
    case Element(k) => ms[k]
    case Detached(r) => r.marker
  }

  /**
   * `ms[k] === marker`: only an element reference is identical to a list
   * element. The marker list is taken to hold no object twice, so the
   * pressed element is identical to its own position only.
   */
  predicate IsReference(ref: Reference, k: int)
  {
    ref.Element? && ref.index == k
  }

  /** The positions below n that `filter(m => m !== marker)` keeps, in list order. */
  function Others(n: nat, ref: Reference): (r: seq<nat>)
    ensures forall k :: k in r <==> 0 <= k < n && !IsReference(ref, k)
    ensures forall j :: 0 <= j < |r| ==> r[j] < n
    ensures forall i, j :: 0 <= i < j < |r| ==> r[i] < r[j]
  {
    if n == 0 then []
    else
      var prev := Others(n - 1, ref);
      prev + (if IsReference(ref, n - 1) then [] else [n - 1])
  }

  /** The copy of element k with its distance from `origin`. */
  function Measured(ms: seq<Marker>, origin: Marker, dist: Distance, k: nat): NearbyResult
    requires k < |ms|
  {
    NearbyResult(k, ms[k], dist(origin.latitude, origin.longitude, ms[k].latitude, ms[k].longitude))
  }

  /** The `map` step: every kept element with its distance. */
  function WithDistances(ms: seq<Marker>, idx: seq<nat>, origin: Marker, dist: Distance): seq<NearbyResult>
    requires forall j :: 0 <= j < |idx| ==> idx[j] < |ms|
  {
    seq(|idx|, j requires 0 <= j < |idx| => Measured(ms, origin, dist, idx[j]))
  }

  predicate FromAscending(rs: seq<NearbyResult>)
  {
    forall i, j :: 0 <= i < j < |rs| ==> rs[i].from < rs[j].from
  }

  /** The `filter(m => m.distance <= searchRadius)` step. */
  function WithinRadius(rs: seq<NearbyResult>, radius: real): (r: seq<NearbyResult>)
    ensures forall x :: x in r <==> x in rs && x.distance <= radius
    ensures FromAscending(rs) ==> FromAscending(r)
  {
    if rs == [] then []
    else
      var last := rs[|rs| - 1];
      WithinRadius(rs[..|rs| - 1], radius) + (if last.distance <= radius then [last] else [])
  }

  /** a comes before b in a stable sort by distance of a list in `from` order. */
  predicate Precedes(a: NearbyResult, b: NearbyResult)
  {
    a.distance < b.distance || (a.distance == b.distance && a.from < b.from)
  }

  predicate Ordered(rs: seq<NearbyResult>)
  {
    forall i, j :: 0 <= i < j < |rs| ==> Precedes(rs[i], rs[j])
  }

  /** Places x after every element of s that is not farther than x. */
  function Insert(x: NearbyResult, s: seq<NearbyResult>): (r: seq<NearbyResult>)
    ensures multiset(r) == multiset(s) + multiset{x}
  {
    if s == [] || x.distance < s[0].distance then [x] + s
    else
      assert s == [s[0]] + s[1..];
      [s[0]] + Insert(x, s[1..])
  }

  /** Inserting an element that comes after every element in list order keeps a list ordered. */
  lemma {:induction false} InsertOrdered(x: NearbyResult, s: seq<NearbyResult>)
    requires Ordered(s)
    requires forall y :: y in s ==> y.from < x.from
    ensures Ordered(Insert(x, s))
  {
    if s != [] && x.distance >= s[0].distance {
      var tail := s[1..];
      InsertOrdered(x, tail);
      var r := Insert(x, tail);
      forall y | y in r ensures Precedes(s[0], y) {
        assert y in multiset(r);
        if y != x {
          assert y in multiset(tail);
          var k :| 0 <= k < |tail| && tail[k] == y;
          assert s[k + 1] == y;
        }
      }
    }
  }

  /**
   * `sort((a, b) => a.distance - b.distance)`: a stable sort by distance,
   * so that markers at equal distance keep their list order.
   */
  function SortByDistance(rs: seq<NearbyResult>): (r: seq<NearbyResult>)
    ensures multiset(r) == multiset(rs)
  {
    if rs == [] then []
    else
      assert rs == rs[..|rs| - 1] + [rs[|rs| - 1]];
      Insert(rs[|rs| - 1], SortByDistance(rs[..|rs| - 1]))
  }

  /** Sorting a list in `from` order gives a list ordered by distance, ties in `from` order. */
  lemma {:induction false} SortOrdered(rs: seq<NearbyResult>)
    requires FromAscending(rs)
    ensures Ordered(SortByDistance(rs))
  {
    if rs != [] {
      var init, last := rs[..|rs| - 1], rs[|rs| - 1];
      SortOrdered(init);
      var sorted := SortByDistance(init);
      forall y | y in sorted ensures y.from < last.from {
        assert y in multiset(init);
      }
      InsertOrdered(last, sorted);
    }
  }

  /** The list handleCalloutPress stores as the nearby locations. */
  function NearbyLocations(ms: seq<Marker>, ref: Reference, radius: real, dist: Distance): seq<NearbyResult>
    requires ValidReference(ms, ref)
  {
    SortByDistance(WithinRadius(WithDistances(ms, Others(|ms|, ref), Origin(ms, ref), dist), radius))
  }

  /** x belongs in the nearby list: a copy of a list element other than the reference, with its distance, within the radius. */
  predicate Qualifies(ms: seq<Marker>, ref: Reference, radius: real, dist: Distance, x: NearbyResult)
    requires ValidReference(ms, ref)
  {
    x.from < |ms| && !IsReference(ref, x.from) &&
    x == Measured(ms, Origin(ms, ref), dist, x.from) && x.distance <= radius
  }

  // ---------------------------------------------------------------------
  // Properties of the nearby list.
  // ---------------------------------------------------------------------

  lemma WithDistancesMembers(ms: seq<Marker>, ref: Reference, dist: Distance)
    requires ValidReference(ms, ref)
    ensures var w := WithDistances(ms, Others(|ms|, ref), Origin(ms, ref), dist);
      FromAscending(w) &&
      forall x :: x in w <==> x.from < |ms| && !IsReference(ref, x.from) && x == Measured(ms, Origin(ms, ref), dist, x.from)
  {
    var idx := Others(|ms|, ref);
    var w := WithDistances(ms, idx, Origin(ms, ref), dist);
    forall x: NearbyResult | x.from < |ms| && !IsReference(ref, x.from) && x == Measured(ms, Origin(ms, ref), dist, x.from)
      ensures x in w
    {
      var j :| 0 <= j < |idx| && idx[j] == x.from;
      assert w[j] == x;
    }
  }

  /** The nearby list holds exactly the other markers within the radius, each with its distance from the reference. */
  lemma NearbyMembers(ms: seq<Marker>, ref: Reference, radius: real, dist: Distance)
    requires ValidReference(ms, ref)
    ensures forall x :: x in NearbyLocations(ms, ref, radius, dist) <==> Qualifies(ms, ref, radius, dist, x)
  {
    WithDistancesMembers(ms, ref, dist);
    var filtered := WithinRadius(WithDistances(ms, Others(|ms|, ref), Origin(ms, ref), dist), radius);
    assert forall x :: x in NearbyLocations(ms, ref, radius, dist) <==> x in multiset(filtered);
  }

  /** The nearby list is sorted by distance, nearest first, and markers at equal distance keep their list order. */
  lemma NearbySorted(ms: seq<Marker>, ref: Reference, radius: real, dist: Distance)
    requires ValidReference(ms, ref)
    ensures var r := NearbyLocations(ms, ref, radius, dist);
      forall i, j :: 0 <= i < j < |r| ==>
        r[i].distance <= r[j].distance && (r[i].distance == r[j].distance ==> r[i].from < r[j].from)
  {
    WithDistancesMembers(ms, ref, dist);
    SortOrdered(WithinRadius(WithDistances(ms, Others(|ms|, ref), Origin(ms, ref), dist), radius));
  }

  /** In a list ordered by Precedes every element occurs once. */
  lemma {:induction false} OrderedOnce(rs: seq<NearbyResult>)
    requires Ordered(rs)
    ensures forall x :: multiset(rs)[x] == if x in rs then 1 else 0
  {
    if rs != [] {
      var init, last := rs[..|rs| - 1], rs[|rs| - 1];
      assert rs == init + [last];
      OrderedOnce(init);
      assert last !in init;
    }
  }

  /** No qualifying marker is dropped or duplicated: each occurs exactly once. */
  lemma NearbyOnce(ms: seq<Marker>, ref: Reference, radius: real, dist: Distance)
    requires ValidReference(ms, ref)
    ensures forall x ::
      multiset(NearbyLocations(ms, ref, radius, dist))[x] == if Qualifies(ms, ref, radius, dist, x) then 1 else 0
  {
    NearbyMembers(ms, ref, radius, dist);
    NearbySorted(ms, ref, radius, dist);
    OrderedOnce(NearbyLocations(ms, ref, radius, dist));
  }

  /** Pressing a map pin: its own list element is never in the nearby list, and every entry is within the radius. */
  lemma ElementExcluded(ms: seq<Marker>, k: nat, radius: real, dist: Distance)
    requires k < |ms|
    ensures forall x :: x in NearbyLocations(ms, Element(k), radius, dist) ==> x.from != k && x.distance <= radius
  {
    NearbyMembers(ms, Element(k), radius, dist);
  }

  /**
   * Pressing an entry of the nearby list passes a copy that is identical to
   * no list element, so nothing is excluded: every element within the radius
   * of the copy is listed.
   */
  lemma DetachedExcludesNothing(ms: seq<Marker>, copy: NearbyResult, radius: real, dist: Distance)
    ensures forall k :: 0 <= k < |ms| && Measured(ms, copy.marker, dist, k).distance <= radius ==>
      Measured(ms, copy.marker, dist, k) in NearbyLocations(ms, Detached(copy), radius, dist)
  {
    NearbyMembers(ms, Detached(copy), radius, dist);
  }

  /**
   * When the distance is zero between identical points, pressing an entry of
   * a nearby list lists that entry's own marker again, at distance 0.
   */
  lemma ReselectedMarkerReappears(ms: seq<Marker>, ref: Reference, radius: real, dist: Distance, j: nat)
    requires ValidReference(ms, ref)
    requires j < |NearbyLocations(ms, ref, radius, dist)|
    requires radius >= 0.0
    requires forall lat: real, lng: real :: dist(lat, lng, lat, lng) == 0.0
    ensures var shown := NearbyLocations(ms, ref, radius, dist)[j];
      NearbyResult(shown.from, shown.marker, 0.0) in NearbyLocations(ms, Detached(shown), radius, dist)
  {
    var shown := NearbyLocations(ms, ref, radius, dist)[j];
    NearbyMembers(ms, ref, radius, dist);
    assert Qualifies(ms, ref, radius, dist, shown);
    NearbyMembers(ms, Detached(shown), radius, dist);
    assert Qualifies(ms, Detached(shown), radius, dist, NearbyResult(shown.from, shown.marker, 0.0));
  }
}
