/**
 * The data the map screen clusters: geo-tagged markers, the visible region,
 * and the display items a clustering pass produces.
 */
module Markers {
  import opened Indices

  /**
   * A point of interest as fetched from the event API. Only the coordinates
   * take part in clustering; everything else travels along as `payload`.
   */
  datatype Marker<P> = Marker(lat: real, lon: real, payload: P)

  /** The visible map region: centre and angular span on each axis, in degrees. */
  datatype Region = Region(latitude: real, longitude: real, latitudeDelta: real, longitudeDelta: real)

  /**
   * What the map draws: either an input marker, unchanged, or a cluster
   * summary carrying the members' mean position, their number and the
   * members themselves in the order they were collected.
   */
  datatype Item<P> =
    | Single(marker: Marker<P>)
    | Cluster(lat: real, lon: real, count: nat, members: seq<Marker<P>>)

  /**
   * The great-circle distance in kilometres between (lat1, lon1) and
   * (lat2, lon2). Left uninterpreted: nothing is assumed of its values.
   */
  type Distance = (real, real, real, real) -> real

  /** Kilometres of clustering radius per degree of visible latitude span. */
  const KmPerDegreeOfSpan: real := 10.0

  /** The clustering radius for a region: ten times its latitude span. */
  function Threshold(region: Region): real
  {
    region.latitudeDelta * KmPerDegreeOfSpan
  }

  /** `other` joins the group seeded by `seed`: strictly closer than the threshold. */
  predicate Near<P>(dist: Distance, threshold: real, seed: Marker<P>, other: Marker<P>)
  {
    dist(seed.lat, seed.lon, other.lat, other.lon) < threshold
  }

  /** Sum of latitudes, folded from the left starting at 0. */
  function SumLat<P>(ms: seq<Marker<P>>): real
  {
    if |ms| == 0 then 0.0 else SumLat(ms[..|ms| - 1]) + ms[|ms| - 1].lat
  }

  /** Sum of longitudes, folded from the left starting at 0. */
  function SumLon<P>(ms: seq<Marker<P>>): real
  {
    if |ms| == 0 then 0.0 else SumLon(ms[..|ms| - 1]) + ms[|ms| - 1].lon
  }

  /** The input markers an item stands for. */
  function Members<P>(item: Item<P>): seq<Marker<P>>
  {
    match item
    case Single(m) => [m]
    case Cluster(_, _, _, members) => members
  }

  /** The input markers a whole display list stands for, item after item. */
  function AllMembers<P>(items: seq<Item<P>>): seq<Marker<P>>
  {
    Flatten(seq(|items|, q requires 0 <= q < |items| => Members(items[q])))
  }

  /** A sum bounded by n copies of `lo` and of `hi` has its n-th part between `lo` and `hi`. */
  lemma MeanBetween(sum: real, n: real, lo: real, hi: real)
    requires n > 0.0 && n * lo <= sum <= n * hi
    ensures lo <= sum / n <= hi
  {
    var mean := sum / n;
    assert sum == n * mean;
    assert n * (mean - lo) >= 0.0;
    assert n * (hi - mean) >= 0.0;
  }

  /** A mean of latitudes lies within any bounds that hold for every latitude. */
  lemma {:induction false} SumLatBounds<P>(ms: seq<Marker<P>>, lo: real, hi: real)
    requires forall p :: 0 <= p < |ms| ==> lo <= ms[p].lat <= hi
    ensures |ms| as real * lo <= SumLat(ms) <= |ms| as real * hi
    decreases |ms|
  {
    if |ms| > 0 {
      SumLatBounds(ms[..|ms| - 1], lo, hi);
    }
  }

  /** A mean of longitudes lies within any bounds that hold for every longitude. */
  lemma {:induction false} SumLonBounds<P>(ms: seq<Marker<P>>, lo: real, hi: real)
    requires forall p :: 0 <= p < |ms| ==> lo <= ms[p].lon <= hi
    ensures |ms| as real * lo <= SumLon(ms) <= |ms| as real * hi
    decreases |ms|
  {
    if |ms| > 0 {
      SumLonBounds(ms[..|ms| - 1], lo, hi);
    }
  }

  /** The mean latitude lies within any bounds that hold for every latitude. */
  lemma MeanLatWithin<P>(ms: seq<Marker<P>>, lo: real, hi: real)
    requires |ms| > 0
    requires forall p :: 0 <= p < |ms| ==> lo <= ms[p].lat <= hi
    ensures lo <= SumLat(ms) / |ms| as real <= hi
  {
    SumLatBounds(ms, lo, hi);
    MeanBetween(SumLat(ms), |ms| as real, lo, hi);
  }

  /** The mean longitude lies within any bounds that hold for every longitude. */
  lemma MeanLonWithin<P>(ms: seq<Marker<P>>, lo: real, hi: real)
    requires |ms| > 0
    requires forall p :: 0 <= p < |ms| ==> lo <= ms[p].lon <= hi
    ensures lo <= SumLon(ms) / |ms| as real <= hi
  {
    SumLonBounds(ms, lo, hi);
    MeanBetween(SumLon(ms), |ms| as real, lo, hi);
  }
}
