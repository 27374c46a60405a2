/**
 * Concrete clustering passes with a simple stand-in distance, pinning down
 * the behaviours the general lemmas leave implicit: grouping against the
 * seed rather than transitively, the strict threshold, and the fact that
 * widening the region can reduce how many markers end up in clusters.
 */
module Scenarios {
  import opened Indices
  import opened Markers
  import opened GreedyReference
  import opened Clustering

  function Abs(x: real): real
  {
    if x < 0.0 then -x else x
  }

  /** A stand-in for the great-circle distance: the sum of the coordinate differences. */
  function Manhattan(lat1: real, lon1: real, lat2: real, lon2: real): real
  {
    Abs(lat2 - lat1) + Abs(lon2 - lon1)
  }

  /** A region centred at the origin with the given span on both axes. */
  function Span(delta: real): Region
  {
    Region(0.0, 0.0, delta, delta)
  }

  /** How many input markers a display list has merged into clusters. */
  function MergedCount<P>(items: seq<Item<P>>): (n: nat)
    ensures n <= |AllMembers(items)|
  {
    if |items| == 0 then 0
    else
      var rest := MergedCount(items[1..]);
      FlattenMembersUnfold(items);
      match items[0]
      case Single(_) => rest
      case Cluster(_, _, _, members) => |members| + rest
  }

  lemma FlattenMembersUnfold<P>(items: seq<Item<P>>)
    requires |items| > 0
    ensures AllMembers(items) == Members(items[0]) + AllMembers(items[1..])
  {
    var all := seq(|items|, q requires 0 <= q < |items| => Members(items[q]));
    assert all[1..] == seq(|items| - 1, q requires 0 <= q < |items| - 1 => Members(items[1..][q]));
  }

  // ---------------------------------------------------------------------
  // Unfolding helpers for concrete inputs
  // ---------------------------------------------------------------------

  /** The last seed of a worklist stands alone. */
  lemma GreedyLast<P>(ms: seq<Marker<P>>, threshold: real, dist: Distance, k: nat)
    requires k < |ms|
    ensures Greedy(ms, threshold, dist, [k]) == [[k]]
  {
    assert [k][1..] == [];
    assert Greedy(ms, threshold, dist, []) == [];
    assert [k] + [] == [k];
  }

  /** Sums over two markers. */
  lemma SumTwo<P>(x: Marker<P>, y: Marker<P>)
    ensures SumLat([x, y]) == x.lat + y.lat && SumLon([x, y]) == x.lon + y.lon
  {
    assert [x][..0] == [];
    assert SumLat([x]) == SumLat([x][..0]) + x.lat;
    assert SumLon([x]) == SumLon([x][..0]) + x.lon;
    assert [x, y][..1] == [x];
  }

  /** Sums over three markers. */
  lemma SumThree<P>(x: Marker<P>, y: Marker<P>, z: Marker<P>)
    ensures SumLat([x, y, z]) == x.lat + y.lat + z.lat && SumLon([x, y, z]) == x.lon + y.lon + z.lon
  {
    assert [x, y, z][..2] == [x, y];
    SumTwo(x, y);
  }

  /** The groups of a clustering pass, given the worklist result over all indices. */
  lemma GroupsOf<P>(ms: seq<Marker<P>>, threshold: real, dist: Distance, gs: seq<seq<nat>>)
    requires Greedy(ms, threshold, dist, AllIndices(|ms|)) == gs
    ensures GroupIndices(ms, threshold, dist) == gs
  {
    GroupIndicesIsGreedy(ms, threshold, dist);
  }

  /** The display list of a clustering pass, item by item, given its groups. */
  lemma ItemsOf<P>(ms: seq<Marker<P>>, region: Region, dist: Distance, gs: seq<seq<nat>>)
    requires GroupIndices(ms, Threshold(region), dist) == gs
    ensures var items := ClusterMarkers(ms, region, dist);
            && |items| == |gs|
            && forall q :: 0 <= q < |gs| ==> items[q] == Emit(ms, gs[q])
  {
  }

  /** The item for a group of two markers: their midpoint. */
  lemma EmitTwo<P>(ms: seq<Marker<P>>, i: nat, j: nat, lat: real, lon: real)
    requires i < |ms| && j < |ms|
    requires ms[i].lat + ms[j].lat == 2.0 * lat && ms[i].lon + ms[j].lon == 2.0 * lon
    ensures Emit(ms, [i, j]) == Cluster(lat, lon, 2, [ms[i], ms[j]])
  {
    assert Pick(ms, [i, j]) == [ms[i], ms[j]];
    SumTwo(ms[i], ms[j]);
  }

  /** The item for a group of three markers: their mean position. */
  lemma EmitThree<P>(ms: seq<Marker<P>>, i: nat, j: nat, k: nat, lat: real, lon: real)
    requires i < |ms| && j < |ms| && k < |ms|
    requires ms[i].lat + ms[j].lat + ms[k].lat == 3.0 * lat
    requires ms[i].lon + ms[j].lon + ms[k].lon == 3.0 * lon
    ensures Emit(ms, [i, j, k]) == Cluster(lat, lon, 3, [ms[i], ms[j], ms[k]])
  {
    assert Pick(ms, [i, j, k]) == [ms[i], ms[j], ms[k]];
    SumThree(ms[i], ms[j], ms[k]);
  }

  // ---------------------------------------------------------------------
  // Seed-relative grouping
  // ---------------------------------------------------------------------

  /** Three markers one degree apart on a line. */
  function Line(): seq<Marker<string>>
  {
    [Marker(0.0, 0.0, "A"), Marker(1.0, 0.0, "B"), Marker(2.0, 0.0, "C")]
  }

  /** Three markers where only the second is near the first form the groups [0, 1] and [2]. */
  lemma LineShape<P>(ms: seq<Marker<P>>, t: real, dist: Distance)
    requires |ms| == 3
    requires Near(dist, t, ms[0], ms[1]) && !Near(dist, t, ms[0], ms[2])
    ensures GroupIndices(ms, t, dist) == [[0, 1], [2]]
  {
    assert [0, 1, 2][1..] == [1, 2] && [1, 2][1..] == [2];
    assert Absorbed(ms, t, dist, 0, [1, 2]) == [1];
    assert Leftover(ms, t, dist, 0, [1, 2]) == [2];
    GreedyLast(ms, t, dist, 2);
    GreedyUnfold(ms, t, dist, [0, 1, 2], [1], [2], [[2]]);
    assert [0] + [1] == [0, 1];
    assert AllIndices(3) == [0, 1, 2];
    GroupsOf(ms, t, dist, [[0, 1], [2]]);
  }

  lemma LineGroups()
    ensures GroupIndices(Line(), Threshold(Span(0.15)), Manhattan) == [[0, 1], [2]]
  {
    assert Threshold(Span(0.15)) == 1.5;
    LineShape(Line(), 1.5, Manhattan);
  }

  /**
   * Grouping is against the seed: B is near A and C is near B, but C is not
   * near A, so C stays on its own.
   */
  lemma SeedNotChain()
    ensures var ms := Line();
            && Near(Manhattan, Threshold(Span(0.15)), ms[1], ms[2])
            && ClusterMarkers(ms, Span(0.15), Manhattan) == [Cluster(0.5, 0.0, 2, ms[..2]), Single(ms[2])]
  {
    var ms := Line();
    LineGroups();
    ItemsOf(ms, Span(0.15), Manhattan, [[0, 1], [2]]);
    EmitTwo(ms, 0, 1, 0.5, 0.0);
    assert ms[..2] == [ms[0], ms[1]];
  }

  // ---------------------------------------------------------------------
  // Strict threshold
  // ---------------------------------------------------------------------

  /** Two markers one degree apart. */
  function Pair(): seq<Marker<string>>
  {
    [Marker(0.0, 0.0, "A"), Marker(1.0, 0.0, "B")]
  }

  /** Two markers at the same place. */
  function Coincident(): seq<Marker<string>>
  {
    [Marker(48.8566, 2.3522, "A"), Marker(48.8566, 2.3522, "B")]
  }

  /** Two markers fall into separate groups when the second is not near the first. */
  lemma TwoApart<P>(ms: seq<Marker<P>>, threshold: real, dist: Distance)
    requires |ms| == 2 && !Near(dist, threshold, ms[0], ms[1])
    ensures ClusterMarkers(ms, Span(threshold / 10.0), dist) == [Single(ms[0]), Single(ms[1])]
  {
    assert Threshold(Span(threshold / 10.0)) == threshold;
    GreedyLast(ms, threshold, dist, 1);
    assert [0, 1][1..] == [1];
    assert Absorbed(ms, threshold, dist, 0, [1]) == [];
    assert Leftover(ms, threshold, dist, 0, [1]) == [1];
    GreedyUnfold(ms, threshold, dist, [0, 1], [], [1], [[1]]);
    GroupIndicesIsGreedy(ms, threshold, dist);
    assert AllIndices(2) == [0, 1];
    assert [0] + [] == [0];
  }

  /** A distance equal to the threshold does not merge. */
  lemma ThresholdIsStrict()
    ensures var ms := Pair();
            && Manhattan(ms[0].lat, ms[0].lon, ms[1].lat, ms[1].lon) == Threshold(Span(0.1))
            && ClusterMarkers(ms, Span(0.1), Manhattan) == [Single(ms[0]), Single(ms[1])]
  {
    assert 1.0 / 10.0 == 0.1;
    TwoApart(Pair(), 1.0, Manhattan);
  }

  /** With zero span even two markers at the same place stay apart. */
  lemma CoincidentZeroSpan()
    ensures var ms := Coincident();
            ClusterMarkers(ms, Span(0.0), Manhattan) == [Single(ms[0]), Single(ms[1])]
  {
    TwoApart(Coincident(), 0.0, Manhattan);
  }

  // ---------------------------------------------------------------------
  // Widening the region
  // ---------------------------------------------------------------------

  /** Four markers: A north of B, and C and D on either side of B. */
  function Cross(): seq<Marker<string>>
  {
    [Marker(1.5, 0.0, "A"), Marker(0.0, 0.0, "B"), Marker(0.0, 1.0, "C"), Marker(0.0, -1.0, "D")]
  }

  /** A seed near both later markers gathers them. */
  lemma SeedGathersTwo<P>(ms: seq<Marker<P>>, t: real, dist: Distance, a: nat, b: nat, c: nat)
    requires a < |ms| && b < |ms| && c < |ms|
    requires Near(dist, t, ms[a], ms[b]) && Near(dist, t, ms[a], ms[c])
    ensures Greedy(ms, t, dist, [a, b, c]) == [[a, b, c]]
  {
    assert [a, b, c][1..] == [b, c] && [b, c][1..] == [c];
    assert Absorbed(ms, t, dist, a, [b, c]) == [b, c];
    assert Leftover(ms, t, dist, a, [b, c]) == [];
    assert Greedy(ms, t, dist, []) == [];
    GreedyUnfold(ms, t, dist, [a, b, c], [b, c], [], []);
    assert [a] + [b, c] == [a, b, c];
  }

  /** Two markers not near each other stay apart. */
  lemma TwoStayApart<P>(ms: seq<Marker<P>>, t: real, dist: Distance, a: nat, b: nat)
    requires a < |ms| && b < |ms| && !Near(dist, t, ms[a], ms[b])
    ensures Greedy(ms, t, dist, [a, b]) == [[a], [b]]
  {
    assert [a, b][1..] == [b];
    assert Absorbed(ms, t, dist, a, [b]) == [];
    assert Leftover(ms, t, dist, a, [b]) == [b];
    GreedyLast(ms, t, dist, b);
    GreedyUnfold(ms, t, dist, [a, b], [], [b], [[b]]);
    assert [a] + [] == [a];
  }

  /** A seed near the first of three later markers only absorbs that one. */
  lemma SeedTakesFirst<P>(ms: seq<Marker<P>>, t: real, dist: Distance, a: nat, b: nat, c: nat, d: nat)
    requires a < |ms| && b < |ms| && c < |ms| && d < |ms|
    requires Near(dist, t, ms[a], ms[b]) && !Near(dist, t, ms[a], ms[c]) && !Near(dist, t, ms[a], ms[d])
    ensures Absorbed(ms, t, dist, a, [b, c, d]) == [b]
    ensures Leftover(ms, t, dist, a, [b, c, d]) == [c, d]
  {
    assert [b, c, d][1..] == [c, d] && [c, d][1..] == [d];
    assert Absorbed(ms, t, dist, a, [c, d]) == [];
    assert Leftover(ms, t, dist, a, [c, d]) == [c, d];
  }

  /** A seed near none of three later markers absorbs nothing. */
  lemma SeedTakesNone<P>(ms: seq<Marker<P>>, t: real, dist: Distance, a: nat, b: nat, c: nat, d: nat)
    requires a < |ms| && b < |ms| && c < |ms| && d < |ms|
    requires !Near(dist, t, ms[a], ms[b]) && !Near(dist, t, ms[a], ms[c]) && !Near(dist, t, ms[a], ms[d])
    ensures Absorbed(ms, t, dist, a, [b, c, d]) == []
    ensures Leftover(ms, t, dist, a, [b, c, d]) == [b, c, d]
  {
    assert [b, c, d][1..] == [c, d] && [c, d][1..] == [d];
    assert Absorbed(ms, t, dist, a, [c, d]) == [];
    assert Leftover(ms, t, dist, a, [c, d]) == [c, d];
  }

  /**
   * Four markers where the first is near none of the others and the second
   * is near the last two form the groups [0] and [1, 2, 3].
   */
  lemma LoneThenThree<P>(ms: seq<Marker<P>>, t: real, dist: Distance)
    requires |ms| == 4
    requires !Near(dist, t, ms[0], ms[1]) && !Near(dist, t, ms[0], ms[2]) && !Near(dist, t, ms[0], ms[3])
    requires Near(dist, t, ms[1], ms[2]) && Near(dist, t, ms[1], ms[3])
    ensures GroupIndices(ms, t, dist) == [[0], [1, 2, 3]]
  {
    SeedGathersTwo(ms, t, dist, 1, 2, 3);
    assert [0, 1, 2, 3][1..] == [1, 2, 3];
    SeedTakesNone(ms, t, dist, 0, 1, 2, 3);
    GreedyUnfold(ms, t, dist, [0, 1, 2, 3], [], [1, 2, 3], [[1, 2, 3]]);
    assert [0] + [] == [0];
    assert AllIndices(4) == [0, 1, 2, 3];
    GroupsOf(ms, t, dist, [[0], [1, 2, 3]]);
  }

  /**
   * Four markers where the first is near the second only and the third is
   * not near the fourth form the groups [0, 1], [2] and [3].
   */
  lemma PairThenTwoLone<P>(ms: seq<Marker<P>>, t: real, dist: Distance)
    requires |ms| == 4
    requires Near(dist, t, ms[0], ms[1]) && !Near(dist, t, ms[0], ms[2]) && !Near(dist, t, ms[0], ms[3])
    requires !Near(dist, t, ms[2], ms[3])
    ensures GroupIndices(ms, t, dist) == [[0, 1], [2], [3]]
  {
    TwoStayApart(ms, t, dist, 2, 3);
    assert [0, 1, 2, 3][1..] == [1, 2, 3];
    SeedTakesFirst(ms, t, dist, 0, 1, 2, 3);
    GreedyUnfold(ms, t, dist, [0, 1, 2, 3], [1], [2, 3], [[2], [3]]);
    assert [0] + [1] == [0, 1];
    assert AllIndices(4) == [0, 1, 2, 3];
    GroupsOf(ms, t, dist, [[0, 1], [2], [3]]);
  }

  /** At span 0.12 A is too far from everything; B, visited next, gathers C and D. */
  lemma NarrowCrossGroups()
    ensures GroupIndices(Cross(), Threshold(Span(0.12)), Manhattan) == [[0], [1, 2, 3]]
  {
    assert Threshold(Span(0.12)) == 1.2;
    LoneThenThree(Cross(), 1.2, Manhattan);
  }

  /** At span 0.16 A takes B first; C and D are too far apart to join each other. */
  lemma WideCrossGroups()
    ensures GroupIndices(Cross(), Threshold(Span(0.16)), Manhattan) == [[0, 1], [2], [3]]
  {
    assert Threshold(Span(0.16)) == 1.6;
    PairThenTwoLone(Cross(), 1.6, Manhattan);
  }

  /** The display list for the groups [0] and [1, 2, 3]. */
  lemma LoneThenThreeItems<P>(ms: seq<Marker<P>>, region: Region, dist: Distance, lat: real, lon: real)
    requires |ms| == 4 && GroupIndices(ms, Threshold(region), dist) == [[0], [1, 2, 3]]
    requires ms[1].lat + ms[2].lat + ms[3].lat == 3.0 * lat
    requires ms[1].lon + ms[2].lon + ms[3].lon == 3.0 * lon
    ensures ClusterMarkers(ms, region, dist) == [Single(ms[0]), Cluster(lat, lon, 3, ms[1..])]
  {
    ItemsOf(ms, region, dist, [[0], [1, 2, 3]]);
    EmitThree(ms, 1, 2, 3, lat, lon);
    assert ms[1..] == [ms[1], ms[2], ms[3]];
  }

  /** The display list for the groups [0, 1], [2] and [3]. */
  lemma PairThenTwoLoneItems<P>(ms: seq<Marker<P>>, region: Region, dist: Distance, lat: real, lon: real)
    requires |ms| == 4 && GroupIndices(ms, Threshold(region), dist) == [[0, 1], [2], [3]]
    requires ms[0].lat + ms[1].lat == 2.0 * lat && ms[0].lon + ms[1].lon == 2.0 * lon
    ensures ClusterMarkers(ms, region, dist) == [Cluster(lat, lon, 2, ms[..2]), Single(ms[2]), Single(ms[3])]
  {
    ItemsOf(ms, region, dist, [[0, 1], [2], [3]]);
    EmitTwo(ms, 0, 1, lat, lon);
    assert ms[..2] == [ms[0], ms[1]];
  }

  /** The display list at span 0.12: A alone, and B, C and D clustered at B's position. */
  lemma NarrowCross()
    ensures ClusterMarkers(Cross(), Span(0.12), Manhattan)
            == [Single(Cross()[0]), Cluster(0.0, 0.0, 3, Cross()[1..])]
  {
    NarrowCrossGroups();
    LoneThenThreeItems(Cross(), Span(0.12), Manhattan, 0.0, 0.0);
  }

  /** The display list at span 0.16: A and B clustered at their midpoint, then C and D alone. */
  lemma WideCross()
    ensures ClusterMarkers(Cross(), Span(0.16), Manhattan)
            == [Cluster(0.75, 0.0, 2, Cross()[..2]), Single(Cross()[2]), Single(Cross()[3])]
  {
    WideCrossGroups();
    PairThenTwoLoneItems(Cross(), Span(0.16), Manhattan, 0.75, 0.0);
  }

  /**
   * Widening the region can reduce the number of clustered markers: at span
   * 0.12 three of the cross's markers are merged, at span 0.16 only two.
   */
  lemma WideningCanMergeFewer()
    ensures MergedCount(ClusterMarkers(Cross(), Span(0.12), Manhattan)) == 3
    ensures MergedCount(ClusterMarkers(Cross(), Span(0.16), Manhattan)) == 2
  {
    var ms := Cross();
    NarrowCross();
    var narrow := ClusterMarkers(ms, Span(0.12), Manhattan);
    assert narrow[1..][1..] == [];
    assert MergedCount(narrow[1..]) == 3;
    WideCross();
    var wide := ClusterMarkers(ms, Span(0.16), Manhattan);
    assert wide[1..][1..][1..] == [];
    assert MergedCount(wide[1..][1..]) == 0;
    assert MergedCount(wide[1..]) == 0;
  }
}
