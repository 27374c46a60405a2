/**
 * What one clustering pass promises about its output, stated over the
 * display items of ClusterMarkers and the index groups they come from.
 */
module ClusterProperties {
  import opened Indices
  import opened Markers
  import opened GreedyReference
  import opened Clustering

  /** No marker is near any later marker: no seed could ever absorb anything. */
  predicate NoPairNear<P>(ms: seq<Marker<P>>, threshold: real, dist: Distance)
  {
    forall i, j :: 0 <= i < j < |ms| ==> !Near(dist, threshold, ms[i], ms[j])
  }

  /** Every input marker, each on its own, in input order. */
  function AllSingles<P>(ms: seq<Marker<P>>): seq<Item<P>>
  {
    seq(|ms|, k requires 0 <= k < |ms| => Single(ms[k]))
  }

  /** The greedy facts about the groups of a pass, all at once. */
  lemma GroupFacts<P>(ms: seq<Marker<P>>, threshold: real, dist: Distance)
    ensures GroupIndices(ms, threshold, dist) == Greedy(ms, threshold, dist, AllIndices(|ms|))
    ensures Below(|ms|, AllIndices(|ms|)) && Increasing(AllIndices(|ms|))
    ensures forall k :: k in AllIndices(|ms|) <==> 0 <= k < |ms|
  {
    GroupIndicesIsGreedy(ms, threshold, dist);
    forall k | 0 <= k < |ms|
      ensures k in AllIndices(|ms|)
    {
      assert AllIndices(|ms|)[k] == k;
    }
  }

  /**
   * Partition: every input index lands in exactly one group, so no marker is
   * lost or duplicated.
   */
  lemma IndexPartition<P>(ms: seq<Marker<P>>, threshold: real, dist: Distance)
    ensures multiset(Flatten(GroupIndices(ms, threshold, dist))) == multiset(AllIndices(|ms|))
  {
    GroupIndicesIsGreedy(ms, threshold, dist);
    GreedyPartition(ms, threshold, dist, AllIndices(|ms|));
  }

  /** Each item stands for the markers of its group, and the list for all of them in order. */
  lemma Provenance<P>(ms: seq<Marker<P>>, region: Region, dist: Distance)
    ensures var gs := GroupIndices(ms, Threshold(region), dist);
            var items := ClusterMarkers(ms, region, dist);
            && |items| == |gs|
            && (forall q :: 0 <= q < |items| ==> Members(items[q]) == Pick(ms, gs[q]))
            && Below(|ms|, Flatten(gs))
            && AllMembers(items) == Pick(ms, Flatten(gs))
  {
    var gs := GroupIndices(ms, Threshold(region), dist);
    var items := ClusterMarkers(ms, region, dist);
    ItemMembers(ms, region, dist);
    FlattenPick(ms, gs);
    assert seq(|items|, q requires 0 <= q < |items| => Members(items[q]))
        == seq(|gs|, q requires 0 <= q < |gs| => Pick(ms, gs[q]));
  }

  /** Each item stands for the markers of its group. */
  lemma ItemMembers<P>(ms: seq<Marker<P>>, region: Region, dist: Distance)
    ensures var gs := GroupIndices(ms, Threshold(region), dist);
            var items := ClusterMarkers(ms, region, dist);
            && |items| == |gs|
            && forall q :: 0 <= q < |items| ==> Members(items[q]) == Pick(ms, gs[q])
  {
    var gs := GroupIndices(ms, Threshold(region), dist);
    var items := ClusterMarkers(ms, region, dist);
    forall q | 0 <= q < |items|
      ensures Members(items[q]) == Pick(ms, gs[q])
    {
      assert gs[q] in gs;
    }
  }

  /**
   * Minimum cluster size: an item is a cluster exactly when its group has at
   * least two members, its count is its number of members, and a group of one
   * is emitted as the original marker.
   */
  lemma ClusterSize<P>(ms: seq<Marker<P>>, region: Region, dist: Distance)
    ensures var gs := GroupIndices(ms, Threshold(region), dist);
            var items := ClusterMarkers(ms, region, dist);
            && |items| == |gs|
            && forall q :: 0 <= q < |items| ==>
                 && (items[q].Cluster? <==> |gs[q]| >= 2)
                 && (items[q].Cluster? ==> items[q].count == |items[q].members| && items[q].count >= 2)
                 && (items[q].Single? ==> |gs[q]| == 1 && items[q].marker == ms[gs[q][0]])
  {
    var gs := GroupIndices(ms, Threshold(region), dist);
    var items := ClusterMarkers(ms, region, dist);
    forall q | 0 <= q < |items|
      ensures items[q] == Emit(ms, gs[q]) && |gs[q]| >= 1
    {
      assert gs[q] in gs;
    }
  }

  /**
   * Seed proximity: the first member of every group is its seed, and every
   * other member is strictly nearer to the seed than the threshold.
   */
  lemma SeedProximity<P>(ms: seq<Marker<P>>, region: Region, dist: Distance)
    ensures var gs := GroupIndices(ms, Threshold(region), dist);
            forall q, p :: 0 <= q < |gs| && 1 <= p < |gs[q]| ==>
              Near(dist, Threshold(region), ms[gs[q][0]], ms[gs[q][p]])
    ensures var items := ClusterMarkers(ms, region, dist);
            forall q, p :: 0 <= q < |items| && items[q].Cluster? && 1 <= p < |items[q].members| ==>
              Near(dist, Threshold(region), items[q].members[0], items[q].members[p])
  {
    var threshold := Threshold(region);
    var gs := GroupIndices(ms, threshold, dist);
    var items := ClusterMarkers(ms, region, dist);
    GroupFacts(ms, threshold, dist);
    GreedyProximity(ms, threshold, dist, AllIndices(|ms|));
    forall q, p | 0 <= q < |items| && items[q].Cluster? && 1 <= p < |items[q].members|
      ensures Near(dist, threshold, items[q].members[0], items[q].members[p])
    {
      assert gs[q] in gs;
      assert items[q].members == Pick(ms, gs[q]);
    }
  }

  /**
   * Greedy maximality: when a group is formed, it takes, besides its seed,
   * exactly the indices not placed in an earlier group whose markers are
   * near the seed's marker.
   */
  lemma GreedyMaximality<P>(ms: seq<Marker<P>>, region: Region, dist: Distance)
    ensures var gs := GroupIndices(ms, Threshold(region), dist);
            forall q, k :: 0 <= q < |gs| && k != gs[q][0] ==>
              (k in gs[q] <==> 0 <= k < |ms| && k !in Flatten(gs[..q]) && Near(dist, Threshold(region), ms[gs[q][0]], ms[k]))
  {
    MembersAreNewAndNear(ms, Threshold(region), dist);
    NewAndNearAreMembers(ms, Threshold(region), dist);
  }

  /** A member other than the seed was not placed earlier and is near the seed. */
  lemma MembersAreNewAndNear<P>(ms: seq<Marker<P>>, threshold: real, dist: Distance)
    ensures var gs := GroupIndices(ms, threshold, dist);
            forall q, k :: 0 <= q < |gs| && k != gs[q][0] && k in gs[q] ==>
              0 <= k < |ms| && k !in Flatten(gs[..q]) && Near(dist, threshold, ms[gs[q][0]], ms[k])
  {
    var gs := GroupIndices(ms, threshold, dist);
    var all := AllIndices(|ms|);
    GroupFacts(ms, threshold, dist);
    GreedyProximity(ms, threshold, dist, all);
    GreedyPartition(ms, threshold, dist, all);
    forall q, k | 0 <= q < |gs| && k != gs[q][0] && k in gs[q]
      ensures 0 <= k < |ms| && k !in Flatten(gs[..q]) && Near(dist, threshold, ms[gs[q][0]], ms[k])
    {
      assert gs[q] in gs;
      MemberNewAndNear(ms, threshold, dist, gs, q, k);
    }
  }

  /** One member of a partitioning, seed-near grouping, other than its seed, is new and near. */
  lemma MemberNewAndNear<P>(ms: seq<Marker<P>>, threshold: real, dist: Distance, gs: seq<seq<nat>>, q: nat, k: nat)
    requires ValidGroups(|ms|, gs)
    requires multiset(Flatten(gs)) == multiset(AllIndices(|ms|))
    requires forall k :: k in AllIndices(|ms|) <==> 0 <= k < |ms|
    requires forall q, p :: 0 <= q < |gs| && 1 <= p < |gs[q]| ==> Near(dist, threshold, ms[gs[q][0]], ms[gs[q][p]])
    requires q < |gs| && |gs[q]| > 0 && Below(|ms|, gs[q]) && k != gs[q][0] && k in gs[q]
    ensures 0 <= k < |ms| && k !in Flatten(gs[..q]) && Near(dist, threshold, ms[gs[q][0]], ms[k])
  {
    var g := gs[q];
    var p :| 0 <= p < |g| && g[p] == k;
    assert p >= 1;
    FlattenMember(gs, q, k);
    assert k in multiset(Flatten(gs));
    NotPlacedEarlier(|ms|, gs, q, k);
  }

  /** An index not placed earlier and near the seed is a member. */
  lemma NewAndNearAreMembers<P>(ms: seq<Marker<P>>, threshold: real, dist: Distance)
    ensures var gs := GroupIndices(ms, threshold, dist);
            forall q, k ::
              (0 <= q < |gs| && 0 <= k < |ms| && k !in Flatten(gs[..q]) && Near(dist, threshold, ms[gs[q][0]], ms[k]))
              ==> k in gs[q]
  {
    var gs := GroupIndices(ms, threshold, dist);
    var all := AllIndices(|ms|);
    GroupFacts(ms, threshold, dist);
    GreedyMaximal(ms, threshold, dist, all);
    forall q, k | 0 <= q < |gs| && 0 <= k < |ms| && k !in Flatten(gs[..q])
                  && Near(dist, threshold, ms[gs[q][0]], ms[k])
      ensures k in gs[q]
    {
      assert all[k] == k;
    }
  }

  /** In a partition of the indices below `n`, no index of group `q` is also in an earlier group. */
  lemma NotPlacedEarlier(n: nat, gs: seq<seq<nat>>, q: nat, k: nat)
    requires multiset(Flatten(gs)) == multiset(AllIndices(n))
    requires q < |gs| && k in gs[q]
    ensures k !in Flatten(gs[..q])
  {
    FlattenAround(gs, q);
    AllIndicesOnce(n, k);
    OnceNotTwice(Flatten(gs[..q]), gs[q], Flatten(gs[q + 1..]), k);
  }

  /** An element occurring at most once in `a + b + c` cannot be in both `a` and `b`. */
  lemma OnceNotTwice(a: seq<nat>, b: seq<nat>, c: seq<nat>, k: nat)
    requires multiset(a + b + c)[k] <= 1 && k in b
    ensures k !in a
  {
    assert multiset(a + b + c) == multiset(a) + multiset(b) + multiset(c);
    assert multiset(b)[k] >= 1;
  }

  /** Each index occurs at most once among all indices. */
  lemma AllIndicesOnce(n: nat, k: nat)
    ensures multiset(AllIndices(n))[k] <= 1
  {
    var all := AllIndices(n);
    if k < n {
      assert all == all[..k] + [k] + all[k + 1..];
      assert k !in all[..k] && k !in all[k + 1..];
    } else {
      assert k !in all;
    }
  }

  /**
   * Seed choice: the seed of each group is the least index not placed in an
   * earlier group.
   */
  lemma SeedIsLeast<P>(ms: seq<Marker<P>>, region: Region, dist: Distance)
    ensures var gs := GroupIndices(ms, Threshold(region), dist);
            forall q, k :: 0 <= q < |gs| && 0 <= k < |ms| && k !in Flatten(gs[..q]) ==> gs[q][0] <= k
  {
    var threshold := Threshold(region);
    var gs := GroupIndices(ms, threshold, dist);
    var all := AllIndices(|ms|);
    GroupFacts(ms, threshold, dist);
    GreedySeedIsLeast(ms, threshold, dist, all);
    forall q, k | 0 <= q < |gs| && 0 <= k < |ms| && k !in Flatten(gs[..q])
      ensures gs[q][0] <= k
    {
      assert all[k] == k;
      assert k in all;
    }
  }

  /**
   * Ordering: members of a group are in increasing input order starting with
   * the seed, and a group's seed precedes every index of every later group,
   * so the items come out in increasing order of their seeds.
   */
  lemma Ordering<P>(ms: seq<Marker<P>>, region: Region, dist: Distance)
    ensures var gs := GroupIndices(ms, Threshold(region), dist);
            && (forall q :: 0 <= q < |gs| ==> Increasing(gs[q]))
            && (forall q, q', k :: 0 <= q < q' < |gs| && k in gs[q'] ==> gs[q][0] < k)
            && (forall q, q' :: 0 <= q < q' < |gs| ==> gs[q][0] < gs[q'][0])
  {
    var threshold := Threshold(region);
    var gs := GroupIndices(ms, threshold, dist);
    GroupFacts(ms, threshold, dist);
    GreedyGroupsIncreasing(ms, threshold, dist, AllIndices(|ms|));
    GreedySeedsPrecedeLaterGroups(ms, threshold, dist, AllIndices(|ms|));
    forall q, q' | 0 <= q < q' < |gs|
      ensures gs[q][0] < gs[q'][0]
    {
      assert gs[q'] in gs;
      assert gs[q'][0] in gs[q'];
    }
  }

  /**
   * Centroid and count: a cluster's position is the mean of its members'
   * latitudes and, separately, of their longitudes.
   */
  lemma Centroid<P>(ms: seq<Marker<P>>, region: Region, dist: Distance)
    ensures var items := ClusterMarkers(ms, region, dist);
            forall q :: 0 <= q < |items| && items[q].Cluster? ==>
              && items[q].count == |items[q].members| > 0
              && items[q].lat == SumLat(items[q].members) / items[q].count as real
              && items[q].lon == SumLon(items[q].members) / items[q].count as real
  {
    var gs := GroupIndices(ms, Threshold(region), dist);
    var items := ClusterMarkers(ms, region, dist);
    forall q | 0 <= q < |items| && items[q].Cluster?
      ensures items[q].count == |items[q].members| > 0
    {
      assert gs[q] in gs;
    }
  }

  /** A cluster's position lies inside every box that holds all of its members. */
  lemma CentroidWithinMembers<P>(ms: seq<Marker<P>>, region: Region, dist: Distance, q: nat,
                                 latLo: real, latHi: real, lonLo: real, lonHi: real)
    requires q < |ClusterMarkers(ms, region, dist)| && ClusterMarkers(ms, region, dist)[q].Cluster?
    requires var c := ClusterMarkers(ms, region, dist)[q];
             forall p :: 0 <= p < |c.members| ==> latLo <= c.members[p].lat <= latHi && lonLo <= c.members[p].lon <= lonHi
    ensures var c := ClusterMarkers(ms, region, dist)[q];
            latLo <= c.lat <= latHi && lonLo <= c.lon <= lonHi
  {
    var gs := GroupIndices(ms, Threshold(region), dist);
    var c := ClusterMarkers(ms, region, dist)[q];
    assert gs[q] in gs;
    assert c == Emit(ms, gs[q]);
    MeanLatWithin(c.members, latLo, latHi);
    MeanLonWithin(c.members, lonLo, lonHi);
  }

  /** Bounds: no more items than markers, and items exactly when there are markers. */
  lemma Bounds<P>(ms: seq<Marker<P>>, region: Region, dist: Distance)
    ensures |ClusterMarkers(ms, region, dist)| <= |ms|
    ensures ClusterMarkers(ms, region, dist) == [] <==> ms == []
  {
    var threshold := Threshold(region);
    var gs := GroupIndices(ms, threshold, dist);
    GroupFacts(ms, threshold, dist);
    if |ms| > 0 {
      assert |gs| > 0;
    }
  }

  /**
   * Nothing merges exactly when no marker is near a later one, and then the
   * output is every marker on its own, in input order.
   */
  lemma NoMergeWhenNoPairNear<P>(ms: seq<Marker<P>>, region: Region, dist: Distance)
    ensures |ClusterMarkers(ms, region, dist)| == |ms| <==> NoPairNear(ms, Threshold(region), dist)
    ensures NoPairNear(ms, Threshold(region), dist) ==> ClusterMarkers(ms, region, dist) == AllSingles(ms)
  {
    var threshold := Threshold(region);
    var all := AllIndices(|ms|);
    GroupIndicesIsGreedy(ms, threshold, dist);
    GreedyAllSingles(ms, threshold, dist, all);
    SeparatedIsNoPairNear(ms, threshold, dist);
    if NoPairNear(ms, threshold, dist) {
      SinglesWhenSeparated(ms, region, dist);
    }
  }

  /** Over all indices in order, Separated says that no pair is near. */
  lemma SeparatedIsNoPairNear<P>(ms: seq<Marker<P>>, threshold: real, dist: Distance)
    ensures Separated(ms, threshold, dist, AllIndices(|ms|)) <==> NoPairNear(ms, threshold, dist)
  {
    var all := AllIndices(|ms|);
    if Separated(ms, threshold, dist, all) {
      forall i, j | 0 <= i < j < |ms|
        ensures !Near(dist, threshold, ms[i], ms[j])
      {
        assert all[i] == i && all[j] == j;
      }
    }
    if NoPairNear(ms, threshold, dist) {
      forall a, b | 0 <= a < b < |all|
        ensures !Near(dist, threshold, ms[all[a]], ms[all[b]])
      {
        assert all[a] == a && all[b] == b;
      }
    }
  }

  /** With no pair near, every marker is emitted as itself, in input order. */
  lemma SinglesWhenSeparated<P>(ms: seq<Marker<P>>, region: Region, dist: Distance)
    requires NoPairNear(ms, Threshold(region), dist)
    ensures ClusterMarkers(ms, region, dist) == AllSingles(ms)
  {
    var threshold := Threshold(region);
    var all := AllIndices(|ms|);
    var items := ClusterMarkers(ms, region, dist);
    GroupIndicesIsGreedy(ms, threshold, dist);
    SeparatedIsNoPairNear(ms, threshold, dist);
    GreedySinglesInOrder(ms, threshold, dist, all);
    forall k | 0 <= k < |ms|
      ensures items[k] == Single(ms[k])
    {
      assert all[k] == k;
    }
  }

  /**
   * A region of zero (or negative) latitude span gives threshold 0, and with
   * a distance that is never negative nothing merges.
   */
  lemma ZeroSpanNoMerge<P>(ms: seq<Marker<P>>, region: Region, dist: Distance)
    requires region.latitudeDelta <= 0.0
    requires forall i, j :: 0 <= i < j < |ms| ==> dist(ms[i].lat, ms[i].lon, ms[j].lat, ms[j].lon) >= 0.0
    ensures ClusterMarkers(ms, region, dist) == AllSingles(ms)
  {
    NoMergeWhenNoPairNear(ms, region, dist);
  }
}
