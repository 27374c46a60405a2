/**
 * The map screen's `clusterMarkers` written as the source writes it: two
 * nested loops over the markers sharing one mutable set of processed
 * indices, a growing list of cluster members, and a growing output list.
 * ClusterLoop proves that it returns exactly ClusterMarkers.
 */
module ClusterLoop {
  import opened Indices
  import opened Markers
  import opened Clustering

  /**
   * The inner loop for the seed at index `seed`: every other index not yet
   * processed whose marker is strictly nearer than `threshold` to the seed's
   * marker joins the cluster and is marked processed. It does what Scan
   * describes, from the start of the list.
   */
  method Gather<P>(ms: seq<Marker<P>>, threshold: real, dist: Distance, seed: nat, processed0: set<nat>)
    returns (cluster: seq<Marker<P>>, group: seq<nat>, processed: set<nat>)
    requires seed < |ms|
    ensures (group, processed) == Scan(ms, threshold, dist, seed, 0, processed0, [seed])
    ensures cluster == Pick(ms, group) && |group| >= 1 && group[0] == seed
  {
    var marker := ms[seed];
    cluster := [marker];
    group := [seed];
    processed := processed0;
    var j := 0;
    while j < |ms|
      invariant j <= |ms| && Below(|ms|, group) && |group| >= 1 && group[0] == seed
      invariant cluster == Pick(ms, group)
      invariant Scan(ms, threshold, dist, seed, j, processed, group) == Scan(ms, threshold, dist, seed, 0, processed0, [seed])
    {
      if seed != j && j !in processed {
        var distance := dist(marker.lat, marker.lon, ms[j].lat, ms[j].lon);
        if distance < threshold {
          PickAppend(ms, group, [j]);
          cluster := cluster + [ms[j]];
          group := group + [j];
          processed := processed + {j};
        }
      }
      j := j + 1;
    }
  }

  /**
   * The display item for a finished group: a cluster record with the
   * members' mean position when more than one marker was gathered, the seed
   * marker itself otherwise.
   */
  method Summarise<P>(ms: seq<Marker<P>>, marker: Marker<P>, cluster: seq<Marker<P>>, group: seq<nat>)
    returns (item: Item<P>)
    requires Below(|ms|, group) && |group| >= 1 && marker == ms[group[0]] && cluster == Pick(ms, group)
    ensures item == Emit(ms, group)
    ensures item.Single? <==> |cluster| == 1
  {
    if |cluster| > 1 {
      var count := |cluster|;
      item := Cluster(SumLat(cluster) / count as real, SumLon(cluster) / count as real, count, cluster);
    } else {
      item := Single(marker);
    }
  }

  /** Appending an emitted group and its item keeps the items in step with the groups. */
  lemma AppendEmitted<P>(ms: seq<Marker<P>>, items: seq<Item<P>>, groups: seq<seq<nat>>, item: Item<P>, group: seq<nat>)
    requires ValidGroups(|ms|, groups) && |group| > 0 && Below(|ms|, group)
    requires |items| == |groups| && forall q :: 0 <= q < |items| ==> items[q] == Emit(ms, groups[q])
    requires item == Emit(ms, group)
    ensures ValidGroups(|ms|, groups + [group])
    ensures forall q :: 0 <= q < |items| + 1 ==> (items + [item])[q] == Emit(ms, (groups + [group])[q])
  {
    forall q | 0 <= q < |items| + 1
      ensures (items + [item])[q] == Emit(ms, (groups + [group])[q])
    {
      if q < |items| {
        assert (items + [item])[q] == items[q] && (groups + [group])[q] == groups[q];
      }
    }
  }

  /**
   * One clustering pass, loop for loop. `processed` and `items` play the
   * roles of the source's `processed` and `clusteredMarkers`; `groups` keeps
   * the input positions of every group emitted so far.
   */
  method ClusterLoop<P>(ms: seq<Marker<P>>, region: Region, dist: Distance) returns (items: seq<Item<P>>)
    ensures items == ClusterMarkers(ms, region, dist)
  {
    var threshold := region.latitudeDelta * KmPerDegreeOfSpan;
    var processed: set<nat> := {};
    var groups: seq<seq<nat>> := [];
    items := [];
    var i := 0;
    while i < |ms|
      invariant i <= |ms| && ValidGroups(|ms|, groups) && threshold == Threshold(region)
      invariant Sweep(ms, threshold, dist, i, processed, groups) == GroupIndices(ms, threshold, dist)
      invariant |items| == |groups|
      invariant forall q :: 0 <= q < |items| ==> items[q] == Emit(ms, groups[q])
    {
      if i in processed {
        i := i + 1;
        continue;
      }
      var cluster, group;
      cluster, group, processed := Gather(ms, threshold, dist, i, processed + {i});
      var item := Summarise(ms, ms[i], cluster, group);
      AppendEmitted(ms, items, groups, item, group);
      items := items + [item];
      groups := groups + [group];
      i := i + 1;
    }
  }
}
