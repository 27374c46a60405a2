/**
 * The map screen's `clusterMarkers`: an outer walk over the markers in input
 * order, where every marker not yet processed seeds a group, and an inner walk
 * over all markers that adds to the group every unprocessed marker strictly
 * near the seed. Both walks share one set of processed indices.
 *
 * Scan and Sweep follow the two loops step by step, threading the processed
 * set as the source does. SweepIsGreedy proves that the groups they build are
 * those of the worklist formulation in GreedyReference.
 */
module Clustering {
  import opened Indices
  import opened Markers
  import opened GreedyReference

  /**
   * The inner walk from index `j` on: every index other than the seed that is
   * not yet processed and whose marker is near the seed's marker is appended
   * to `group` and marked processed.
   */
  function Scan<P>(ms: seq<Marker<P>>, threshold: real, dist: Distance, seed: nat, j: nat,
                   processed: set<nat>, group: seq<nat>): (r: (seq<nat>, set<nat>))
    requires seed < |ms| && j <= |ms| && Below(|ms|, group)
    ensures Below(|ms|, r.0) && |group| <= |r.0| && r.0[..|group|] == group
    ensures processed <= r.1
    decreases |ms| - j
  {
    if j == |ms| then (group, processed)
    else if seed != j && j !in processed && Near(dist, threshold, ms[seed], ms[j]) then
      Scan(ms, threshold, dist, seed, j + 1, processed + {j}, group + [j])
    else
      Scan(ms, threshold, dist, seed, j + 1, processed, group)
  }

  /**
   * The outer walk from index `i` on: a processed index is skipped; any other
   * index is marked processed, seeds a group that the inner walk completes,
   * and the group is appended to `groups`.
   */
  function Sweep<P>(ms: seq<Marker<P>>, threshold: real, dist: Distance, i: nat,
                    processed: set<nat>, groups: seq<seq<nat>>): (r: seq<seq<nat>>)
    requires i <= |ms| && ValidGroups(|ms|, groups)
    ensures ValidGroups(|ms|, r) && |groups| <= |r| && r[..|groups|] == groups
    decreases |ms| - i
  {
    if i == |ms| then groups
    else if i in processed then Sweep(ms, threshold, dist, i + 1, processed, groups)
    else
      var (group, processed') := Scan(ms, threshold, dist, i, 0, processed + {i}, [i]);
      Sweep(ms, threshold, dist, i + 1, processed', groups + [group])
  }

  /** The groups of input indices one clustering pass forms, in the order they are emitted. */
  function GroupIndices<P>(ms: seq<Marker<P>>, threshold: real, dist: Distance): (gs: seq<seq<nat>>)
    ensures ValidGroups(|ms|, gs)
  {
    Sweep(ms, threshold, dist, 0, {}, [])
  }

  /**
   * The display item for one group: a group of more than one marker becomes
   * a cluster summary with the members' mean latitude and mean longitude;
   * a group of one is emitted as its marker, unchanged.
   */
  function Emit<P>(ms: seq<Marker<P>>, group: seq<nat>): Item<P>
    requires |group| > 0 && Below(|ms|, group)
  {
    if |group| > 1 then
      var members := Pick(ms, group);
      var count := |members|;
      Cluster(SumLat(members) / count as real, SumLon(members) / count as real, count, members)
    else
      Single(ms[group[0]])
  }

  /** One clustering pass over `ms` for the visible `region`. */
  function ClusterMarkers<P>(ms: seq<Marker<P>>, region: Region, dist: Distance): seq<Item<P>>
  {
    var gs := GroupIndices(ms, Threshold(region), dist);
    seq(|gs|, q requires 0 <= q < |gs| => Emit(ms, gs[q]))
  }

  // ---------------------------------------------------------------------
  // The loops compute the worklist formulation
  // ---------------------------------------------------------------------

  /** The indices in [i, n) not yet processed, in increasing order. */
  function Unprocessed(n: nat, i: nat, processed: set<nat>): (r: seq<nat>)
    ensures Below(n, r)
    decreases n - i
  {
    if i >= n then []
    else if i in processed then Unprocessed(n, i + 1, processed)
    else [i] + Unprocessed(n, i + 1, processed)
  }

  /** The unprocessed indices from `i` on, one step at a time. */
  lemma UnprocessedAt(n: nat, i: nat, processed: set<nat>)
    requires i < n
    ensures Unprocessed(n, i, processed)
            == if i in processed then Unprocessed(n, i + 1, processed) else [i] + Unprocessed(n, i + 1, processed)
  {
  }

  /** Marking an index below `i` processed does not change what is unprocessed from `i` on. */
  lemma {:induction false} UnprocessedIgnoresBelow(n: nat, i: nat, processed: set<nat>, k: nat)
    requires k < i
    ensures Unprocessed(n, i, processed + {k}) == Unprocessed(n, i, processed)
    decreases n - i
  {
    if i < n {
      UnprocessedIgnoresBelow(n, i + 1, processed, k);
    }
  }

  /** Processed indices at the front of the range do not show. */
  lemma {:induction false} UnprocessedSkip(n: nat, j: nat, i: nat, processed: set<nat>)
    requires j <= i <= n
    requires forall k :: j <= k < i ==> k in processed
    ensures Unprocessed(n, j, processed) == Unprocessed(n, i, processed)
    decreases i - j
  {
    if j < i {
      UnprocessedSkip(n, j + 1, i, processed);
    }
  }

  /** With nothing processed, every index is unprocessed. */
  lemma {:induction false} NothingProcessed(n: nat, i: nat)
    requires i <= n
    ensures Unprocessed(n, i, {}) == AllIndices(n)[i..]
    decreases n - i
  {
    if i < n {
      NothingProcessed(n, i + 1);
      assert AllIndices(n)[i..] == [i] + AllIndices(n)[i + 1..];
    }
  }

  /** The inner walk from `j` marks processed only indices from `j` on. */
  lemma {:induction false} ScanMarksFrom<P>(ms: seq<Marker<P>>, threshold: real, dist: Distance, seed: nat, j: nat,
                                            processed: set<nat>, group: seq<nat>)
    requires seed < |ms| && j <= |ms| && Below(|ms|, group)
    ensures forall k :: k in Scan(ms, threshold, dist, seed, j, processed, group).1 && k !in processed ==> j <= k
    decreases |ms| - j
  {
    if j < |ms| {
      if seed != j && j !in processed && Near(dist, threshold, ms[seed], ms[j]) {
        ScanMarksFrom(ms, threshold, dist, seed, j + 1, processed + {j}, group + [j]);
      } else {
        ScanMarksFrom(ms, threshold, dist, seed, j + 1, processed, group);
      }
    }
  }

  /**
   * What the inner walk from `j` does: it appends to the group exactly the
   * unprocessed indices from `j` on that are near the seed, in order, and
   * what it leaves unprocessed from `j` on is exactly the rest of them.
   */
  ghost predicate ScanSplits<P>(ms: seq<Marker<P>>, threshold: real, dist: Distance, seed: nat, j: nat,
                                processed: set<nat>, group: seq<nat>)
    requires seed < |ms| && j <= |ms| && Below(|ms|, group)
  {
    var r := Scan(ms, threshold, dist, seed, j, processed, group);
    var todo := Unprocessed(|ms|, j, processed);
    && r.0 == group + Absorbed(ms, threshold, dist, seed, todo)
    && Unprocessed(|ms|, j, r.1) == Leftover(ms, threshold, dist, seed, todo)
  }

  /** A step of the inner walk over an index already processed. */
  lemma ScanSkipStep<P>(ms: seq<Marker<P>>, threshold: real, dist: Distance, seed: nat, j: nat,
                        processed: set<nat>, group: seq<nat>)
    requires seed < |ms| && j < |ms| && Below(|ms|, group) && j in processed
    requires ScanSplits(ms, threshold, dist, seed, j + 1, processed, group)
    ensures ScanSplits(ms, threshold, dist, seed, j, processed, group)
  {
    var r := Scan(ms, threshold, dist, seed, j + 1, processed, group);
    UnprocessedAt(|ms|, j, processed);
    UnprocessedAt(|ms|, j, r.1);
  }

  /** A step of the inner walk that adds an index near the seed. */
  lemma ScanNearStep<P>(ms: seq<Marker<P>>, threshold: real, dist: Distance, seed: nat, j: nat,
                        processed: set<nat>, group: seq<nat>)
    requires seed < |ms| && j < |ms| && Below(|ms|, group) && seed in processed && j !in processed
    requires Near(dist, threshold, ms[seed], ms[j])
    requires ScanSplits(ms, threshold, dist, seed, j + 1, processed + {j}, group + [j])
    ensures ScanSplits(ms, threshold, dist, seed, j, processed, group)
  {
    var n := |ms|;
    var later := Unprocessed(n, j + 1, processed);
    var r := Scan(ms, threshold, dist, seed, j + 1, processed + {j}, group + [j]);
    assert Unprocessed(n, j, processed) == [j] + later by {
      UnprocessedAt(n, j, processed);
    }
    assert Unprocessed(n, j + 1, processed + {j}) == later by {
      UnprocessedIgnoresBelow(n, j + 1, processed, j);
    }
    assert Unprocessed(n, j, r.1) == Unprocessed(n, j + 1, r.1) by {
      assert j in r.1;
      UnprocessedAt(n, j, r.1);
    }
    SplitCons(ms, threshold, dist, seed, j, later);
    AppendOne(group, j, Absorbed(ms, threshold, dist, seed, later));
  }

  /** A step of the inner walk over an unprocessed index not near the seed. */
  lemma ScanFarStep<P>(ms: seq<Marker<P>>, threshold: real, dist: Distance, seed: nat, j: nat,
                       processed: set<nat>, group: seq<nat>)
    requires seed < |ms| && j < |ms| && Below(|ms|, group) && j !in processed
    requires !Near(dist, threshold, ms[seed], ms[j])
    requires ScanSplits(ms, threshold, dist, seed, j + 1, processed, group)
    ensures ScanSplits(ms, threshold, dist, seed, j, processed, group)
  {
    var n := |ms|;
    ScanMarksFrom(ms, threshold, dist, seed, j + 1, processed, group);
    var r := Scan(ms, threshold, dist, seed, j + 1, processed, group);
    UnprocessedAt(n, j, processed);
    UnprocessedAt(n, j, r.1);
    SplitCons(ms, threshold, dist, seed, j, Unprocessed(n, j + 1, processed));
  }

  /**
   * The inner walk from `j` appends to the group exactly the unprocessed
   * indices from `j` on that are near the seed, in order; what it leaves
   * unprocessed from `j` on is exactly the rest of them, in order.
   */
  lemma {:induction false} ScanIsSplit<P>(ms: seq<Marker<P>>, threshold: real, dist: Distance, seed: nat, j: nat,
                                          processed: set<nat>, group: seq<nat>)
    requires seed < |ms| && j <= |ms| && Below(|ms|, group) && seed in processed
    ensures var r := Scan(ms, threshold, dist, seed, j, processed, group);
            var todo := Unprocessed(|ms|, j, processed);
            && r.0 == group + Absorbed(ms, threshold, dist, seed, todo)
            && Unprocessed(|ms|, j, r.1) == Leftover(ms, threshold, dist, seed, todo)
    decreases |ms| - j
  {
    if j < |ms| {
      if j in processed {
        ScanIsSplit(ms, threshold, dist, seed, j + 1, processed, group);
        ScanSkipStep(ms, threshold, dist, seed, j, processed, group);
      } else if Near(dist, threshold, ms[seed], ms[j]) {
        ScanIsSplit(ms, threshold, dist, seed, j + 1, processed + {j}, group + [j]);
        ScanNearStep(ms, threshold, dist, seed, j, processed, group);
      } else {
        ScanIsSplit(ms, threshold, dist, seed, j + 1, processed, group);
        ScanFarStep(ms, threshold, dist, seed, j, processed, group);
      }
    }
  }

  /**
   * One seed of the outer walk: with every index before `i` processed and `i`
   * itself not, the group seeded by `i` is `i` followed by the unprocessed
   * indices after it that are near it, and those not near it are what stays
   * unprocessed.
   */
  lemma SeedStep<P>(ms: seq<Marker<P>>, threshold: real, dist: Distance, i: nat, processed: set<nat>)
    requires i < |ms| && i !in processed
    requires forall k :: 0 <= k < i ==> k in processed
    ensures var rest := Unprocessed(|ms|, i + 1, processed);
            var r := Scan(ms, threshold, dist, i, 0, processed + {i}, [i]);
            && Unprocessed(|ms|, i, processed) == [i] + rest
            && r.0 == [i] + Absorbed(ms, threshold, dist, i, rest)
            && Unprocessed(|ms|, i + 1, r.1) == Leftover(ms, threshold, dist, i, rest)
            && forall k :: 0 <= k < i + 1 ==> k in r.1
  {
    var n := |ms|;
    var rest := Unprocessed(n, i + 1, processed);
    var marked := processed + {i};
    UnprocessedSkip(n, 0, i + 1, marked);
    UnprocessedIgnoresBelow(n, i + 1, processed, i);
    ScanIsSplit(ms, threshold, dist, i, 0, marked, [i]);
    var r := Scan(ms, threshold, dist, i, 0, marked, [i]);
    UnprocessedSkip(n, 0, i + 1, r.1);
  }

  /** The outer walk from `i` appends the greedy groups of the indices still unprocessed. */
  ghost predicate SweepGreedy<P>(ms: seq<Marker<P>>, threshold: real, dist: Distance, i: nat,
                                 processed: set<nat>, groups: seq<seq<nat>>)
    requires i <= |ms| && ValidGroups(|ms|, groups)
  {
    Sweep(ms, threshold, dist, i, processed, groups)
      == groups + Greedy(ms, threshold, dist, Unprocessed(|ms|, i, processed))
  }

  /** A step of the outer walk over an index already processed. */
  lemma {:induction false} SweepSkipStep<P>(ms: seq<Marker<P>>, threshold: real, dist: Distance, i: nat,
                                            processed: set<nat>, groups: seq<seq<nat>>)
    requires i < |ms| && ValidGroups(|ms|, groups) && i in processed
    requires forall k :: 0 <= k < i ==> k in processed
    ensures SweepGreedy(ms, threshold, dist, i, processed, groups)
    decreases |ms| - i, 0
  {
    SweepIsGreedy(ms, threshold, dist, i + 1, processed, groups);
    UnprocessedAt(|ms|, i, processed);
  }

  /** A step of the outer walk that seeds a group. */
  lemma {:induction false} SweepSeedStep<P>(ms: seq<Marker<P>>, threshold: real, dist: Distance, i: nat,
                                            processed: set<nat>, groups: seq<seq<nat>>)
    requires i < |ms| && ValidGroups(|ms|, groups) && i !in processed
    requires forall k :: 0 <= k < i ==> k in processed
    ensures SweepGreedy(ms, threshold, dist, i, processed, groups)
    decreases |ms| - i, 0
  {
    var n := |ms|;
    var r := Scan(ms, threshold, dist, i, 0, processed + {i}, [i]);
    var tail := Greedy(ms, threshold, dist, Unprocessed(n, i + 1, r.1));
    assert Greedy(ms, threshold, dist, Unprocessed(n, i, processed)) == [r.0] + tail by {
      SeedStep(ms, threshold, dist, i, processed);
      var rest := Unprocessed(n, i + 1, processed);
      GreedyUnfold(ms, threshold, dist, [i] + rest, Absorbed(ms, threshold, dist, i, rest),
                   Leftover(ms, threshold, dist, i, rest), tail);
    }
    assert ValidGroups(n, groups + [r.0]) && forall k :: 0 <= k < i + 1 ==> k in r.1;
    SweepIsGreedy(ms, threshold, dist, i + 1, r.1, groups + [r.0]);
    AppendOne(groups, r.0, tail);
  }

  /**
   * From any point of the outer walk at which every earlier index is
   * processed, the walk appends the greedy groups of the unprocessed indices.
   */
  lemma {:induction false} SweepIsGreedy<P>(ms: seq<Marker<P>>, threshold: real, dist: Distance, i: nat,
                                            processed: set<nat>, groups: seq<seq<nat>>)
    requires i <= |ms| && ValidGroups(|ms|, groups)
    requires forall k :: 0 <= k < i ==> k in processed
    ensures SweepGreedy(ms, threshold, dist, i, processed, groups)
    decreases |ms| - i, 1
  {
    if i == |ms| {
      assert groups + [] == groups;
    } else if i in processed {
      SweepSkipStep(ms, threshold, dist, i, processed, groups);
    } else {
      SweepSeedStep(ms, threshold, dist, i, processed, groups);
    }
  }

  /** The groups of a clustering pass are the greedy groups of all input indices. */
  lemma GroupIndicesIsGreedy<P>(ms: seq<Marker<P>>, threshold: real, dist: Distance)
    ensures GroupIndices(ms, threshold, dist) == Greedy(ms, threshold, dist, AllIndices(|ms|))
  {
    SweepIsGreedy(ms, threshold, dist, 0, {}, []);
    NothingProcessed(|ms|, 0);
    assert AllIndices(|ms|)[0..] == AllIndices(|ms|);
    var gs := Greedy(ms, threshold, dist, AllIndices(|ms|));
    assert [] + gs == gs;
  }
}
