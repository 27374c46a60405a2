/**
 * A worklist formulation of greedy seed-based clustering, used as the
 * reference against which the map screen's processed-set loops are checked.
 *
 * The work list holds the indices not yet placed, in input order. Its head
 * is the next seed; the rest splits into the indices strictly near the seed
 * (they join its group, in order) and the others (they form the next work
 * list, in order).
 */
module GreedyReference {
  import opened Indices
  import opened Markers

  /** The indices of `rest`, in order, whose markers are near the seed's marker. */
  function Absorbed<P>(ms: seq<Marker<P>>, threshold: real, dist: Distance, seed: nat, rest: seq<nat>): (r: seq<nat>)
    requires seed < |ms| && Below(|ms|, rest)
    ensures forall k {:trigger k in r} :: k in r <==> k in rest && Near(dist, threshold, ms[seed], ms[k])
    ensures Below(|ms|, r) && |r| <= |rest|
    decreases |rest|
  {
    if |rest| == 0 then []
    else if Near(dist, threshold, ms[seed], ms[rest[0]]) then [rest[0]] + Absorbed(ms, threshold, dist, seed, rest[1..])
    else Absorbed(ms, threshold, dist, seed, rest[1..])
  }

  /** The indices of `rest`, in order, whose markers are not near the seed's marker. */
  function Leftover<P>(ms: seq<Marker<P>>, threshold: real, dist: Distance, seed: nat, rest: seq<nat>): (r: seq<nat>)
    requires seed < |ms| && Below(|ms|, rest)
    ensures forall k {:trigger k in r} :: k in r <==> k in rest && !Near(dist, threshold, ms[seed], ms[k])
    ensures Below(|ms|, r) && |r| <= |rest|
    decreases |rest|
  {
    if |rest| == 0 then []
    else if Near(dist, threshold, ms[seed], ms[rest[0]]) then Leftover(ms, threshold, dist, seed, rest[1..])
    else [rest[0]] + Leftover(ms, threshold, dist, seed, rest[1..])
  }

  /** The groups greedy clustering forms from the work list `work`, in seed order. */
  function Greedy<P>(ms: seq<Marker<P>>, threshold: real, dist: Distance, work: seq<nat>): (gs: seq<seq<nat>>)
    requires Below(|ms|, work)
    ensures ValidGroups(|ms|, gs) && |gs| <= |work|
    decreases |work|
  {
    if |work| == 0 then []
    else
      var seed, rest := work[0], work[1..];
      [[seed] + Absorbed(ms, threshold, dist, seed, rest)]
        + Greedy(ms, threshold, dist, Leftover(ms, threshold, dist, seed, rest))
  }

  /** No marker of `work` is near any later marker of `work`. */
  predicate Separated<P>(ms: seq<Marker<P>>, threshold: real, dist: Distance, work: seq<nat>)
    requires Below(|ms|, work)
  {
    forall a, b :: 0 <= a < b < |work| ==> !Near(dist, threshold, ms[work[a]], ms[work[b]])
  }

  // ---------------------------------------------------------------------
  // The split of `rest` into Absorbed and Leftover
  // ---------------------------------------------------------------------

  /** One step of the worklist clustering, with the pieces given as values. */
  lemma GreedyUnfold<P>(ms: seq<Marker<P>>, threshold: real, dist: Distance, work: seq<nat>,
                        absorbed: seq<nat>, leftover: seq<nat>, tail: seq<seq<nat>>)
    requires Below(|ms|, work) && |work| > 0
    requires Absorbed(ms, threshold, dist, work[0], work[1..]) == absorbed
    requires Leftover(ms, threshold, dist, work[0], work[1..]) == leftover
    requires Greedy(ms, threshold, dist, leftover) == tail
    ensures Greedy(ms, threshold, dist, work) == [[work[0]] + absorbed] + tail
  {
  }

  /** Absorbed and Leftover decide the head of a work list by its proximity to the seed. */
  lemma SplitCons<P>(ms: seq<Marker<P>>, threshold: real, dist: Distance, seed: nat, k: nat, rest: seq<nat>)
    requires seed < |ms| && k < |ms| && Below(|ms|, rest)
    ensures Below(|ms|, [k] + rest)
    ensures Near(dist, threshold, ms[seed], ms[k]) ==>
              && Absorbed(ms, threshold, dist, seed, [k] + rest) == [k] + Absorbed(ms, threshold, dist, seed, rest)
              && Leftover(ms, threshold, dist, seed, [k] + rest) == Leftover(ms, threshold, dist, seed, rest)
    ensures !Near(dist, threshold, ms[seed], ms[k]) ==>
              && Absorbed(ms, threshold, dist, seed, [k] + rest) == Absorbed(ms, threshold, dist, seed, rest)
              && Leftover(ms, threshold, dist, seed, [k] + rest) == [k] + Leftover(ms, threshold, dist, seed, rest)
  {
    assert ([k] + rest)[0] == k && ([k] + rest)[1..] == rest;
  }

  /** Absorbed and Leftover split `rest` without losing or duplicating an index. */
  lemma {:induction false} SplitIsPermutation<P>(ms: seq<Marker<P>>, threshold: real, dist: Distance, seed: nat, rest: seq<nat>)
    requires seed < |ms| && Below(|ms|, rest)
    ensures multiset(Absorbed(ms, threshold, dist, seed, rest)) + multiset(Leftover(ms, threshold, dist, seed, rest))
            == multiset(rest)
    decreases |rest|
  {
    if |rest| > 0 {
      SplitIsPermutation(ms, threshold, dist, seed, rest[1..]);
      assert rest == [rest[0]] + rest[1..];
    }
  }

  /** Both halves of the split keep the order of `rest`. */
  lemma {:induction false} SplitKeepsOrder<P>(ms: seq<Marker<P>>, threshold: real, dist: Distance, seed: nat, rest: seq<nat>)
    requires seed < |ms| && Below(|ms|, rest) && Increasing(rest)
    ensures Increasing(Absorbed(ms, threshold, dist, seed, rest))
    ensures Increasing(Leftover(ms, threshold, dist, seed, rest))
    decreases |rest|
  {
    if |rest| > 0 {
      var tail := rest[1..];
      SplitKeepsOrder(ms, threshold, dist, seed, tail);
      forall k | k in tail
        ensures rest[0] < k
      {
        var b :| 0 <= b < |tail| && tail[b] == k;
        assert rest[b + 1] == k;
      }
      ConsIncreasing(rest[0], Absorbed(ms, threshold, dist, seed, tail));
      ConsIncreasing(rest[0], Leftover(ms, threshold, dist, seed, tail));
    }
  }

  /** With nothing of `rest` near the seed, nothing is absorbed and nothing is dropped. */
  lemma {:induction false} NothingAbsorbed<P>(ms: seq<Marker<P>>, threshold: real, dist: Distance, seed: nat, rest: seq<nat>)
    requires seed < |ms| && Below(|ms|, rest)
    ensures Absorbed(ms, threshold, dist, seed, rest) == [] <==> Leftover(ms, threshold, dist, seed, rest) == rest
    decreases |rest|
  {
    if |rest| > 0 {
      NothingAbsorbed(ms, threshold, dist, seed, rest[1..]);
      assert rest == [rest[0]] + rest[1..];
      SplitIsPermutation(ms, threshold, dist, seed, rest);
      var a := Absorbed(ms, threshold, dist, seed, rest);
      if Leftover(ms, threshold, dist, seed, rest) == rest {
        assert |multiset(a)| == 0;
      }
    }
  }

  // ---------------------------------------------------------------------
  // Properties of the groups
  // ---------------------------------------------------------------------

  /** One unfolding of Greedy on a non-empty work list. */
  lemma GreedyStep<P>(ms: seq<Marker<P>>, threshold: real, dist: Distance, work: seq<nat>)
    requires Below(|ms|, work) && |work| > 0
    ensures var rest := work[1..];
            var tail := Greedy(ms, threshold, dist, Leftover(ms, threshold, dist, work[0], rest));
            var gs := Greedy(ms, threshold, dist, work);
            && gs[0] == [work[0]] + Absorbed(ms, threshold, dist, work[0], rest)
            && gs[1..] == tail
            && |gs| == |tail| + 1
            && (forall q :: 0 < q < |gs| ==> gs[q] == tail[q - 1])
            && Flatten(gs) == gs[0] + Flatten(tail)
  {
  }

  /** Every index of the work list lands in exactly one group. */
  lemma {:induction false} GreedyPartition<P>(ms: seq<Marker<P>>, threshold: real, dist: Distance, work: seq<nat>)
    requires Below(|ms|, work)
    ensures multiset(Flatten(Greedy(ms, threshold, dist, work))) == multiset(work)
    decreases |work|
  {
    if |work| > 0 {
      var seed, rest := work[0], work[1..];
      var left := Leftover(ms, threshold, dist, seed, rest);
      GreedyStep(ms, threshold, dist, work);
      GreedyPartition(ms, threshold, dist, left);
      SplitIsPermutation(ms, threshold, dist, seed, rest);
      assert work == [seed] + rest;
    }
  }

  /** Every index of every group comes from the work list. */
  lemma GreedyMembersFromWork<P>(ms: seq<Marker<P>>, threshold: real, dist: Distance, work: seq<nat>, q: nat, k: nat)
    requires Below(|ms|, work)
    requires q < |Greedy(ms, threshold, dist, work)| && k in Greedy(ms, threshold, dist, work)[q]
    ensures k in work
  {
    var gs := Greedy(ms, threshold, dist, work);
    FlattenMember(gs, q, k);
    GreedyPartition(ms, threshold, dist, work);
    assert k in multiset(Flatten(gs));
  }

  /** Each group lists its indices in increasing order, seed first. */
  lemma {:induction false} GreedyGroupsIncreasing<P>(ms: seq<Marker<P>>, threshold: real, dist: Distance, work: seq<nat>)
    requires Below(|ms|, work) && Increasing(work)
    ensures var gs := Greedy(ms, threshold, dist, work);
            forall q :: 0 <= q < |gs| ==> Increasing(gs[q])
    decreases |work|
  {
    if |work| > 0 {
      var seed, rest := work[0], work[1..];
      var left := Leftover(ms, threshold, dist, seed, rest);
      GreedyStep(ms, threshold, dist, work);
      SplitKeepsOrder(ms, threshold, dist, seed, rest);
      GreedyGroupsIncreasing(ms, threshold, dist, left);
      var absorbed := Absorbed(ms, threshold, dist, seed, rest);
      forall k | k in absorbed
        ensures seed < k
      {
        var b :| 0 <= b < |rest| && rest[b] == k;
        assert work[b + 1] == k;
      }
      ConsIncreasing(seed, absorbed);
      var gs := Greedy(ms, threshold, dist, work);
      var tail := Greedy(ms, threshold, dist, left);
      forall q | 0 <= q < |gs|
        ensures Increasing(gs[q])
      {
        if q > 0 {
          assert gs[q] == tail[q - 1];
        }
      }
    }
  }

  /** A group's seed precedes every index of every later group. */
  lemma {:induction false} GreedySeedsPrecedeLaterGroups<P>(ms: seq<Marker<P>>, threshold: real, dist: Distance, work: seq<nat>)
    requires Below(|ms|, work) && Increasing(work)
    ensures var gs := Greedy(ms, threshold, dist, work);
            forall q, q', k :: 0 <= q < q' < |gs| && k in gs[q'] ==> gs[q][0] < k
    decreases |work|
  {
    if |work| > 0 {
      var seed, rest := work[0], work[1..];
      var left := Leftover(ms, threshold, dist, seed, rest);
      var gs := Greedy(ms, threshold, dist, work);
      var tail := Greedy(ms, threshold, dist, left);
      GreedyStep(ms, threshold, dist, work);
      SplitKeepsOrder(ms, threshold, dist, seed, rest);
      GreedySeedsPrecedeLaterGroups(ms, threshold, dist, left);
      forall q, q', k | 0 <= q < q' < |gs| && k in gs[q']
        ensures gs[q][0] < k
      {
        if q == 0 {
          GreedyMembersFromWork(ms, threshold, dist, left, q' - 1, k);
          var b :| 0 <= b < |rest| && rest[b] == k;
          assert work[b + 1] == k;
        } else {
          assert gs[q] == tail[q - 1] && gs[q'] == tail[q' - 1];
        }
      }
    }
  }

  /** Every member after the seed is strictly near the seed. */
  lemma {:induction false} GreedyProximity<P>(ms: seq<Marker<P>>, threshold: real, dist: Distance, work: seq<nat>)
    requires Below(|ms|, work)
    ensures var gs := Greedy(ms, threshold, dist, work);
            forall q, p :: 0 <= q < |gs| && 1 <= p < |gs[q]| ==> Near(dist, threshold, ms[gs[q][0]], ms[gs[q][p]])
    decreases |work|
  {
    if |work| > 0 {
      var seed, rest := work[0], work[1..];
      var left := Leftover(ms, threshold, dist, seed, rest);
      var gs := Greedy(ms, threshold, dist, work);
      var tail := Greedy(ms, threshold, dist, left);
      GreedyStep(ms, threshold, dist, work);
      GreedyProximity(ms, threshold, dist, left);
      forall q, p | 0 <= q < |gs| && 1 <= p < |gs[q]|
        ensures Near(dist, threshold, ms[gs[q][0]], ms[gs[q][p]])
      {
        if q == 0 {
          assert gs[0][p] in Absorbed(ms, threshold, dist, seed, rest);
        } else {
          assert gs[q] == tail[q - 1];
        }
      }
    }
  }

  /**
   * An index of the work list not placed in the first q groups is, for the
   * recursive call on the leftover list, not placed in its first q - 1 groups.
   */
  lemma StillUnplaced<P>(ms: seq<Marker<P>>, threshold: real, dist: Distance, work: seq<nat>, q: nat, k: nat)
    requires Below(|ms|, work) && |work| > 0
    requires 0 < q < |Greedy(ms, threshold, dist, work)|
    requires k in work && k !in Flatten(Greedy(ms, threshold, dist, work)[..q])
    ensures var left := Leftover(ms, threshold, dist, work[0], work[1..]);
            var tail := Greedy(ms, threshold, dist, left);
            && k in left && k !in Flatten(tail[..q - 1])
            && Greedy(ms, threshold, dist, work)[q] == tail[q - 1]
  {
    var seed, rest := work[0], work[1..];
    var left := Leftover(ms, threshold, dist, seed, rest);
    var gs := Greedy(ms, threshold, dist, work);
    var tail := Greedy(ms, threshold, dist, left);
    GreedyStep(ms, threshold, dist, work);
    assert gs[..q] == [gs[0]] + tail[..q - 1];
    FlattenAppend([gs[0]], tail[..q - 1]);
    assert Flatten([gs[0]]) == gs[0];
    assert k !in gs[0];
    assert k != seed && k !in Absorbed(ms, threshold, dist, seed, rest);
  }

  /**
   * When a group is formed, every index not yet placed in an earlier group
   * that is near its seed is absorbed into it.
   */
  lemma {:induction false} GreedyMaximal<P>(ms: seq<Marker<P>>, threshold: real, dist: Distance, work: seq<nat>)
    requires Below(|ms|, work)
    ensures var gs := Greedy(ms, threshold, dist, work);
            forall q, k ::
              (0 <= q < |gs| && k in work && k !in Flatten(gs[..q]) && Near(dist, threshold, ms[gs[q][0]], ms[k]))
              ==> k in gs[q]
    decreases |work|
  {
    if |work| > 0 {
      var seed, rest := work[0], work[1..];
      var left := Leftover(ms, threshold, dist, seed, rest);
      var gs := Greedy(ms, threshold, dist, work);
      var tail := Greedy(ms, threshold, dist, left);
      GreedyStep(ms, threshold, dist, work);
      GreedyMaximal(ms, threshold, dist, left);
      forall q, k | 0 <= q < |gs| && k in work && k !in Flatten(gs[..q])
                    && Near(dist, threshold, ms[gs[q][0]], ms[k])
        ensures k in gs[q]
      {
        if q > 0 {
          StillUnplaced(ms, threshold, dist, work, q, k);
        }
      }
    }
  }

  /** Each seed is the least index not placed in an earlier group. */
  lemma {:induction false} GreedySeedIsLeast<P>(ms: seq<Marker<P>>, threshold: real, dist: Distance, work: seq<nat>)
    requires Below(|ms|, work) && Increasing(work)
    ensures var gs := Greedy(ms, threshold, dist, work);
            forall q, k :: 0 <= q < |gs| && k in work && k !in Flatten(gs[..q]) ==> gs[q][0] <= k
    decreases |work|
  {
    if |work| > 0 {
      var seed, rest := work[0], work[1..];
      var left := Leftover(ms, threshold, dist, seed, rest);
      var gs := Greedy(ms, threshold, dist, work);
      var tail := Greedy(ms, threshold, dist, left);
      GreedyStep(ms, threshold, dist, work);
      SplitKeepsOrder(ms, threshold, dist, seed, rest);
      GreedySeedIsLeast(ms, threshold, dist, left);
      forall q, k | 0 <= q < |gs| && k in work && k !in Flatten(gs[..q])
        ensures gs[q][0] <= k
      {
        if q == 0 {
          var b :| 0 <= b < |work| && work[b] == k;
        } else {
          StillUnplaced(ms, threshold, dist, work, q, k);
        }
      }
    }
  }

  /** Nothing is absorbed exactly when no index of `rest` is near the seed. */
  lemma AbsorbedEmpty<P>(ms: seq<Marker<P>>, threshold: real, dist: Distance, seed: nat, rest: seq<nat>)
    requires seed < |ms| && Below(|ms|, rest)
    ensures Absorbed(ms, threshold, dist, seed, rest) == []
            <==> forall b :: 0 <= b < |rest| ==> !Near(dist, threshold, ms[seed], ms[rest[b]])
  {
    var absorbed := Absorbed(ms, threshold, dist, seed, rest);
    if absorbed != [] {
      assert absorbed[0] in absorbed;
    } else {
      forall b | 0 <= b < |rest|
        ensures !Near(dist, threshold, ms[seed], ms[rest[b]])
      {
        assert rest[b] in rest && rest[b] !in absorbed;
      }
    }
  }

  /** A work list is separated exactly when its head is far from the rest and the rest is separated. */
  lemma SeparatedUnfold<P>(ms: seq<Marker<P>>, threshold: real, dist: Distance, work: seq<nat>)
    requires Below(|ms|, work) && |work| > 0
    ensures Separated(ms, threshold, dist, work)
            <==> (forall b :: 0 <= b < |work| - 1 ==> !Near(dist, threshold, ms[work[0]], ms[work[1..][b]]))
                 && Separated(ms, threshold, dist, work[1..])
  {
    var rest := work[1..];
    if (forall b :: 0 <= b < |rest| ==> !Near(dist, threshold, ms[work[0]], ms[rest[b]]))
       && Separated(ms, threshold, dist, rest) {
      forall a, b | 0 <= a < b < |work|
        ensures !Near(dist, threshold, ms[work[a]], ms[work[b]])
      {
        assert work[b] == rest[b - 1];
        if a > 0 {
          assert work[a] == rest[a - 1];
        }
      }
    }
    if Separated(ms, threshold, dist, work) {
      forall a, b | 0 <= a < b < |rest|
        ensures !Near(dist, threshold, ms[rest[a]], ms[rest[b]])
      {
        assert rest[a] == work[a + 1] && rest[b] == work[b + 1];
      }
      forall b | 0 <= b < |rest|
        ensures !Near(dist, threshold, ms[work[0]], ms[rest[b]])
      {
        assert rest[b] == work[b + 1];
      }
    }
  }

  /**
   * Greedy clustering leaves every index on its own exactly when no marker
   * is near a later one.
   */
  lemma {:induction false} GreedyAllSingles<P>(ms: seq<Marker<P>>, threshold: real, dist: Distance, work: seq<nat>)
    requires Below(|ms|, work)
    ensures |Greedy(ms, threshold, dist, work)| == |work| <==> Separated(ms, threshold, dist, work)
    decreases |work|
  {
    if |work| > 0 {
      var seed, rest := work[0], work[1..];
      var absorbed := Absorbed(ms, threshold, dist, seed, rest);
      var left := Leftover(ms, threshold, dist, seed, rest);
      GreedyStep(ms, threshold, dist, work);
      SplitIsPermutation(ms, threshold, dist, seed, rest);
      assert |absorbed| + |left| == |rest| by {
        assert |multiset(absorbed) + multiset(left)| == |multiset(rest)|;
      }
      NothingAbsorbed(ms, threshold, dist, seed, rest);
      AbsorbedEmpty(ms, threshold, dist, seed, rest);
      SeparatedUnfold(ms, threshold, dist, work);
      GreedyAllSingles(ms, threshold, dist, left);
    }
  }

  /** On a separated work list the groups are the indices one by one, in order. */
  lemma {:induction false} GreedySinglesInOrder<P>(ms: seq<Marker<P>>, threshold: real, dist: Distance, work: seq<nat>)
    requires Below(|ms|, work) && Separated(ms, threshold, dist, work)
    ensures Greedy(ms, threshold, dist, work) == seq(|work|, q requires 0 <= q < |work| => [work[q]])
    decreases |work|
  {
    if |work| > 0 {
      var seed, rest := work[0], work[1..];
      var gs := Greedy(ms, threshold, dist, work);
      GreedyStep(ms, threshold, dist, work);
      SeparatedUnfold(ms, threshold, dist, work);
      AbsorbedEmpty(ms, threshold, dist, seed, rest);
      NothingAbsorbed(ms, threshold, dist, seed, rest);
      GreedySinglesInOrder(ms, threshold, dist, rest);
      var tail := Greedy(ms, threshold, dist, rest);
      forall q | 0 <= q < |work|
        ensures gs[q] == [work[q]]
      {
        if q > 0 {
          assert gs[q] == tail[q - 1];
        }
      }
    }
  }
}
