/** Sequences of marker indices: the bookkeeping vocabulary of the clustering pass. */
module Indices {

  /** Concatenation of a sequence of sequences, in order. */
  function Flatten<T>(xss: seq<seq<T>>): seq<T>
  {
    if |xss| == 0 then [] else xss[0] + Flatten(xss[1..])
  }

  /** The elements of `s` at the positions listed in `ks`, in that order. */
  function Pick<T>(s: seq<T>, ks: seq<nat>): seq<T>
    requires Below(|s|, ks)
  {
    seq(|ks|, p requires 0 <= p < |ks| => s[ks[p]])
  }

  /** The positions 0, 1, ..., n - 1 of a sequence of length n. */
  function AllIndices(n: nat): seq<nat>
  {
    seq(n, k requires 0 <= k < n => k as nat)
  }

  /** Every index in `ks` addresses a sequence of length `n`. */
  predicate Below(n: nat, ks: seq<nat>)
  {
    forall p :: 0 <= p < |ks| ==> ks[p] < n
  }

  /** Strictly increasing, hence also free of duplicates. */
  predicate Increasing(ks: seq<nat>)
  {
    forall a, b :: 0 <= a < b < |ks| ==> ks[a] < ks[b]
  }

  /** Every group is non-empty and addresses a sequence of length `n`. */
  predicate ValidGroups(n: nat, gs: seq<seq<nat>>)
  {
    forall g :: g in gs ==> |g| > 0 && Below(n, g)
  }

  /** Appending one element and then a sequence is appending their concatenation. */
  lemma AppendOne<T>(xs: seq<T>, x: T, ys: seq<T>)
    ensures xs + [x] + ys == xs + ([x] + ys)
  {
  }

  lemma {:induction false} FlattenAppend<T>(xss: seq<seq<T>>, yss: seq<seq<T>>)
    ensures Flatten(xss + yss) == Flatten(xss) + Flatten(yss)
    decreases |xss|
  {
    if |xss| == 0 {
      assert xss + yss == yss;
    } else {
      assert (xss + yss)[1..] == xss[1..] + yss;
      FlattenAppend(xss[1..], yss);
    }
  }

  /** The flattening around one inner sequence: what comes before it, it, and what comes after. */
  lemma {:induction false} FlattenAround<T>(xss: seq<seq<T>>, q: nat)
    requires q < |xss|
    ensures Flatten(xss) == Flatten(xss[..q]) + xss[q] + Flatten(xss[q + 1..])
    decreases q
  {
    if q == 0 {
      assert xss[..0] == [];
      assert xss[1..] == xss[q + 1..];
    } else {
      var tail := xss[1..];
      FlattenAround(tail, q - 1);
      assert xss[..q][0] == xss[0] && xss[..q][1..] == tail[..q - 1];
      assert tail[q - 1] == xss[q] && tail[q..] == xss[q + 1..];
      assert Flatten(xss[..q]) == xss[0] + Flatten(tail[..q - 1]);
    }
  }

  /** Each inner sequence contributes its elements to the flattening. */
  lemma {:induction false} FlattenMember<T>(xss: seq<seq<T>>, q: nat, x: T)
    requires q < |xss| && x in xss[q]
    ensures x in Flatten(xss)
    decreases q
  {
    if q > 0 {
      assert xss[1..][q - 1] == xss[q];
      FlattenMember(xss[1..], q - 1, x);
    }
  }

  /** Putting an index in front of larger ones keeps a sequence increasing. */
  lemma ConsIncreasing(x: nat, t: seq<nat>)
    requires Increasing(t) && forall k :: k in t ==> x < k
    ensures Increasing([x] + t)
  {
    forall a, b | 0 <= a < b < |[x] + t|
      ensures ([x] + t)[a] < ([x] + t)[b]
    {
      assert ([x] + t)[b] == t[b - 1] && t[b - 1] in t;
      if a > 0 {
        assert ([x] + t)[a] == t[a - 1];
      }
    }
  }

  /** Picking from a concatenation is concatenating the picks. */
  lemma PickAppend<T>(s: seq<T>, ks: seq<nat>, ls: seq<nat>)
    requires Below(|s|, ks) && Below(|s|, ls)
    ensures Pick(s, ks + ls) == Pick(s, ks) + Pick(s, ls)
  {
  }

  /** Picking group by group and concatenating is picking the concatenated groups. */
  lemma {:induction false} FlattenPick<T>(s: seq<T>, gs: seq<seq<nat>>)
    requires ValidGroups(|s|, gs)
    ensures Below(|s|, Flatten(gs))
    ensures Flatten(seq(|gs|, q requires 0 <= q < |gs| => Pick(s, gs[q]))) == Pick(s, Flatten(gs))
    decreases |gs|
  {
    if |gs| > 0 {
      FlattenPick(s, gs[1..]);
      var picks := seq(|gs|, q requires 0 <= q < |gs| => Pick(s, gs[q]));
      var tailPicks := seq(|gs| - 1, q requires 0 <= q < |gs| - 1 => Pick(s, gs[1..][q]));
      assert picks[1..] == tailPicks;
      assert gs[0] in gs;
      PickAppend(s, gs[0], Flatten(gs[1..]));
    }
  }

  /** Picking every position in order gives back the whole sequence. */
  lemma PickAll<T>(s: seq<T>)
    ensures Pick(s, AllIndices(|s|)) == s
  {
  }
}
