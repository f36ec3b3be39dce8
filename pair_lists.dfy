/** The bookkeeping of the pair loops of getPrimeImplicants: which index
    pairs of a sequence of implicants are complementary pairs of neighbouring
    countOnes groups, which of them the loops have reached, and what next and
    excluded hold after a list of such pairs. */
module PairLists {
  import opened Implicants

  /** start[f] and start[s] are complementary, s in the group after f's. */
  predicate Pair(xs: seq<Implicant>, f: int, s: int)
  {
    0 <= f < |xs| && 0 <= s < |xs| && |xs[f].state| == |xs[s].state| &&
    IsComplementary(xs[f], xs[s]) && CountOnes(xs[s]) == CountOnes(xs[f]) + 1
  }

  /** The pair (f, s) comes before the cursor (c, d) of the loops. */
  predicate Visited(f: int, s: int, c: int, d: int)
  {
    f < c || (f == c && s < d)
  }

  /** pairs lists exactly the pairs before the cursor (c, d). */
  ghost predicate PairsUpTo(xs: seq<Implicant>, pairs: seq<(int, int)>, c: int, d: int)
  {
    (forall i :: 0 <= i < |pairs| ==> Pair(xs, pairs[i].0, pairs[i].1) && Visited(pairs[i].0, pairs[i].1, c, d)) &&
    (forall f, s :: Pair(xs, f, s) && Visited(f, s, c, d) ==> (f, s) in pairs)
  }

  /** The combinations of the listed pairs, in order (a pair out of range
      contributes nothing). */
  ghost function CombinedAll(xs: seq<Implicant>, pairs: seq<(int, int)>): seq<Implicant>
  {
    if pairs == [] then []
    else
      var p := pairs[|pairs| - 1];
      CombinedAll(xs, pairs[..|pairs| - 1]) +
        if 0 <= p.0 < |xs| && 0 <= p.1 < |xs| && |xs[p.0].state| <= |xs[p.1].state|
        then [Combined(xs[p.0], xs[p.1])] else []
  }

  /** m flags, set for both members of every listed pair. */
  ghost function Marks(pairs: seq<(int, int)>, m: nat): (r: seq<bool>)
    ensures |r| == m
  {
    if pairs == [] then seq(m, _ => false)
    else
      var p := pairs[|pairs| - 1];
      var r := Marks(pairs[..|pairs| - 1], m);
      var r' := if 0 <= p.0 < m then r[p.0 := true] else r;
      if 0 <= p.1 < m then r'[p.1 := true] else r'
  }

  lemma {:induction false} CombinedAllMembers(xs: seq<Implicant>, pairs: seq<(int, int)>)
    requires forall i :: 0 <= i < |pairs| ==> Pair(xs, pairs[i].0, pairs[i].1)
    ensures forall y :: y in CombinedAll(xs, pairs) <==>
      exists i :: 0 <= i < |pairs| && Pair(xs, pairs[i].0, pairs[i].1) && y == Combined(xs[pairs[i].0], xs[pairs[i].1])
  {
    if pairs != [] {
      var q := pairs[..|pairs| - 1];
      CombinedAllMembers(xs, q);
      assert forall i :: 0 <= i < |q| ==> q[i] == pairs[i];
    }
  }

  lemma {:induction false} MarksMeaning(pairs: seq<(int, int)>, m: nat)
    requires forall i :: 0 <= i < |pairs| ==> 0 <= pairs[i].0 < m && 0 <= pairs[i].1 < m
    ensures forall k :: 0 <= k < m ==>
      (Marks(pairs, m)[k] <==> exists i :: 0 <= i < |pairs| && (pairs[i].0 == k || pairs[i].1 == k))
  {
    if pairs != [] {
      var q := pairs[..|pairs| - 1];
      MarksMeaning(q, m);
      assert forall i :: 0 <= i < |q| ==> q[i] == pairs[i];
    }
  }

  /** One pass of the innermost loop body that finds a pair. */
  lemma PairsAdd(xs: seq<Implicant>, pairs: seq<(int, int)>, first: int, second: int)
    requires PairsUpTo(xs, pairs, first, second) && Pair(xs, first, second)
    ensures PairsUpTo(xs, pairs + [(first, second)], first, second + 1)
    ensures CombinedAll(xs, pairs + [(first, second)]) == CombinedAll(xs, pairs) + [Combined(xs[first], xs[second])]
    ensures Marks(pairs + [(first, second)], |xs|) == Marks(pairs, |xs|)[first := true][second := true]
  {
    assert (pairs + [(first, second)])[..|pairs|] == pairs;
  }

  /** One pass of the innermost loop body that finds no pair. */
  lemma PairsSkip(xs: seq<Implicant>, pairs: seq<(int, int)>, first: int, second: int)
    requires PairsUpTo(xs, pairs, first, second) && !Pair(xs, first, second)
    ensures PairsUpTo(xs, pairs, first, second + 1)
  {
    PairsSame(xs, pairs, first, second, first, second + 1);
  }

  /** Two cursors before which lie the same pairs. */
  lemma PairsSame(xs: seq<Implicant>, pairs: seq<(int, int)>, c1: int, d1: int, c2: int, d2: int)
    requires PairsUpTo(xs, pairs, c1, d1)
    requires forall f, s :: Pair(xs, f, s) ==> (Visited(f, s, c1, d1) <==> Visited(f, s, c2, d2))
    ensures PairsUpTo(xs, pairs, c2, d2)
  {
  }

}
