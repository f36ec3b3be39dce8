/** The std::sort and std::unique calls of the minimiser, on sequences of
    implicants: a sort by countOnes, a sort by operator<, and unique followed
    by erase. */
module Sorting {
  import opened Implicants

  predicate Distinct<T(==)>(xs: seq<T>)
  {
    forall i, j :: 0 <= i < j < |xs| ==> xs[i] != xs[j]
  }

  /** Non-decreasing countOnes, the order the comparator
      a.countOnes() < b.countOnes() sorts into. */
  predicate SortedByOnes(xs: seq<Implicant>)
  {
    forall i, j :: 0 <= i < j < |xs| ==> CountOnes(xs[i]) <= CountOnes(xs[j])
  }

  /** Every implicant has n entries. */
  predicate Lengths(xs: seq<Implicant>, n: nat)
  {
    forall k :: 0 <= k < |xs| ==> |xs[k].state| == n
  }

  /** Sorted by operator<: no later element is smaller than an earlier one. */
  predicate LexSorted(xs: seq<Implicant>, n: nat)
  {
    Lengths(xs, n) && forall i, j :: 0 <= i < j < |xs| ==> !Less(xs[j], xs[i])
  }

  /** Strictly increasing under operator<. */
  predicate StrictlyLexSorted(xs: seq<Implicant>, n: nat)
  {
    Lengths(xs, n) && forall i, j :: 0 <= i < j < |xs| ==> Less(xs[i], xs[j])
  }

  lemma StrictlySortedDistinct(xs: seq<Implicant>, n: nat)
    requires StrictlyLexSorted(xs, n)
    ensures Distinct(xs)
  {
    forall i, j | 0 <= i < j < |xs| ensures xs[i] != xs[j] {
      LessIrreflexive(xs[i]);
    }
  }

  /** ys with x put in at position k. */
  lemma InsertAt(ys: seq<Implicant>, k: nat, x: Implicant)
    requires k <= |ys|
    ensures var zs := ys[..k] + [x] + ys[k..];
      |zs| == |ys| + 1 && zs[k] == x &&
      (forall p :: 0 <= p < k ==> zs[p] == ys[p]) &&
      (forall p :: k < p < |zs| ==> zs[p] == ys[p - 1]) &&
      multiset(zs) == multiset(ys) + multiset{x}
  {
    assert ys == ys[..k] + ys[k..];
  }

  lemma InsertDistinct(ys: seq<Implicant>, k: nat, x: Implicant)
    requires k <= |ys| && Distinct(ys) && x !in ys
    ensures Distinct(ys[..k] + [x] + ys[k..])
  {
    InsertAt(ys, k, x);
    var zs := ys[..k] + [x] + ys[k..];
    forall i, j | 0 <= i < j < |zs| ensures zs[i] != zs[j] {
      if i < k && j == k {
        assert zs[i] == ys[i];
      } else if i == k {
        assert zs[j] == ys[j - 1];
      }
    }
  }

  /** Puts x after the elements whose countOnes is not larger. */
  method InsertByOnes(ys: seq<Implicant>, x: Implicant) returns (zs: seq<Implicant>)
    requires SortedByOnes(ys)
    ensures SortedByOnes(zs) && multiset(zs) == multiset(ys) + multiset{x}
    ensures Distinct(ys) && x !in ys ==> Distinct(zs)
  {
    var k := 0;
    while k < |ys| && CountOnes(ys[k]) <= CountOnes(x)
      invariant 0 <= k <= |ys|
      invariant forall p :: 0 <= p < k ==> CountOnes(ys[p]) <= CountOnes(x)
    {
      k := k + 1;
    }
    InsertAt(ys, k, x);
    zs := ys[..k] + [x] + ys[k..];
    if Distinct(ys) && x !in ys {
      InsertDistinct(ys, k, x);
    }
  }

  /** std::sort with the countOnes comparator. */
  method SortByOnes(xs: seq<Implicant>) returns (ys: seq<Implicant>)
    ensures SortedByOnes(ys) && multiset(ys) == multiset(xs)
    ensures Distinct(xs) ==> Distinct(ys)
  {
    ys := [];
    for i := 0 to |xs|
      invariant SortedByOnes(ys) && multiset(ys) == multiset(xs[..i])
      invariant Distinct(xs) ==> Distinct(ys)
    {
      assert xs[..i + 1] == xs[..i] + [xs[i]];
      if Distinct(xs) {
        assert xs[i] !in multiset(xs[..i]);
      }
      ys := InsertByOnes(ys, xs[i]);
    }
    assert xs[..|xs|] == xs;
  }

  /** Puts x before the first element larger than it under operator<. */
  method InsertLex(ys: seq<Implicant>, x: Implicant, n: nat) returns (zs: seq<Implicant>)
    requires LexSorted(ys, n) && |x.state| == n
    ensures LexSorted(zs, n) && multiset(zs) == multiset(ys) + multiset{x}
  {
    var k := 0;
    while k < |ys| && !Less(x, ys[k])
      invariant 0 <= k <= |ys|
      invariant forall p :: 0 <= p < k ==> !Less(x, ys[p])
    {
      k := k + 1;
    }
    InsertAt(ys, k, x);
    zs := ys[..k] + [x] + ys[k..];
    forall p | k <= p < |ys| ensures !Less(ys[p], x) {
      if Less(ys[p], x) {
        if p == k {
          LessTransitive(ys[k], x, ys[k]);
        } else {
          LessTransitive(ys[p], x, ys[k]);
        }
        LessIrreflexive(ys[k]);
      }
    }
    forall i, j | 0 <= i < j < |zs| ensures !Less(zs[j], zs[i]) {
      if j < k || i > k {
        assert !Less(ys[j - (if j > k then 1 else 0)], ys[i - (if i > k then 1 else 0)]);
      }
    }
  }

  /** std::sort with operator<. */
  method SortLex(xs: seq<Implicant>, n: nat) returns (ys: seq<Implicant>)
    requires Lengths(xs, n)
    ensures LexSorted(ys, n) && multiset(ys) == multiset(xs)
  {
    ys := [];
    for i := 0 to |xs|
      invariant LexSorted(ys, n) && multiset(ys) == multiset(xs[..i])
    {
      assert xs[..i + 1] == xs[..i] + [xs[i]];
      ys := InsertLex(ys, xs[i], n);
    }
    assert xs[..|xs|] == xs;
  }

  /** std::unique with operator== followed by erase: of every run of equal
      elements only the first is kept. */
  method Unique(xs: seq<Implicant>, n: nat) returns (ys: seq<Implicant>)
    requires LexSorted(xs, n)
    ensures StrictlyLexSorted(ys, n)
    ensures forall x :: x in ys <==> x in xs
  {
    ys := [];
    for i := 0 to |xs|
      invariant StrictlyLexSorted(ys, n) && |ys| <= i
      invariant forall x :: x in ys <==> x in xs[..i]
      invariant i > 0 ==> |ys| > 0 && ys[|ys| - 1] == xs[i - 1]
    {
      assert xs[..i + 1] == xs[..i] + [xs[i]];
      if |ys| == 0 || !Equal(ys[|ys| - 1], xs[i]) {
        if |ys| > 0 {
          var last := ys[|ys| - 1];
          EqualIff(last, xs[i]);
          LessTotal(last, xs[i]);
          assert !Less(xs[i], xs[i - 1]);
          assert Less(last, xs[i]);
          forall p | 0 <= p < |ys| - 1 ensures Less(ys[p], xs[i]) {
            LessTransitive(ys[p], last, xs[i]);
          }
        }
        ys := ys + [xs[i]];
      } else {
        EqualIff(ys[|ys| - 1], xs[i]);
      }
    }
    assert xs[..|xs|] == xs;
  }
}
