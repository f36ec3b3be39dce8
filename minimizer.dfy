/** getFDNF and getPrimeImplicants: the full disjunctive normal form of a
    truth table, and the Quine-McCluskey generation loop that finds all its
    prime implicants. */
module Minimizer {
  import opened Bits
  import opened Implicants
  import opened Primality
  import opened Sorting
  import TruthTables
  import opened PairLists

  /** Every implicant in xs has n entries, each 0, 1 or 2. */
  predicate AllValid(xs: seq<Implicant>, n: nat)
  {
    forall k :: 0 <= k < |xs| ==> Valid(xs[k], n)
  }

  lemma OnesBound(x: Implicant, n: nat)
    requires Valid(x, n)
    ensures CountOnes(x) <= n
  {
  }

  // ---------------------------------------------------------------------
  // The minterms of the true rows, in row order.

  function TrueMinterms(table: seq<bool>, n: nat, i: nat): seq<Implicant>
    requires i <= |table|
  {
    if i == 0 then []
    else TrueMinterms(table, n, i - 1) + (if table[i - 1] then [Minterm(i - 1, n)] else [])
  }

  lemma {:induction false} TrueMintermsMembers(table: seq<bool>, n: nat, i: nat)
    requires i <= |table|
    ensures forall x :: x in TrueMinterms(table, n, i) <==> exists s :: 0 <= s < i && table[s] && x == Minterm(s, n)
  {
    if i > 0 {
      TrueMintermsMembers(table, n, i - 1);
    }
  }

  /** Different rows of a table with at most 2^n rows have different
      minterms. */
  lemma {:induction false} TrueMintermsDistinct(table: seq<bool>, n: nat, i: nat)
    requires i <= |table| && i <= Pow2(n)
    ensures Distinct(TrueMinterms(table, n, i))
  {
    if i > 0 {
      var p := TrueMinterms(table, n, i - 1);
      TrueMintermsDistinct(table, n, i - 1);
      if table[i - 1] {
        var m := Minterm(i - 1, n);
        TrueMintermsMembers(table, n, i - 1);
        if m in p {
          var s :| 0 <= s < i - 1 && table[s] && m == Minterm(s, n);
          MintermInjective(s, i - 1, n);
        }
        DistinctSnoc(p, m);
      }
    }
  }

  lemma DistinctSnoc(p: seq<Implicant>, m: Implicant)
    requires Distinct(p) && m !in p
    ensures Distinct(p + [m])
  {
    forall a, b | 0 <= a < b < |p| + 1 ensures (p + [m])[a] != (p + [m])[b] {
      if b == |p| {
        assert p[a] in p;
      }
    }
  }

  /** getFDNF: the minterms of the true rows, sorted by countOnes. */
  method GetFDNF(t: TruthTables.TruthTable) returns (fdnf: seq<Implicant>)
    requires |t.vars| <= 31 && |t.table| < 0x8000_0000
    ensures SortedByOnes(fdnf)
    ensures multiset(fdnf) == multiset(TrueMinterms(t.table, |t.vars|, |t.table|))
    ensures |t.table| <= Pow2(|t.vars|) ==> Distinct(fdnf)
  {
    var table := t.table;
    var n := |t.vars|;
    fdnf := [];
    for i := 0 to |table|
      invariant fdnf == TrueMinterms(table, n, i)
    {
      if table[i] {
        var x := FromMinterm(i, n);
        fdnf := fdnf + [x];
      }
    }
    if |table| <= Pow2(n) {
      TrueMintermsDistinct(table, n, |table|);
    }
    fdnf := SortByOnes(fdnf);
  }

  // ---------------------------------------------------------------------
  // The countOnes groups of a sequence sorted by countOnes.

  /** The number of elements with fewer than v ones. */
  function Below(xs: seq<Implicant>, v: nat): nat
  {
    if xs == [] then 0
    else Below(xs[..|xs| - 1], v) + (if CountOnes(xs[|xs| - 1]) < v then 1 else 0)
  }

  /** The number of elements with exactly v ones. */
  function Exactly(xs: seq<Implicant>, v: nat): nat
  {
    if xs == [] then 0
    else Exactly(xs[..|xs| - 1], v) + (if CountOnes(xs[|xs| - 1]) == v then 1 else 0)
  }

  lemma {:induction false} BelowStep(xs: seq<Implicant>, v: nat)
    ensures Below(xs, 0) == 0
    ensures Below(xs, v + 1) == Below(xs, v) + Exactly(xs, v)
  {
    if xs != [] {
      BelowStep(xs[..|xs| - 1], v);
    }
  }

  lemma {:induction false} BelowAll(xs: seq<Implicant>, n: nat)
    requires AllValid(xs, n)
    ensures Below(xs, n + 1) == |xs|
  {
    if xs != [] {
      assert AllValid(xs[..|xs| - 1], n);
      BelowAll(xs[..|xs| - 1], n);
      OnesBound(xs[|xs| - 1], n);
    }
  }

  /** In a sequence sorted by countOnes the elements with fewer than v ones
      are exactly the first Below(xs, v). */
  lemma {:induction false} SortedBelow(xs: seq<Implicant>, v: nat)
    requires SortedByOnes(xs)
    ensures Below(xs, v) <= |xs|
    ensures forall k :: 0 <= k < |xs| ==> (k < Below(xs, v) <==> CountOnes(xs[k]) < v)
  {
    if xs != [] {
      var ys := xs[..|xs| - 1];
      assert SortedByOnes(ys);
      SortedBelow(ys, v);
    }
  }

  /** The indices from Below(xs, v) to Below(xs, v + 1) hold group v. */
  lemma InGroup(xs: seq<Implicant>, v: nat, k: int)
    requires SortedByOnes(xs) && Below(xs, v) <= k < Below(xs, v + 1)
    ensures 0 <= k < |xs| && CountOnes(xs[k]) == v
  {
    SortedBelow(xs, v);
    SortedBelow(xs, v + 1);
  }

  /** The two counting loops of getPrimeImplicants and the insertion of a
      leading 0: count[v] is the index where group v starts. */
  method GroupBounds(start: seq<Implicant>, n: nat) returns (count: seq<int>)
    requires AllValid(start, n)
    ensures |count| == n + 2
    ensures forall v :: 0 <= v <= n + 1 ==> count[v] == Below(start, v)
  {
    count := seq(n + 1, _ => 0);
    for i := 0 to |start|
      invariant |count| == n + 1
      invariant forall v :: 0 <= v <= n ==> count[v] == Exactly(start[..i], v)
    {
      assert start[..i + 1][..i] == start[..i];
      OnesBound(start[i], n);
      var c := CountOnes(start[i]);
      count := count[c := count[c] + 1];
    }
    assert start[..|start|] == start;
    BelowStep(start, 0);
    for i := 1 to n + 1
      invariant |count| == n + 1
      invariant forall v :: 0 <= v < i ==> count[v] == Below(start, v + 1)
      invariant forall v :: i <= v <= n ==> count[v] == Exactly(start, v)
    {
      BelowStep(start, i);
      count := count[i := count[i - 1] + count[i]];
    }
    count := [0] + count;
  }

  // ---------------------------------------------------------------------
  // The pair loops: every complementary pair of neighbouring groups.

  /** The partners of a member of group i lie in group i + 1. */
  lemma EnterRow(xs: seq<Implicant>, pairs: seq<(int, int)>, i: nat, first: int)
    requires SortedByOnes(xs) && Below(xs, i) <= first < Below(xs, i + 1)
    requires PairsUpTo(xs, pairs, first, 0)
    ensures PairsUpTo(xs, pairs, first, Below(xs, i + 1))
  {
    InGroup(xs, i, first);
    SortedBelow(xs, i + 1);
    PairsSame(xs, pairs, first, 0, first, Below(xs, i + 1));
  }

  lemma LeaveRow(xs: seq<Implicant>, pairs: seq<(int, int)>, i: nat, first: int)
    requires SortedByOnes(xs) && Below(xs, i) <= first < Below(xs, i + 1)
    requires PairsUpTo(xs, pairs, first, Below(xs, i + 2))
    ensures PairsUpTo(xs, pairs, first + 1, 0)
  {
    InGroup(xs, i, first);
    SortedBelow(xs, i + 2);
    PairsSame(xs, pairs, first, Below(xs, i + 2), first + 1, 0);
  }

  /** The first element of a pair has fewer than n ones. */
  lemma Finish(xs: seq<Implicant>, pairs: seq<(int, int)>, n: nat)
    requires SortedByOnes(xs) && AllValid(xs, n)
    requires PairsUpTo(xs, pairs, Below(xs, n), 0)
    ensures PairsUpTo(xs, pairs, |xs|, 0)
  {
    SortedBelow(xs, n);
    forall f, s | Pair(xs, f, s) ensures f < Below(xs, n) {
      OnesBound(xs[s], n);
    }
    PairsSame(xs, pairs, Below(xs, n), 0, |xs|, 0);
  }

  /** Once every pair is listed, the combinations are those of all pairs. */
  lemma NextMeaning(xs: seq<Implicant>, pairs: seq<(int, int)>)
    requires PairsUpTo(xs, pairs, |xs|, 0)
    ensures forall y :: y in CombinedAll(xs, pairs) <==>
      exists f, s :: Pair(xs, f, s) && y == Combined(xs[f], xs[s])
  {
    CombinedAllMembers(xs, pairs);
    forall f, s | Pair(xs, f, s) ensures Combined(xs[f], xs[s]) in CombinedAll(xs, pairs) {
      assert Visited(f, s, |xs|, 0);
      var i :| 0 <= i < |pairs| && pairs[i] == (f, s);
    }
    forall y | y in CombinedAll(xs, pairs) ensures exists f, s :: Pair(xs, f, s) && y == Combined(xs[f], xs[s]) {
      var i :| 0 <= i < |pairs| && Pair(xs, pairs[i].0, pairs[i].1) && y == Combined(xs[pairs[i].0], xs[pairs[i].1]);
    }
  }

  /** A marked implicant has a complementary partner. */
  lemma MarkedHasPartner(xs: seq<Implicant>, pairs: seq<(int, int)>, n: nat, k: int)
    requires AllValid(xs, n) && PairsUpTo(xs, pairs, |xs|, 0) && 0 <= k < |xs|
    requires exists i :: 0 <= i < |pairs| && (pairs[i].0 == k || pairs[i].1 == k)
    ensures exists j :: 0 <= j < |xs| && IsComplementary(xs[k], xs[j])
  {
    var i :| 0 <= i < |pairs| && (pairs[i].0 == k || pairs[i].1 == k);
    var f, s := pairs[i].0, pairs[i].1;
    assert Pair(xs, f, s);
    ComplementarySymmetric(xs[f], xs[s]);
    if k == f {
      assert IsComplementary(xs[k], xs[s]);
    } else {
      assert IsComplementary(xs[k], xs[f]);
    }
  }

  /** An implicant with a complementary partner is in a listed pair. */
  lemma PartnerIsMarked(xs: seq<Implicant>, pairs: seq<(int, int)>, n: nat, k: int, j: int)
    requires AllValid(xs, n) && PairsUpTo(xs, pairs, |xs|, 0)
    requires 0 <= k < |xs| && 0 <= j < |xs| && IsComplementary(xs[k], xs[j])
    ensures exists i :: 0 <= i < |pairs| && (pairs[i].0 == k || pairs[i].1 == k)
  {
    ComplementaryCounts(xs[k], xs[j], n);
    ComplementarySymmetric(xs[k], xs[j]);
    var f := if CountOnes(xs[j]) == CountOnes(xs[k]) + 1 then k else j;
    var s := if f == k then j else k;
    assert Pair(xs, f, s) && Visited(f, s, |xs|, 0);
    var i :| 0 <= i < |pairs| && pairs[i] == (f, s);
  }

  /** Once every pair is listed, the marks are set exactly on the members of
      start that have a complementary partner in start. */
  lemma ExcludedMeaning(xs: seq<Implicant>, pairs: seq<(int, int)>, n: nat)
    requires AllValid(xs, n) && PairsUpTo(xs, pairs, |xs|, 0)
    ensures forall k :: 0 <= k < |xs| ==>
      (Marks(pairs, |xs|)[k] <==> exists j :: 0 <= j < |xs| && IsComplementary(xs[k], xs[j]))
  {
    MarksMeaning(pairs, |xs|);
    forall k | 0 <= k < |xs|
      ensures Marks(pairs, |xs|)[k] <==> exists j :: 0 <= j < |xs| && IsComplementary(xs[k], xs[j])
    {
      if Marks(pairs, |xs|)[k] {
        MarkedHasPartner(xs, pairs, n, k);
      }
      if exists j :: 0 <= j < |xs| && IsComplementary(xs[k], xs[j]) {
        var j :| 0 <= j < |xs| && IsComplementary(xs[k], xs[j]);
        PartnerIsMarked(xs, pairs, n, k, j);
      }
    }
  }

  /** What the innermost loop needs to know about start[first] and the
      group after it. */
  lemma RowFacts(xs: seq<Implicant>, n: nat, i: nat, first: int)
    requires AllValid(xs, n) && SortedByOnes(xs) && Below(xs, i) <= first < Below(xs, i + 1)
    ensures 0 <= first < |xs| && CountOnes(xs[first]) == i && |xs[first].state| == n
    ensures 0 <= Below(xs, i + 1) <= Below(xs, i + 2) <= |xs|
    ensures forall k :: Below(xs, i + 1) <= k < Below(xs, i + 2) ==> CountOnes(xs[k]) == i + 1 && |xs[k].state| == n
  {
    InGroup(xs, i, first);
    BelowStep(xs, i + 1);
    SortedBelow(xs, i + 2);
    forall k | Below(xs, i + 1) <= k < Below(xs, i + 2) ensures CountOnes(xs[k]) == i + 1 {
      InGroup(xs, i + 1, k);
    }
  }

  /** The innermost loop: start[first], with i ones, against every member
      start[s2], ..., start[e2] of the group with i + 1 ones. */
  method CombineWithGroup(start: seq<Implicant>, n: nat, i: nat, first: int, s2: int, e2: int,
                          next: seq<Implicant>, excluded: seq<bool>, ghost pairs: seq<(int, int)>)
    returns (next': seq<Implicant>, excluded': seq<bool>, ghost pairs': seq<(int, int)>)
    requires 0 <= first < |start| && CountOnes(start[first]) == i && |start[first].state| == n
    requires 0 <= s2 <= e2 + 1 <= |start|
    requires forall k :: s2 <= k <= e2 ==> CountOnes(start[k]) == i + 1 && |start[k].state| == n
    requires PairsUpTo(start, pairs, first, s2)
    requires next == CombinedAll(start, pairs) && excluded == Marks(pairs, |start|)
    ensures PairsUpTo(start, pairs', first, e2 + 1)
    ensures next' == CombinedAll(start, pairs') && excluded' == Marks(pairs', |start|)
  {
    next', excluded', pairs' := next, excluded, pairs;
    for second := s2 to e2 + 1
      invariant PairsUpTo(start, pairs', first, second)
      invariant next' == CombinedAll(start, pairs') && excluded' == Marks(pairs', |start|)
    {
      if IsComplementary(start[first], start[second]) {
        var c := Combine(start[first], start[second]);
        PairsAdd(start, pairs', first, second);
        next' := next' + [c];
        excluded' := excluded'[first := true][second := true];
        pairs' := pairs' + [(first, second)];
      } else {
        PairsSkip(start, pairs', first, second);
      }
    }
  }

  /** The loop over the members start[s1], ..., start[e1] of group i, each
      against every member of group i + 1. */
  method CombineGroup(start: seq<Implicant>, n: nat, i: nat, s1: int, e1: int, s2: int, e2: int,
                      next: seq<Implicant>, excluded: seq<bool>, ghost pairs: seq<(int, int)>)
    returns (next': seq<Implicant>, excluded': seq<bool>, ghost pairs': seq<(int, int)>)
    requires AllValid(start, n) && SortedByOnes(start)
    requires s1 == Below(start, i) && e1 + 1 == s2 == Below(start, i + 1) && e2 + 1 == Below(start, i + 2)
    requires PairsUpTo(start, pairs, s1, 0)
    requires next == CombinedAll(start, pairs) && excluded == Marks(pairs, |start|)
    ensures PairsUpTo(start, pairs', s2, 0)
    ensures next' == CombinedAll(start, pairs') && excluded' == Marks(pairs', |start|)
  {
    next', excluded', pairs' := next, excluded, pairs;
    BelowStep(start, i);
    for first := s1 to e1 + 1
      invariant PairsUpTo(start, pairs', first, 0)
      invariant next' == CombinedAll(start, pairs') && excluded' == Marks(pairs', |start|)
    {
      EnterRow(start, pairs', i, first);
      RowFacts(start, n, i, first);
      next', excluded', pairs' := CombineWithGroup(start, n, i, first, s2, e2, next', excluded', pairs');
      LeaveRow(start, pairs', i, first);
    }
  }

  /** The loops over neighbouring groups of getPrimeImplicants: next holds
      the combination of every complementary pair of neighbouring groups,
      and excluded marks every implicant that has a complementary partner. */
  method CombineAdjacentGroups(start: seq<Implicant>, n: nat, count: seq<int>)
    returns (next: seq<Implicant>, excluded: seq<bool>)
    requires AllValid(start, n) && SortedByOnes(start)
    requires |count| == n + 2 && forall v :: 0 <= v <= n + 1 ==> count[v] == Below(start, v)
    ensures |excluded| == |start|
    ensures forall y :: y in next <==>
      exists f, s :: Pair(start, f, s) && y == Combined(start[f], start[s])
    ensures forall k :: 0 <= k < |start| ==>
      (excluded[k] <==> exists j :: 0 <= j < |start| && IsComplementary(start[k], start[j]))
  {
    excluded := seq(|start|, _ => false);
    next := [];
    ghost var pairs: seq<(int, int)> := [];
    BelowStep(start, 0);
    for i := 0 to n
      invariant PairsUpTo(start, pairs, Below(start, i), 0)
      invariant next == CombinedAll(start, pairs) && excluded == Marks(pairs, |start|)
    {
      var s1 := count[i];
      var e1 := count[i + 1] - 1;
      var s2 := count[i + 1];
      var e2 := count[i + 2] - 1;
      next, excluded, pairs := CombineGroup(start, n, i, s1, e1, s2, e2, next, excluded, pairs);
    }
    Finish(start, pairs, n);
    NextMeaning(start, pairs);
    ExcludedMeaning(start, pairs, n);
  }

  // ---------------------------------------------------------------------
  // Collecting the implicants that were not combined.

  /** The elements of xs whose excluded flag is clear, in order. */
  function Kept(xs: seq<Implicant>, excluded: seq<bool>): seq<Implicant>
    requires |excluded| == |xs|
  {
    if xs == [] then []
    else Kept(xs[..|xs| - 1], excluded[..|xs| - 1]) + (if excluded[|xs| - 1] then [] else [xs[|xs| - 1]])
  }

  lemma {:induction false} KeptMembers(xs: seq<Implicant>, excluded: seq<bool>)
    requires |excluded| == |xs|
    ensures forall x :: x in Kept(xs, excluded) <==> exists k :: 0 <= k < |xs| && !excluded[k] && xs[k] == x
  {
    if xs != [] {
      KeptMembers(xs[..|xs| - 1], excluded[..|xs| - 1]);
    }
  }

  lemma {:induction false} KeptDistinct(xs: seq<Implicant>, excluded: seq<bool>)
    requires |excluded| == |xs| && Distinct(xs)
    ensures Distinct(Kept(xs, excluded))
  {
    if xs != [] {
      var ys, es := xs[..|xs| - 1], excluded[..|xs| - 1];
      KeptDistinct(ys, es);
      KeptMembers(ys, es);
      if !excluded[|xs| - 1] {
        var x := xs[|xs| - 1];
        forall k | 0 <= k < |ys| ensures ys[k] != x {
          assert ys[k] == xs[k];
        }
        DistinctSnoc(Kept(ys, es), x);
      }
    }
  }

  /** The loop that appends to prime every implicant not excluded. */
  method AppendUnexcluded(prime: seq<Implicant>, start: seq<Implicant>, excluded: seq<bool>)
    returns (r: seq<Implicant>)
    requires |excluded| == |start|
    ensures r == prime + Kept(start, excluded)
  {
    r := prime;
    for i := 0 to |excluded|
      invariant r == prime + Kept(start[..i], excluded[..i])
    {
      assert start[..i + 1][..i] == start[..i] && excluded[..i + 1][..i] == excluded[..i];
      if !excluded[i] {
        r := r + [start[i]];
      }
    }
    assert start[..|start|] == start && excluded[..|excluded|] == excluded;
  }

  // ---------------------------------------------------------------------
  // The generation loop.

  /** The members of xs are exactly the implicants with g dashes. */
  ghost predicate IsGeneration(table: seq<bool>, n: nat, g: nat, xs: seq<Implicant>)
  {
    forall x :: x in xs <==> InGeneration(table, n, g, x)
  }

  lemma GenerationValid(table: seq<bool>, n: nat, g: nat, xs: seq<Implicant>)
    requires IsGeneration(table, n, g, xs)
    ensures AllValid(xs, n) && Lengths(xs, n)
    ensures forall k :: 0 <= k < |xs| ==> IsImplicantOf(table, n, xs[k])
  {
    forall k | 0 <= k < |xs| ensures IsImplicantOf(table, n, xs[k]) {
      assert xs[k] in xs;
    }
  }

  /** A nonempty generation g has g <= n. */
  lemma GenerationBound(table: seq<bool>, n: nat, g: nat, xs: seq<Implicant>)
    requires IsGeneration(table, n, g, xs) && |xs| > 0
    ensures g <= n
  {
    assert xs[0] in xs;
  }

  /** getFDNF's result is generation 0. */
  lemma StartIsGenerationZero(table: seq<bool>, n: nat, start: seq<Implicant>)
    requires |table| == Pow2(n)
    requires multiset(start) == multiset(TrueMinterms(table, n, |table|))
    ensures IsGeneration(table, n, 0, start)
  {
    TrueMintermsMembers(table, n, |table|);
    forall x ensures x in start <==> InGeneration(table, n, 0, x) {
      assert x in start <==> x in multiset(TrueMinterms(table, n, |table|));
      assert x in multiset(TrueMinterms(table, n, |table|)) <==> x in TrueMinterms(table, n, |table|);
      GenerationZero(table, n, x);
    }
  }

  /** The combinations of the complementary pairs of neighbouring groups of
      generation g are exactly generation g + 1. */
  lemma NextIsGeneration(table: seq<bool>, n: nat, g: nat, start: seq<Implicant>, next: seq<Implicant>)
    requires IsGeneration(table, n, g, start)
    requires forall y :: y in next <==> exists f, s :: Pair(start, f, s) && y == Combined(start[f], start[s])
    ensures IsGeneration(table, n, g + 1, next)
  {
    forall y ensures y in next <==> InGeneration(table, n, g + 1, y) {
      NextGeneration(table, n, g, y);
      if y in next {
        var f, s :| Pair(start, f, s) && y == Combined(start[f], start[s]);
        assert start[f] in start && start[s] in start;
      }
      if InGeneration(table, n, g + 1, y) {
        var a, b :| InGeneration(table, n, g, a) && InGeneration(table, n, g, b) &&
          IsComplementary(a, b) && CountOnes(b) == CountOnes(a) + 1 && y == Combined(a, b);
        var f :| 0 <= f < |start| && start[f] == a;
        var s :| 0 <= s < |start| && start[s] == b;
        assert Pair(start, f, s);
      }
    }
  }

  /** An implicant of generation g has a complementary implicant exactly when
      it has one in generation g. */
  lemma PartnerInGeneration(table: seq<bool>, n: nat, g: nat, start: seq<Implicant>, x: Implicant)
    requires IsGeneration(table, n, g, start) && AllValid(start, n) && InGeneration(table, n, g, x)
    ensures (exists y :: IsImplicantOf(table, n, y) && IsComplementary(x, y)) <==>
      (exists j :: 0 <= j < |start| && IsComplementary(x, start[j]))
  {
    if exists y :: IsImplicantOf(table, n, y) && IsComplementary(x, y) {
      var y :| IsImplicantOf(table, n, y) && IsComplementary(x, y);
      ComplementaryCounts(x, y, n);
      assert y in start;
      var j :| 0 <= j < |start| && start[j] == y;
    }
    if exists j :: 0 <= j < |start| && IsComplementary(x, start[j]) {
      var j :| 0 <= j < |start| && IsComplementary(x, start[j]);
      assert start[j] in start;
    }
  }

  /** The members of generation g that are left unmarked are exactly the prime
      implicants with g dashes. */
  lemma KeptArePrime(table: seq<bool>, n: nat, g: nat, start: seq<Implicant>, excluded: seq<bool>)
    requires IsGeneration(table, n, g, start) && AllValid(start, n) && |excluded| == |start|
    requires forall k :: 0 <= k < |start| ==>
      (excluded[k] <==> exists j :: 0 <= j < |start| && IsComplementary(start[k], start[j]))
    ensures forall x :: x in Kept(start, excluded) <==> IsPrime(table, n, x) && Dashes(x) == g
  {
    KeptMembers(start, excluded);
    forall x ensures x in Kept(start, excluded) <==> IsPrime(table, n, x) && Dashes(x) == g {
      if x in start {
        var k :| 0 <= k < |start| && start[k] == x;
        PartnerInGeneration(table, n, g, start, x);
        PrimeIffUnpaired(table, n, x);
        assert x in Kept(start, excluded) <==> !excluded[k];
      }
    }
  }

  lemma DistinctConcat(a: seq<Implicant>, b: seq<Implicant>)
    requires Distinct(a) && Distinct(b) && forall x :: x in a ==> x !in b
    ensures Distinct(a + b)
  {
    forall i, j | 0 <= i < j < |a + b| ensures (a + b)[i] != (a + b)[j] {
      if i < |a| && j >= |a| {
        assert a[i] in a && b[j - |a|] in b;
      }
    }
  }

  /** Appending the primes with g dashes to the primes with fewer. */
  lemma AddGeneration(table: seq<bool>, n: nat, g: nat, prime: seq<Implicant>, kept: seq<Implicant>)
    requires Distinct(prime) && forall x :: x in prime <==> IsPrime(table, n, x) && Dashes(x) < g
    requires Distinct(kept) && forall x :: x in kept <==> IsPrime(table, n, x) && Dashes(x) == g
    ensures Distinct(prime + kept)
    ensures forall x :: x in prime + kept <==> IsPrime(table, n, x) && Dashes(x) < g + 1
  {
    DistinctConcat(prime, kept);
  }

  /** Once generation g + 1 is empty, no prime has g + 1 dashes or more. */
  lemma AllPrimesFound(table: seq<bool>, n: nat, g: nat, prime: seq<Implicant>)
    requires IsGeneration(table, n, g + 1, [])
    requires forall x :: x in prime <==> IsPrime(table, n, x) && Dashes(x) < g + 1
    ensures forall x :: x in prime <==> IsPrime(table, n, x)
  {
    forall x | IsPrime(table, n, x) ensures Dashes(x) < g + 1 {
      EmptyGenerationEndsPrimes(table, n, g + 1, x);
    }
  }

  /** What the list of all prime implicants guarantees: it covers every true
      row, no two of its members combine, and it is empty for a table with no
      true row. */
  lemma PrimeListFacts(table: seq<bool>, n: nat, prime: seq<Implicant>)
    requires |table| == Pow2(n)
    requires forall x :: x in prime <==> IsPrime(table, n, x)
    ensures AllValid(prime, n)
    ensures forall s :: 0 <= s < |table| && table[s] ==> exists p :: p in prime && Covers(p, Minterm(s, n))
    ensures forall i, j :: 0 <= i < |prime| && 0 <= j < |prime| ==> !IsComplementary(prime[i], prime[j])
    ensures (forall s :: 0 <= s < |table| ==> !table[s]) ==> prime == []
  {
    forall k | 0 <= k < |prime| ensures Valid(prime[k], n) {
      assert prime[k] in prime;
    }
    forall s | 0 <= s < |table| && table[s] ensures exists p :: p in prime && Covers(p, Minterm(s, n)) {
      PrimesCoverTrueRows(table, n, s);
    }
    forall i, j | 0 <= i < |prime| && 0 <= j < |prime| ensures !IsComplementary(prime[i], prime[j]) {
      assert prime[i] in prime && prime[j] in prime;
      PrimesNotComplementary(table, n, prime[i], prime[j]);
    }
    if (forall s :: 0 <= s < |table| ==> !table[s]) && prime != [] {
      assert prime[0] in prime;
      AllFalseNoImplicant(table, n, prime[0]);
    }
  }

  /** The swap, sort, unique, erase and sort that turn next into the start of
      the following generation. */
  method NextStart(next: seq<Implicant>, n: nat) returns (start: seq<Implicant>)
    requires Lengths(next, n)
    ensures SortedByOnes(start) && Distinct(start)
    ensures forall x :: x in start <==> x in next
  {
    var sorted := SortLex(next, n);
    var unique := Unique(sorted, n);
    StrictlySortedDistinct(unique, n);
    start := SortByOnes(unique);
    forall x ensures x in start <==> x in next {
      assert x in start <==> x in multiset(unique);
      assert x in sorted <==> x in multiset(next);
    }
  }

  /** getPrimeImplicants: every prime implicant of the table, each once. */
  method GetPrimeImplicants(t: TruthTables.TruthTable) returns (prime: seq<Implicant>)
    requires |t.vars| <= 30 && |t.table| == Pow2(|t.vars|)
    ensures forall x :: x in prime <==> IsPrime(t.table, |t.vars|, x)
    ensures Distinct(prime) && AllValid(prime, |t.vars|)
    ensures forall s :: 0 <= s < |t.table| && t.table[s] ==>
      exists p :: p in prime && Covers(p, Minterm(s, |t.vars|))
    ensures forall i, j :: 0 <= i < |prime| && 0 <= j < |prime| ==> !IsComplementary(prime[i], prime[j])
    ensures (forall s :: 0 <= s < |t.table| ==> !t.table[s]) ==> prime == []
  {
    ghost var table := t.table;
    var n := |t.vars|;
    Pow2Monotone(n, 30);
    Pow2Of30();
    var start := GetFDNF(t);
    StartIsGenerationZero(table, n, start);
    prime := [];
    ghost var g: nat := 0;
    while true
      invariant g <= n
      invariant IsGeneration(table, n, g, start) && SortedByOnes(start) && Distinct(start)
      invariant Distinct(prime) && forall x :: x in prime <==> IsPrime(table, n, x) && Dashes(x) < g
      decreases n - g
    {
      GenerationValid(table, n, g, start);
      var count := GroupBounds(start, n);
      var next, excluded := CombineAdjacentGroups(start, n, count);
      KeptArePrime(table, n, g, start, excluded);
      KeptDistinct(start, excluded);
      AddGeneration(table, n, g, prime, Kept(start, excluded));
      prime := AppendUnexcluded(prime, start, excluded);
      NextIsGeneration(table, n, g, start, next);
      if |next| == 0 {
        AllPrimesFound(table, n, g, prime);
        break;
      }
      GenerationBound(table, n, g + 1, next);
      GenerationValid(table, n, g + 1, next);
      start := NextStart(next, n);
      g := g + 1;
    }
    PrimeListFacts(table, n, prime);
  }
}
