/** Implicant: a product term over n variables, written as a vector whose
    entry i is 0 (variable i negated), 1 (variable i itself) or 2 (a dash:
    variable i does not occur). */
module Implicants {
  import opened Bits

  datatype Implicant = Implicant(state: seq<int>)

  /** An implicant over n variables: n entries, each 0, 1 or 2. */
  predicate Valid(x: Implicant, n: nat)
  {
    |x.state| == n && forall i :: 0 <= i < |x.state| ==> 0 <= x.state[i] <= 2
  }

  /** A minterm: n entries, each 0 or 1. */
  predicate IsMinterm(x: Implicant, n: nat)
  {
    |x.state| == n && forall i :: 0 <= i < |x.state| ==> x.state[i] == 0 || x.state[i] == 1
  }

  /** std::count over the entries. */
  function Count(s: seq<int>, v: int): (r: nat)
    ensures r <= |s|
  {
    if s == [] then 0 else (if s[0] == v then 1 else 0) + Count(s[1..], v)
  }

  /** countOnes. */
  function CountOnes(x: Implicant): nat
  {
    Count(x.state, 1)
  }

  /** The number of dashes: the generation an implicant belongs to. */
  function Dashes(x: Implicant): nat
  {
    Count(x.state, 2)
  }

  /** x with entry j set to v. */
  function With(x: Implicant, j: nat, v: int): Implicant
    requires j < |x.state|
  {
    Implicant(x.state[j := v])
  }

  lemma {:induction false} CountPositive(s: seq<int>, v: int)
    ensures Count(s, v) > 0 <==> v in s
  {
    if s != [] {
      CountPositive(s[1..], v);
      assert s == [s[0]] + s[1..];
    }
  }

  /** Changing one entry changes each count by at most the entries involved. */
  lemma {:induction false} CountUpdate(s: seq<int>, j: nat, w: int, v: int)
    requires j < |s|
    ensures Count(s[j := w], v) + (if s[j] == v then 1 else 0) == Count(s, v) + (if w == v then 1 else 0)
  {
    if j == 0 {
      assert s[j := w][1..] == s[1..];
    } else {
      assert s[j := w][1..] == s[1..][j - 1 := w];
      CountUpdate(s[1..], j - 1, w, v);
    }
  }

  // Implicant(s, n): the minterm whose entry i is bit i of s.

  function Minterm(s: nat, n: nat): Implicant
  {
    Implicant(seq(n, i requires 0 <= i => Bit(s, i)))
  }

  /** The constructor Implicant(s, n), whose loop sets entry i to whether
      bit i of s is set. */
  method FromMinterm(s: nat, n: nat) returns (x: Implicant)
    requires n <= 31
    ensures x == Minterm(s, n)
  {
    var state := seq(n, _ => 0);
    for i := 0 to n
      invariant |state| == n
      invariant forall k :: 0 <= k < i ==> state[k] == Bit(s, k)
    {
      state := state[i := if Bit(s, i) != 0 then 1 else 0];
    }
    assert state == Minterm(s, n).state;
    x := Implicant(state);
  }

  lemma MintermShape(s: nat, n: nat)
    ensures IsMinterm(Minterm(s, n), n) && Valid(Minterm(s, n), n)
    ensures Dashes(Minterm(s, n)) == 0
    ensures forall i :: 0 <= i < n ==> Minterm(s, n).state[i] == Bit(s, i)
  {
    CountPositive(Minterm(s, n).state, 2);
  }

  /** Different row indices below 2^n give different minterms. */
  lemma MintermInjective(s: nat, t: nat, n: nat)
    requires s < Pow2(n) && t < Pow2(n) && Minterm(s, n) == Minterm(t, n)
    ensures s == t
  {
    forall i | 0 <= i < n ensures Bit(s, i) == Bit(t, i) {
      assert Minterm(s, n).state[i] == Minterm(t, n).state[i];
    }
    BitsDetermine(s, t, n);
  }

  /** The row index of a minterm: entry i is bit i. */
  function Index(s: seq<int>): int
  {
    if s == [] then 0 else s[0] + 2 * Index(s[1..])
  }

  lemma {:induction false} IndexBits(s: seq<int>)
    requires forall i :: 0 <= i < |s| ==> s[i] == 0 || s[i] == 1
    ensures 0 <= Index(s) < Pow2(|s|)
    ensures forall i :: 0 <= i < |s| ==> Bit(Index(s), i) == s[i]
  {
    if s != [] {
      IndexBits(s[1..]);
      var r := Index(s[1..]);
      forall i | 0 <= i < |s| ensures Bit(Index(s), i) == s[i] {
        if i > 0 {
          assert Index(s) / 2 == r;
          assert s[1..][i - 1] == s[i];
        }
      }
    }
  }

  /** Every minterm is Implicant(s, n) for the row s its bits spell. */
  lemma MintermIndex(x: Implicant, n: nat)
    requires IsMinterm(x, n)
    ensures 0 <= Index(x.state) < Pow2(n) && Minterm(Index(x.state), n) == x
  {
    IndexBits(x.state);
    assert Minterm(Index(x.state), n).state == x.state;
  }

  // covers

  /** Implicant::covers: every entry of x that is not a dash agrees with o. */
  function Covers(x: Implicant, o: Implicant): (r: bool)
    requires |x.state| <= |o.state|
    ensures r <==> forall i :: 0 <= i < |x.state| ==> x.state[i] == 2 || x.state[i] == o.state[i]
  {
    CoversFrom(x, o, 0)
  }

  /** The loop of covers from position i on. */
  function CoversFrom(x: Implicant, o: Implicant, i: nat): (r: bool)
    requires |x.state| <= |o.state| && i <= |x.state|
    ensures r <==> forall k :: i <= k < |x.state| ==> x.state[k] == 2 || x.state[k] == o.state[k]
    decreases |x.state| - i
  {
    if i == |x.state| then true
    else if x.state[i] != 2 && x.state[i] != o.state[i] then false
    else CoversFrom(x, o, i + 1)
  }

  lemma CoversReflexive(x: Implicant)
    ensures Covers(x, x)
  {
  }

  lemma CoversTransitive(x: Implicant, y: Implicant, z: Implicant)
    requires |x.state| == |y.state| == |z.state| && Covers(x, y) && Covers(y, z)
    ensures Covers(x, z)
  {
    forall i | 0 <= i < |x.state| ensures x.state[i] == 2 || x.state[i] == z.state[i] {
      assert x.state[i] == 2 || x.state[i] == y.state[i];
      assert y.state[i] == 2 || y.state[i] == z.state[i];
    }
  }

  /** The implicant of dashes only covers everything. */
  lemma CoversAllDashes(x: Implicant, o: Implicant)
    requires |x.state| <= |o.state| && forall i :: 0 <= i < |x.state| ==> x.state[i] == 2
    ensures Covers(x, o)
  {
  }

  // isComplementary

  /** The loop of isComplementary from position i on; k counts the 0/1
      mismatches before i. */
  function ComplementaryFrom(x: Implicant, o: Implicant, i: nat, k: nat): bool
    requires |x.state| <= |o.state| && i <= |x.state|
    decreases |x.state| - i
  {
    if i == |x.state| then k == 1
    else if x.state[i] + o.state[i] == 1 then ComplementaryFrom(x, o, i + 1, k + 1)
    else if x.state[i] != o.state[i] then false
    else ComplementaryFrom(x, o, i + 1, k)
  }

  /** Implicant::isComplementary. */
  function IsComplementary(x: Implicant, o: Implicant): bool
    requires |x.state| <= |o.state|
  {
    ComplementaryFrom(x, o, 0, 0)
  }

  /** From position i on, x and o agree everywhere. */
  predicate SameFrom(x: Implicant, o: Implicant, i: nat)
    requires |x.state| <= |o.state|
  {
    forall p :: i <= p < |x.state| ==> x.state[p] == o.state[p]
  }

  /** From position i on, x and o differ exactly at j, where the entries add
      up to 1. */
  predicate OnlyFrom(x: Implicant, o: Implicant, i: nat, j: int)
    requires |x.state| <= |o.state|
  {
    i <= j < |x.state| && x.state[j] + o.state[j] == 1 &&
    forall p :: i <= p < |x.state| && p != j ==> x.state[p] == o.state[p]
  }

  /** x and o differ at position j, one of them being 0 there and the other
      1, and agree everywhere else. */
  predicate DiffersOnlyAt(x: Implicant, o: Implicant, j: int)
    requires |x.state| <= |o.state|
  {
    OnlyFrom(x, o, 0, j)
  }

  lemma {:induction false} ComplementaryFromIff(x: Implicant, o: Implicant, i: nat)
    requires |x.state| <= |o.state| && i <= |x.state|
    ensures ComplementaryFrom(x, o, i, 1) <==> SameFrom(x, o, i)
    ensures ComplementaryFrom(x, o, i, 0) <==> exists j :: OnlyFrom(x, o, i, j)
    ensures forall k: nat :: k >= 2 ==> !ComplementaryFrom(x, o, i, k)
    decreases |x.state| - i
  {
    if i < |x.state| {
      var i1 := i + 1;
      ComplementaryFromIff(x, o, i1);
      if x.state[i] + o.state[i] == 1 {
        assert !SameFrom(x, o, i) by { assert x.state[i] != o.state[i]; }
        if SameFrom(x, o, i1) {
          assert OnlyFrom(x, o, i, i);
        }
        if exists j :: OnlyFrom(x, o, i, j) {
          var j :| OnlyFrom(x, o, i, j);
          assert SameFrom(x, o, i1);
        }
      } else if x.state[i] == o.state[i] {
        if exists j :: OnlyFrom(x, o, i, j) {
          var j :| OnlyFrom(x, o, i, j);
          assert OnlyFrom(x, o, i1, j);
        }
        if exists j :: OnlyFrom(x, o, i1, j) {
          var j :| OnlyFrom(x, o, i1, j);
          assert OnlyFrom(x, o, i, j);
        }
      }
    }
  }

  /** isComplementary holds exactly when the implicants differ at one
      position, as 0 against 1, and agree, dashes included, everywhere else. */
  lemma ComplementaryIff(x: Implicant, o: Implicant)
    requires |x.state| <= |o.state|
    ensures IsComplementary(x, o) <==> exists j :: DiffersOnlyAt(x, o, j)
  {
    ComplementaryFromIff(x, o, 0);
    if IsComplementary(x, o) {
      var j :| OnlyFrom(x, o, 0, j);
      assert DiffersOnlyAt(x, o, j);
    }
  }

  lemma DiffersOnlyAtUnique(x: Implicant, o: Implicant, j: int, j': int)
    requires |x.state| <= |o.state| && DiffersOnlyAt(x, o, j) && DiffersOnlyAt(x, o, j')
    ensures j == j'
  {
  }

  lemma ComplementarySymmetric(x: Implicant, o: Implicant)
    requires |x.state| == |o.state|
    ensures IsComplementary(x, o) <==> IsComplementary(o, x)
  {
    ComplementaryIff(x, o);
    ComplementaryIff(o, x);
    if IsComplementary(x, o) {
      var j :| DiffersOnlyAt(x, o, j);
      assert DiffersOnlyAt(o, x, j);
    }
    if IsComplementary(o, x) {
      var j :| DiffersOnlyAt(o, x, j);
      assert DiffersOnlyAt(x, o, j);
    }
  }

  lemma ComplementaryIrreflexive(x: Implicant)
    ensures !IsComplementary(x, x)
  {
    ComplementaryIff(x, x);
  }

  /** The other side of a complementary pair is x with the one entry flipped. */
  lemma ComplementaryFlip(x: Implicant, o: Implicant, j: int)
    requires |x.state| == |o.state| && DiffersOnlyAt(x, o, j)
    ensures o == With(x, j, 1 - x.state[j]) && x == With(o, j, 1 - o.state[j])
  {
    assert o.state == x.state[j := 1 - x.state[j]];
    assert x.state == o.state[j := 1 - o.state[j]];
  }

  /** Complementary implicants lie in neighbouring countOnes groups and have
      the same dashes. */
  lemma ComplementaryCounts(x: Implicant, o: Implicant, n: nat)
    requires Valid(x, n) && Valid(o, n) && IsComplementary(x, o)
    ensures CountOnes(o) == CountOnes(x) + 1 || CountOnes(x) == CountOnes(o) + 1
    ensures Dashes(o) == Dashes(x)
  {
    ComplementaryIff(x, o);
    var j :| DiffersOnlyAt(x, o, j);
    ComplementaryFlip(x, o, j);
    CountUpdate(x.state, j, o.state[j], 1);
    CountUpdate(x.state, j, o.state[j], 2);
  }

  // combine

  /** The implicant combine returns: a copy of a with a dash wherever a and
      o have 0 and 1. */
  function Combined(a: Implicant, o: Implicant): Implicant
    requires |a.state| <= |o.state|
  {
    Implicant(seq(|a.state|, i requires 0 <= i < |a.state| =>
      if a.state[i] + o.state[i] == 1 then 2 else a.state[i]))
  }

  /** Implicant::combine, which copies a and writes the dashes in a loop. */
  method Combine(a: Implicant, o: Implicant) returns (r: Implicant)
    requires |a.state| <= |o.state|
    ensures r == Combined(a, o)
  {
    var state := a.state;
    for i := 0 to |a.state|
      invariant |state| == |a.state|
      invariant forall k :: 0 <= k < i ==> state[k] == Combined(a, o).state[k]
      invariant forall k :: i <= k < |a.state| ==> state[k] == a.state[k]
    {
      if a.state[i] + o.state[i] == 1 {
        state := state[i := 2];
      }
    }
    assert state == Combined(a, o).state;
    r := Implicant(state);
  }

  /** Combining a complementary pair puts a dash at the mismatch and keeps
      every other entry of both. */
  lemma CombinedIsDash(a: Implicant, o: Implicant, j: int)
    requires |a.state| == |o.state| && DiffersOnlyAt(a, o, j)
    ensures Combined(a, o) == With(a, j, 2) && Combined(a, o) == With(o, j, 2)
  {
    assert Combined(a, o).state == a.state[j := 2];
    assert Combined(a, o).state == o.state[j := 2];
  }

  /** The combination of a complementary pair covers both, is complementary
      to neither, and has one dash more. */
  lemma CombinedProperties(a: Implicant, o: Implicant, n: nat)
    requires Valid(a, n) && Valid(o, n) && IsComplementary(a, o)
    ensures Valid(Combined(a, o), n)
    ensures Covers(Combined(a, o), a) && Covers(Combined(a, o), o)
    ensures !IsComplementary(Combined(a, o), a) && !IsComplementary(Combined(a, o), o)
    ensures Dashes(Combined(a, o)) == Dashes(a) + 1
  {
    ComplementaryIff(a, o);
    var j :| DiffersOnlyAt(a, o, j);
    CombinedIsDash(a, o, j);
    var c := Combined(a, o);
    CountUpdate(a.state, j, 2, 2);
    NotComplementaryAfterDash(a, j);
    NotComplementaryAfterDash(o, j);
  }

  lemma NotComplementaryAfterDash(a: Implicant, j: int)
    requires 0 <= j < |a.state| && 0 <= a.state[j] <= 1
    ensures !IsComplementary(With(a, j, 2), a)
  {
    ComplementaryIff(With(a, j, 2), a);
  }

  /** The combination covers a minterm exactly when one of the pair does:
      it covers the union of what they cover. */
  lemma CombinedCovers(a: Implicant, o: Implicant, m: Implicant, n: nat)
    requires Valid(a, n) && Valid(o, n) && IsComplementary(a, o) && IsMinterm(m, n)
    ensures Covers(Combined(a, o), m) <==> Covers(a, m) || Covers(o, m)
  {
    ComplementaryIff(a, o);
    var j :| DiffersOnlyAt(a, o, j);
    CombinedIsDash(a, o, j);
    if Covers(Combined(a, o), m) {
      if m.state[j] == a.state[j] {
        assert Covers(a, m);
      } else {
        assert Covers(o, m);
      }
    }
  }

  // operator< and operator==

  /** The loop of operator< from position i on. */
  function LessFrom(a: Implicant, b: Implicant, i: nat): bool
    requires |a.state| <= |b.state| && i <= |a.state|
    decreases |a.state| - i
  {
    if i == |a.state| then false
    else if a.state[i] < b.state[i] then true
    else if a.state[i] > b.state[i] then false
    else LessFrom(a, b, i + 1)
  }

  /** Implicant::operator<. */
  function Less(a: Implicant, b: Implicant): bool
    requires |a.state| <= |b.state|
  {
    LessFrom(a, b, 0)
  }

  /** Implicant::operator==. */
  function Equal(a: Implicant, b: Implicant): bool
    requires |a.state| == |b.state|
  {
    !Less(a, b) && !Less(b, a)
  }

  /** a and b agree before j and a is smaller at j. */
  predicate LessAt(a: Implicant, b: Implicant, i: nat, j: int)
    requires |a.state| <= |b.state|
  {
    i <= j < |a.state| && a.state[j] < b.state[j] &&
    forall p :: i <= p < j ==> a.state[p] == b.state[p]
  }

  lemma {:induction false} LessFromIff(a: Implicant, b: Implicant, i: nat)
    requires |a.state| <= |b.state| && i <= |a.state|
    ensures LessFrom(a, b, i) <==> exists j :: LessAt(a, b, i, j)
    decreases |a.state| - i
  {
    if i < |a.state| {
      var i1 := i + 1;
      LessFromIff(a, b, i1);
      if a.state[i] < b.state[i] {
        assert LessAt(a, b, i, i);
      } else if a.state[i] == b.state[i] {
        if exists j :: LessAt(a, b, i, j) {
          var j :| LessAt(a, b, i, j);
          assert LessAt(a, b, i1, j);
        }
        if exists j :: LessAt(a, b, i1, j) {
          var j :| LessAt(a, b, i1, j);
          assert LessAt(a, b, i, j);
        }
      }
    }
  }

  /** operator< is the strict lexicographic order on the states. */
  lemma LessIff(a: Implicant, b: Implicant)
    requires |a.state| <= |b.state|
    ensures Less(a, b) <==> exists j :: LessAt(a, b, 0, j)
  {
    LessFromIff(a, b, 0);
  }

  lemma {:induction false} LessFromIrreflexive(a: Implicant, i: nat)
    requires i <= |a.state|
    ensures !LessFrom(a, a, i)
    decreases |a.state| - i
  {
    if i < |a.state| {
      LessFromIrreflexive(a, i + 1);
    }
  }

  lemma LessIrreflexive(a: Implicant)
    ensures !Less(a, a)
  {
    LessFromIrreflexive(a, 0);
  }

  lemma {:induction false} LessFromTransitive(a: Implicant, b: Implicant, c: Implicant, i: nat)
    requires |a.state| == |b.state| == |c.state| && i <= |a.state|
    requires LessFrom(a, b, i) && LessFrom(b, c, i)
    ensures LessFrom(a, c, i)
    decreases |a.state| - i
  {
    if a.state[i] == b.state[i] && b.state[i] == c.state[i] {
      LessFromTransitive(a, b, c, i + 1);
    }
  }

  lemma LessTransitive(a: Implicant, b: Implicant, c: Implicant)
    requires |a.state| == |b.state| == |c.state| && Less(a, b) && Less(b, c)
    ensures Less(a, c)
  {
    LessFromTransitive(a, b, c, 0);
  }

  lemma {:induction false} LessFromTotal(a: Implicant, b: Implicant, i: nat)
    requires |a.state| == |b.state| && i <= |a.state|
    requires exists k :: i <= k < |a.state| && a.state[k] != b.state[k]
    ensures LessFrom(a, b, i) || LessFrom(b, a, i)
    decreases |a.state| - i
  {
    if a.state[i] == b.state[i] {
      var k :| i <= k < |a.state| && a.state[k] != b.state[k];
      LessFromTotal(a, b, i + 1);
    }
  }

  lemma LessTotal(a: Implicant, b: Implicant)
    requires |a.state| == |b.state| && a != b
    ensures Less(a, b) || Less(b, a)
  {
    assert a.state != b.state;
    var k :| 0 <= k < |a.state| && a.state[k] != b.state[k];
    LessFromTotal(a, b, 0);
  }

  /** operator== holds exactly when the states are equal. */
  lemma EqualIff(a: Implicant, b: Implicant)
    requires |a.state| == |b.state|
    ensures Equal(a, b) <==> a == b
  {
    LessIrreflexive(a);
    if a != b {
      LessTotal(a, b);
    }
  }
}
