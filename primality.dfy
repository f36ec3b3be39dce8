/** The facts about implicants of a truth table on which the generation loop
    of getPrimeImplicants rests. A table over n variables has 2^n rows, row
    s being the minterm Implicant(s, n). */
module Primality {
  import opened Bits
  import opened Implicants

  /** x is an implicant of the table: every row it covers is true. */
  predicate IsImplicantOf(table: seq<bool>, n: nat, x: Implicant)
  {
    Valid(x, n) && forall s :: 0 <= s < |table| && Covers(x, Minterm(s, n)) ==> table[s]
  }

  /** x is a prime implicant: no literal can be dropped from it and leave an
      implicant. */
  predicate IsPrime(table: seq<bool>, n: nat, x: Implicant)
  {
    IsImplicantOf(table, n, x) &&
    forall j :: 0 <= j < n && x.state[j] != 2 ==> !IsImplicantOf(table, n, With(x, j, 2))
  }

  /** The implicants with g dashes: generation g of the loop. */
  predicate InGeneration(table: seq<bool>, n: nat, g: nat, x: Implicant)
  {
    IsImplicantOf(table, n, x) && Dashes(x) == g
  }

  /** The minterm of a true row is an implicant. */
  lemma MintermImplicant(table: seq<bool>, n: nat, s: nat)
    requires |table| == Pow2(n) && s < |table| && table[s]
    ensures InGeneration(table, n, 0, Minterm(s, n))
  {
    MintermShape(s, n);
    forall t | 0 <= t < |table| && Covers(Minterm(s, n), Minterm(t, n)) ensures table[t] {
      MintermShape(t, n);
      assert Minterm(s, n).state == Minterm(t, n).state;
      MintermInjective(s, t, n);
    }
  }

  /** Generation 0 holds exactly the minterms of the true rows. */
  lemma GenerationZero(table: seq<bool>, n: nat, x: Implicant)
    requires |table| == Pow2(n)
    ensures InGeneration(table, n, 0, x) <==> exists s :: 0 <= s < |table| && table[s] && x == Minterm(s, n)
  {
    if InGeneration(table, n, 0, x) {
      CountPositive(x.state, 2);
      assert IsMinterm(x, n);
      MintermIndex(x, n);
      var s := Index(x.state);
      assert Covers(x, Minterm(s, n));
    }
    if exists s :: 0 <= s < |table| && table[s] && x == Minterm(s, n) {
      var s :| 0 <= s < |table| && table[s] && x == Minterm(s, n);
      MintermImplicant(table, n, s);
    }
  }

  /** Setting a dash of an implicant to 0 or 1 leaves an implicant with one
      dash fewer. */
  lemma SetDash(table: seq<bool>, n: nat, y: Implicant, j: nat, v: int)
    requires IsImplicantOf(table, n, y) && j < n && y.state[j] == 2 && 0 <= v <= 1
    ensures IsImplicantOf(table, n, With(y, j, v)) && Dashes(With(y, j, v)) + 1 == Dashes(y)
  {
    CountUpdate(y.state, j, v, 2);
    forall s | 0 <= s < |table| && Covers(With(y, j, v), Minterm(s, n)) ensures table[s] {
      assert Covers(y, Minterm(s, n));
    }
  }

  /** Combining a complementary pair of implicants gives an implicant with
      one dash more. */
  lemma CombinedImplicant(table: seq<bool>, n: nat, a: Implicant, o: Implicant)
    requires IsImplicantOf(table, n, a) && IsImplicantOf(table, n, o) && IsComplementary(a, o)
    ensures IsImplicantOf(table, n, Combined(a, o)) && Dashes(Combined(a, o)) == Dashes(a) + 1
  {
    CombinedProperties(a, o, n);
    forall s | 0 <= s < |table| && Covers(Combined(a, o), Minterm(s, n)) ensures table[s] {
      MintermShape(s, n);
      CombinedCovers(a, o, Minterm(s, n), n);
    }
  }

  /** Every implicant with a dash at j is the combination of the two
      implicants that have 0 and 1 there, which lie in neighbouring
      countOnes groups. */
  lemma SplitAtDash(table: seq<bool>, n: nat, g: nat, y: Implicant, j: nat)
    requires InGeneration(table, n, g + 1, y) && j < n && y.state[j] == 2
    ensures var a, b := With(y, j, 0), With(y, j, 1);
      InGeneration(table, n, g, a) && InGeneration(table, n, g, b) &&
      IsComplementary(a, b) && CountOnes(b) == CountOnes(a) + 1 && Combined(a, b) == y
  {
    var a, b := With(y, j, 0), With(y, j, 1);
    SetDash(table, n, y, j, 0);
    SetDash(table, n, y, j, 1);
    assert DiffersOnlyAt(a, b, j);
    ComplementaryIff(a, b);
    CountUpdate(y.state, j, 0, 1);
    CountUpdate(y.state, j, 1, 1);
    CombinedIsDash(a, b, j);
    assert a.state[j := 2] == y.state;
  }

  /** Every implicant with g + 1 dashes is the combination of a complementary
      pair from generation g lying in neighbouring countOnes groups, and
      every such combination is in generation g + 1. */
  lemma NextGeneration(table: seq<bool>, n: nat, g: nat, y: Implicant)
    ensures InGeneration(table, n, g + 1, y) <==>
      exists a, b :: InGeneration(table, n, g, a) && InGeneration(table, n, g, b) &&
        IsComplementary(a, b) && CountOnes(b) == CountOnes(a) + 1 && y == Combined(a, b)
  {
    if InGeneration(table, n, g + 1, y) {
      CountPositive(y.state, 2);
      var j :| 0 <= j < |y.state| && y.state[j] == 2;
      SplitAtDash(table, n, g, y, j);
    }
    if exists a, b :: InGeneration(table, n, g, a) && InGeneration(table, n, g, b) &&
        IsComplementary(a, b) && CountOnes(b) == CountOnes(a) + 1 && y == Combined(a, b) {
      var a, b :| InGeneration(table, n, g, a) && InGeneration(table, n, g, b) &&
        IsComplementary(a, b) && CountOnes(b) == CountOnes(a) + 1 && y == Combined(a, b);
      CombinedImplicant(table, n, a, b);
    }
  }

  /** An implicant is prime exactly when no implicant is complementary to it:
      the loop leaves exactly these unmarked. */
  lemma PrimeIffUnpaired(table: seq<bool>, n: nat, x: Implicant)
    requires IsImplicantOf(table, n, x)
    ensures IsPrime(table, n, x) <==> !exists y :: IsImplicantOf(table, n, y) && IsComplementary(x, y)
  {
    if exists y :: IsImplicantOf(table, n, y) && IsComplementary(x, y) {
      var y :| IsImplicantOf(table, n, y) && IsComplementary(x, y);
      ComplementaryIff(x, y);
      var j :| DiffersOnlyAt(x, y, j);
      CombinedIsDash(x, y, j);
      CombinedImplicant(table, n, x, y);
      assert x.state[j] != 2;
    }
    if !IsPrime(table, n, x) {
      var j :| 0 <= j < n && x.state[j] != 2 && IsImplicantOf(table, n, With(x, j, 2));
      var v := 1 - x.state[j];
      SetDash(table, n, With(x, j, 2), j, v);
      var y := With(With(x, j, 2), j, v);
      assert y == With(x, j, v);
      assert DiffersOnlyAt(x, y, j);
      ComplementaryIff(x, y);
    }
  }

  /** Every implicant with d dashes or more can be narrowed to one with
      exactly d. */
  lemma {:induction false} NarrowTo(table: seq<bool>, n: nat, x: Implicant, d: nat)
    requires IsImplicantOf(table, n, x) && d <= Dashes(x)
    ensures exists y :: InGeneration(table, n, d, y)
    decreases Dashes(x) - d
  {
    if Dashes(x) > d {
      CountPositive(x.state, 2);
      var j :| 0 <= j < |x.state| && x.state[j] == 2;
      SetDash(table, n, x, j, 0);
      NarrowTo(table, n, With(x, j, 0), d);
    } else {
      assert InGeneration(table, n, d, x);
    }
  }

  /** Once a generation is empty, so are all later ones. */
  lemma EmptyGenerationEndsPrimes(table: seq<bool>, n: nat, g: nat, x: Implicant)
    requires forall y :: !InGeneration(table, n, g, y)
    requires IsImplicantOf(table, n, x)
    ensures Dashes(x) < g
  {
    if Dashes(x) >= g {
      NarrowTo(table, n, x, g);
    }
  }

  /** Every implicant is covered by a prime implicant. */
  lemma {:induction false} ExtendToPrime(table: seq<bool>, n: nat, x: Implicant)
    requires IsImplicantOf(table, n, x)
    ensures exists p :: IsPrime(table, n, p) && Covers(p, x)
    decreases n - Dashes(x)
  {
    if IsPrime(table, n, x) {
      CoversReflexive(x);
    } else {
      var j :| 0 <= j < n && x.state[j] != 2 && IsImplicantOf(table, n, With(x, j, 2));
      var w := With(x, j, 2);
      CountUpdate(x.state, j, 2, 2);
      assert Dashes(w) <= n;
      ExtendToPrime(table, n, w);
      var p :| IsPrime(table, n, p) && Covers(p, w);
      assert Covers(w, x);
      CoversTransitive(p, w, x);
    }
  }

  /** Every true row is covered by a prime implicant. */
  lemma PrimesCoverTrueRows(table: seq<bool>, n: nat, s: nat)
    requires |table| == Pow2(n) && s < |table| && table[s]
    ensures exists p :: IsPrime(table, n, p) && Covers(p, Minterm(s, n))
  {
    MintermImplicant(table, n, s);
    ExtendToPrime(table, n, Minterm(s, n));
  }

  /** No two prime implicants are complementary. */
  lemma PrimesNotComplementary(table: seq<bool>, n: nat, x: Implicant, y: Implicant)
    requires IsPrime(table, n, x) && IsPrime(table, n, y)
    ensures !IsComplementary(x, y)
  {
    PrimeIffUnpaired(table, n, x);
  }

  /** Every implicant over n variables covers some row. */
  lemma CoversSomeRow(table: seq<bool>, n: nat, x: Implicant)
    requires |table| == Pow2(n) && Valid(x, n)
    ensures exists s :: 0 <= s < |table| && Covers(x, Minterm(s, n))
  {
    var z := Implicant(seq(n, i requires 0 <= i < n => if x.state[i] == 2 then 0 else x.state[i]));
    assert IsMinterm(z, n);
    MintermIndex(z, n);
    assert Covers(x, Minterm(Index(z.state), n));
  }

  /** A table with no true row has no implicant, prime or not. */
  lemma AllFalseNoImplicant(table: seq<bool>, n: nat, x: Implicant)
    requires |table| == Pow2(n) && forall s :: 0 <= s < |table| ==> !table[s]
    ensures !IsImplicantOf(table, n, x)
  {
    if Valid(x, n) {
      CoversSomeRow(table, n, x);
    }
  }
}
