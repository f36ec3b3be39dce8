/** TruthTable: the variables of a function, in set order, and its value
    for each of the 2^n interpretations, row i giving the k-th variable the
    value of bit k of i. */
module TruthTables {
  import opened Exceptions
  import opened Bits
  import opened StringSets
  import opened Nodes

  datatype TruthTable = TruthTable(vars: seq<string>, table: seq<bool>)

  /** What both constructors establish: the variables form a set and there
      is one row per interpretation. */
  predicate Valid(t: TruthTable)
  {
    Ordered(t.vars) && |t.table| == Pow2(|t.vars|)
  }

  // The message of the invalid_argument the bit-string constructor throws.
  const WrongFormat := "wrong format"

  function Digit(d: nat): char
    requires d < 10
  {
    ('0' as int + d) as char
  }

  /** std::to_string on a non-negative number. */
  function NatToString(k: nat): (r: string)
    ensures |r| >= 1
  {
    if k < 10 then [Digit(k)] else NatToString(k / 10) + [Digit(k % 10)]
  }

  lemma {:induction false} NatToStringInjective(a: nat, b: nat)
    requires NatToString(a) == NatToString(b)
    ensures a == b
  {
    if a >= 10 && b >= 10 {
      var sa, sb := NatToString(a), NatToString(b);
      assert sa[|sa| - 1] == sb[|sb| - 1];
      assert sa[..|sa| - 1] == NatToString(a / 10) && sb[..|sb| - 1] == NatToString(b / 10);
      NatToStringInjective(a / 10, b / 10);
    }
  }

  /** The name the bit-string constructor gives to variable i. */
  function VarName(i: nat): string
  {
    "x" + NatToString(i + 1)
  }

  lemma VarNameInjective(a: nat, b: nat)
    requires VarName(a) == VarName(b)
    ensures a == b
  {
    assert VarName(a)[1..] == NatToString(a + 1);
    assert VarName(b)[1..] == NatToString(b + 1);
    NatToStringInjective(a + 1, b + 1);
  }

  /** The names of variables 0 to i - 1. */
  ghost function FirstNames(i: nat): set<string>
  {
    set k | 0 <= k < i :: VarName(k)
  }

  lemma FirstNamesStep(i: nat)
    ensures FirstNames(i + 1) == FirstNames(i) + {VarName(i)}
    ensures VarName(i) !in FirstNames(i)
  {
    if VarName(i) in FirstNames(i) {
      var k :| 0 <= k < i && VarName(k) == VarName(i);
      VarNameInjective(i, k);
    }
  }

  lemma FirstNamesIn(i: nat)
    ensures forall v :: v in FirstNames(i) <==> exists k :: 0 <= k < i && v == VarName(k)
  {
  }

  predicate IsBitString(s: string)
  {
    BitsBefore(s, |s|)
  }

  /** The first i characters are '0' or '1'. */
  predicate BitsBefore(s: string, i: nat)
    requires i <= |s|
  {
    forall k :: 0 <= k < i ==> s[k] == '0' || s[k] == '1'
  }

  /** The loop of the bit-string constructor that inserts x1, ..., xn into
      the set of variables. */
  method VariableNames(n: nat) returns (vars: seq<string>)
    ensures Ordered(vars) && |vars| == n
    ensures forall v :: v in vars <==> exists i :: 0 <= i < n && v == VarName(i)
  {
    vars := [];
    for i := 0 to n
      invariant Ordered(vars) && |vars| == i
      invariant forall v :: v in vars <==> v in FirstNames(i)
    {
      FirstNamesStep(i);
      vars := Insert(vars, VarName(i));
    }
    FirstNamesIn(n);
  }

  /** The search of the bit-string constructor stops at the least n >= 1
      with 2^n >= len; len is a power of two at least 2 exactly when it is
      2^n for that n. */
  lemma LengthSearch(n: nat, len: nat)
    requires 1 <= n && len <= Pow2(n) && (n == 1 || Pow2(n - 1) < len)
    ensures Pow2(n) == len <==> exists m: nat :: m >= 1 && Pow2(m) == len
  {
    if exists m: nat :: m >= 1 && Pow2(m) == len {
      var m: nat :| m >= 1 && Pow2(m) == len;
      if m < n {
        Pow2Monotone(m, n - 1);
      } else if m > n {
        Pow2StrictlyMonotone(n, m);
      }
    }
  }

  /** The constructor TruthTable(const string&): succeeds exactly on a string
      of '0' and '1' whose length is a power of two and at least 2; the row
      values are the characters, the variables are x1, ..., xn. */
  method FromBits(s: string) returns (r: Result<TruthTable>)
    requires |s| <= 0x4000_0000  // 2^30: 1U << 31 would overflow the search
    ensures r.Success? <==> IsBitString(s) && exists n: nat :: n >= 1 && Pow2(n) == |s|
    ensures r.Failure? ==> r.error == InvalidArgument(WrongFormat)
    ensures r.Success? ==> var t := r.value;
      Valid(t) && Pow2(|t.vars|) == |s| &&
      (forall v :: v in t.vars <==> exists i :: 0 <= i < |t.vars| && v == VarName(i)) &&
      |t.table| == |s| && forall i :: 0 <= i < |s| ==> (t.table[i] <==> s[i] == '1')
  {
    var n := 1;
    while Pow2(n) < |s|
      invariant 1 <= n && (n == 1 || Pow2(n - 1) < |s|)
      decreases |s| - Pow2(n)
    {
      n := n + 1;
    }
    LengthSearch(n, |s|);
    if Pow2(n) != |s| {
      return Failure(InvalidArgument(WrongFormat));
    }
    var table := seq(Pow2(n), _ => false);
    var vars := VariableNames(n);
    for i := 0 to |s|
      invariant |table| == |s| && BitsBefore(s, i)
      invariant forall k :: 0 <= k < |s| ==> (table[k] <==> k < i && s[k] == '1')
    {
      if s[i] == '1' {
        table := table[i := true];
      } else if s[i] != '0' {
        return Failure(InvalidArgument(WrongFormat));
      }
    }
    return Success(TruthTable(vars, table));
  }

  /** The interpretation for row i: the k-th variable gets bit k of i. */
  function Interp(vars: seq<string>, i: nat): (r: map<string, bool>)
    requires Ordered(vars)
    ensures forall v :: v in r <==> v in vars
    ensures forall k :: 0 <= k < |vars| ==> r[vars[k]] == (Bit(i, k) == 1)
  {
    OrderedDistinct(vars);
    map k | 0 <= k < |vars| :: vars[k] := Bit(i, k) == 1
  }

  /** A map that gives every variable the value of its bit of i, and knows
      no other name, is Interp(vars, i). */
  lemma InterpMatches(vars: seq<string>, i: nat, m: map<string, bool>)
    requires Ordered(vars)
    requires forall v :: v in m ==> v in vars
    requires forall k :: 0 <= k < |vars| ==> vars[k] in m && m[vars[k]] == (Bit(i, k) == 1)
    ensures m == Interp(vars, i)
  {
    var r := Interp(vars, i);
    forall v | v in m ensures v in r && m[v] == r[v] {
      var k :| 0 <= k < |vars| && vars[k] == v;
    }
  }

  /** createTable, and the constructor TruthTable(const unique_ptr<Node>&),
      which runs the same loops: the variables are those of the tree, and row
      i is the value of the tree under Interp(vars, i). */
  method CreateTable(root: Node) returns (t: TruthTable)
    requires WellFormed(root)
    ensures Valid(t)
    ensures forall v :: v in t.vars <==> v in Names(root)
    ensures forall i :: 0 <= i < |t.table| ==> t.table[i] == Eval(root, Interp(t.vars, i))
  {
    var vars := AddVariables(root, []);
    var n := |vars|;
    var nInterpr := Pow2(n);
    var table := seq(nInterpr, _ => false);
    var interpretation: map<string, bool> := map[];
    OrderedDistinct(vars);
    for i := 0 to nInterpr
      invariant |table| == nInterpr
      invariant forall v :: v in interpretation ==> v in vars
      invariant forall k :: 0 <= k < i ==> table[k] == Eval(root, Interp(vars, k))
    {
      for k := 0 to n
        invariant forall v :: v in interpretation ==> v in vars
        invariant forall m :: 0 <= m < k ==> vars[m] in interpretation && interpretation[vars[m]] == (Bit(i, m) == 1)
      {
        interpretation := interpretation[vars[k] := Bit(i, k) == 1];
      }
      InterpMatches(vars, i, interpretation);
      table := table[i := Eval(root, interpretation)];
    }
    t := TruthTable(vars, table);
  }
}
