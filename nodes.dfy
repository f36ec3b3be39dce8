/** The syntax tree of an expression (Node, Letter, Operation) and its
    evaluation under an interpretation of the variables. */
module Nodes {
  import opened Exceptions
  import opened Tokens
  import StringSets

  /** A Letter names a variable; an Operation applies the operator
      "!", "v", "^" or "@" to its arguments, in order. */
  datatype Node = Letter(name: string) | Operation(operation: string, args: seq<Node>)

  /** The Letter constructor: only a Letter token makes a Letter. */
  function MakeLetter(t: Token): (r: Result<Node>)
    ensures r.Success? <==> t.kind == TokenType.Letter
    ensures r.Success? ==> r.value == Node.Letter(t.value)
    ensures r.Failure? ==> r.error == InvalidArgument("")
  {
    if t.kind != TokenType.Letter then Failure(InvalidArgument(""))
    else Success(Node.Letter(t.value))
  }

  /** The Operation constructor: only an Operation token makes an
      Operation, which starts with no arguments. */
  function MakeOperation(t: Token): (r: Result<Node>)
    ensures r.Success? <==> t.kind == TokenType.Operation
    ensures r.Success? ==> r.value == Node.Operation(t.value, [])
    ensures r.Failure? ==> r.error == InvalidArgument("")
  {
    if t.kind != TokenType.Operation then Failure(InvalidArgument(""))
    else Success(Node.Operation(t.value, []))
  }

  /** Operation::addArg: one more argument after the existing ones. */
  function AddArg(n: Node, arg: Node): Node
    requires n.Operation?
  {
    Node.Operation(n.operation, n.args + [arg])
  }

  /** addArg keeps the operator and the earlier arguments and puts arg last. */
  lemma AddArgAppends(n: Node, arg: Node)
    requires n.Operation?
    ensures var r := AddArg(n, arg);
      r.Operation? && r.operation == n.operation && |r.args| == |n.args| + 1 &&
      r.args[..|n.args|] == n.args && r.args[|n.args|] == arg
  {
    assert (n.args + [arg])[..|n.args|] == n.args;
  }

  /** Every Operation has an argument: Operation::evaluate reads args[0]. */
  predicate WellFormed(n: Node)
  {
    match n
    case Letter(_) => true
    case Operation(_, args) => |args| >= 1 && forall i :: 0 <= i < |args| ==> WellFormed(args[i])
  }

  /** The names of the Letters in the tree. */
  function Names(n: Node): set<string>
  {
    match n
    case Letter(name) => {name}
    case Operation(_, args) => set i, x | 0 <= i < |args| && x in Names(args[i]) :: x
  }

  /** Node::addVariable, which the evaluating TruthTable constructor calls:
      inserts the name of every Letter of the tree into the set. */
  function AddVariables(n: Node, vars: seq<string>): (r: seq<string>)
    requires StringSets.Ordered(vars)
    ensures StringSets.Ordered(r)
    ensures forall x :: x in r <==> x in vars || x in Names(n)
  {
    match n
    case Letter(name) => StringSets.Insert(vars, name)
    case Operation(_, args) => AddAllVariables(args, vars)
  }

  function AddAllVariables(args: seq<Node>, vars: seq<string>): (r: seq<string>)
    requires StringSets.Ordered(vars)
    ensures StringSets.Ordered(r)
    ensures forall x :: x in r <==> x in vars || exists i :: 0 <= i < |args| && x in Names(args[i])
  {
    if args == [] then vars
    else
      var r := AddAllVariables(args[1..], AddVariables(args[0], vars));
      assert forall i :: 0 < i < |args| ==> args[i] == args[1..][i - 1];
      r
  }

  /** The value the first argument contributes: negated for "!". */
  function Start(op: string, v: bool): bool
  {
    if op == "!" then !v else v
  }

  /** One step of the accumulation over the remaining arguments: "v" is or,
      "^" is and, "@" is exclusive or; any other operator, "!" included,
      keeps the accumulated value. */
  function Step(op: string, acc: bool, v: bool): bool
  {
    if op == "v" then acc || v
    else if op == "^" then acc && v
    else if op == "@" then acc != v
    else acc
  }

  /** The accumulator after the arguments vs, in order. */
  function Accumulate(op: string, acc: bool, vs: seq<bool>): bool
  {
    if vs == [] then acc else Step(op, Accumulate(op, acc, vs[..|vs| - 1]), vs[|vs| - 1])
  }

  /** Letter::evaluate and Operation::evaluate. */
  function Eval(n: Node, interp: map<string, bool>): bool
    requires WellFormed(n) && Names(n) <= interp.Keys
  {
    match n
    case Letter(name) => interp[name]
    case Operation(op, args) =>
      assert forall i :: 0 <= i < |args| ==> Names(args[i]) <= Names(n);
      var vs := seq(|args|, i requires 0 <= i < |args| => Eval(args[i], interp));
      Accumulate(op, Start(op, vs[0]), vs[1..])
  }

  /** The values of the arguments of an Operation. */
  function ArgValues(args: seq<Node>, interp: map<string, bool>): (vs: seq<bool>)
    requires forall i :: 0 <= i < |args| ==> WellFormed(args[i]) && Names(args[i]) <= interp.Keys
    ensures |vs| == |args|
    ensures forall i :: 0 <= i < |args| ==> vs[i] == Eval(args[i], interp)
  {
    seq(|args|, i requires 0 <= i < |args| => Eval(args[i], interp))
  }

  lemma EvalOperation(op: string, args: seq<Node>, interp: map<string, bool>)
    requires WellFormed(Node.Operation(op, args)) && Names(Node.Operation(op, args)) <= interp.Keys
    ensures forall i :: 0 <= i < |args| ==> WellFormed(args[i]) && Names(args[i]) <= interp.Keys
    ensures var vs := ArgValues(args, interp);
      Eval(Node.Operation(op, args), interp) == Accumulate(op, Start(op, vs[0]), vs[1..])
  {
    assert forall i :: 0 <= i < |args| ==> Names(args[i]) <= Names(Node.Operation(op, args));
  }

  lemma {:induction false} AccumulateKeeps(op: string, acc: bool, vs: seq<bool>)
    requires op != "v" && op != "^" && op != "@"
    ensures Accumulate(op, acc, vs) == acc
  {
    if vs != [] {
      AccumulateKeeps(op, acc, vs[..|vs| - 1]);
    }
  }

  lemma {:induction false} AccumulateOr(acc: bool, vs: seq<bool>)
    ensures Accumulate("v", acc, vs) <==> acc || true in vs
  {
    if vs != [] {
      AccumulateOr(acc, vs[..|vs| - 1]);
      assert vs == vs[..|vs| - 1] + [vs[|vs| - 1]];
    }
  }

  lemma {:induction false} AccumulateAnd(acc: bool, vs: seq<bool>)
    ensures Accumulate("^", acc, vs) <==> acc && false !in vs
  {
    if vs != [] {
      AccumulateAnd(acc, vs[..|vs| - 1]);
      assert vs == vs[..|vs| - 1] + [vs[|vs| - 1]];
    }
  }

  /** The number of true values in vs. */
  function CountTrue(vs: seq<bool>): nat
  {
    if vs == [] then 0 else CountTrue(vs[..|vs| - 1]) + (if vs[|vs| - 1] then 1 else 0)
  }

  lemma {:induction false} AccumulateXor(acc: bool, vs: seq<bool>)
    ensures Accumulate("@", acc, vs) <==> (acc <==> CountTrue(vs) % 2 == 0)
  {
    if vs != [] {
      AccumulateXor(acc, vs[..|vs| - 1]);
    }
  }

  /** "!" is the negation of its first argument; further arguments are
      evaluated but ignored. */
  lemma EvalNegation(args: seq<Node>, interp: map<string, bool>)
    requires WellFormed(Node.Operation("!", args)) && Names(Node.Operation("!", args)) <= interp.Keys
    ensures WellFormed(args[0]) && Names(args[0]) <= interp.Keys
    ensures Eval(Node.Operation("!", args), interp) == !Eval(args[0], interp)
  {
    EvalOperation("!", args, interp);
    var vs := ArgValues(args, interp);
    AccumulateKeeps("!", !vs[0], vs[1..]);
  }

  /** An operator other than the four leaves its first argument's value. */
  lemma EvalUnknownOperator(op: string, args: seq<Node>, interp: map<string, bool>)
    requires op !in {"!", "v", "^", "@"}
    requires WellFormed(Node.Operation(op, args)) && Names(Node.Operation(op, args)) <= interp.Keys
    ensures WellFormed(args[0]) && Names(args[0]) <= interp.Keys
    ensures Eval(Node.Operation(op, args), interp) == Eval(args[0], interp)
  {
    EvalOperation(op, args, interp);
    var vs := ArgValues(args, interp);
    AccumulateKeeps(op, vs[0], vs[1..]);
  }

  /** "v" is true iff some argument is true. */
  lemma EvalOr(args: seq<Node>, interp: map<string, bool>)
    requires WellFormed(Node.Operation("v", args)) && Names(Node.Operation("v", args)) <= interp.Keys
    ensures forall i :: 0 <= i < |args| ==> WellFormed(args[i]) && Names(args[i]) <= interp.Keys
    ensures Eval(Node.Operation("v", args), interp) <==> exists i :: 0 <= i < |args| && Eval(args[i], interp)
  {
    EvalOperation("v", args, interp);
    var vs := ArgValues(args, interp);
    AccumulateOr(vs[0], vs[1..]);
    assert vs == [vs[0]] + vs[1..];
    if exists i :: 0 <= i < |args| && Eval(args[i], interp) {
      var i :| 0 <= i < |args| && Eval(args[i], interp);
      assert vs[i];
    }
  }

  /** "^" is true iff every argument is true. */
  lemma EvalAnd(args: seq<Node>, interp: map<string, bool>)
    requires WellFormed(Node.Operation("^", args)) && Names(Node.Operation("^", args)) <= interp.Keys
    ensures forall i :: 0 <= i < |args| ==> WellFormed(args[i]) && Names(args[i]) <= interp.Keys
    ensures Eval(Node.Operation("^", args), interp) <==> forall i :: 0 <= i < |args| ==> Eval(args[i], interp)
  {
    EvalOperation("^", args, interp);
    var vs := ArgValues(args, interp);
    AccumulateAnd(vs[0], vs[1..]);
    assert vs == [vs[0]] + vs[1..];
    if !forall i :: 0 <= i < |args| ==> Eval(args[i], interp) {
      var i :| 0 <= i < |args| && !Eval(args[i], interp);
      assert !vs[i];
    }
  }

  lemma {:induction false} CountTrueCons(v: bool, vs: seq<bool>)
    ensures CountTrue([v] + vs) == CountTrue(vs) + (if v then 1 else 0)
  {
    if vs != [] {
      CountTrueCons(v, vs[..|vs| - 1]);
      assert ([v] + vs)[..|vs|] == [v] + vs[..|vs| - 1];
    }
  }

  /** "@" is true iff an odd number of arguments are true. */
  lemma EvalXor(args: seq<Node>, interp: map<string, bool>)
    requires WellFormed(Node.Operation("@", args)) && Names(Node.Operation("@", args)) <= interp.Keys
    ensures Eval(Node.Operation("@", args), interp) <==> CountTrue(ArgValues(args, interp)) % 2 == 1
  {
    EvalOperation("@", args, interp);
    XorOfValues(ArgValues(args, interp));
  }

  lemma XorOfValues(vs: seq<bool>)
    requires |vs| >= 1
    ensures Accumulate("@", Start("@", vs[0]), vs[1..]) <==> CountTrue(vs) % 2 == 1
  {
    AccumulateXor(vs[0], vs[1..]);
    CountTrueFirst(vs);
    Parity(CountTrue(vs[1..]), vs[0]);
  }

  lemma CountTrueFirst(vs: seq<bool>)
    requires |vs| >= 1
    ensures CountTrue(vs) == CountTrue(vs[1..]) + (if vs[0] then 1 else 0)
  {
    assert vs == [vs[0]] + vs[1..];
    CountTrueCons(vs[0], vs[1..]);
  }

  lemma Parity(c: nat, b: bool)
    ensures (c + (if b then 1 else 0)) % 2 == 1 <==> (b <==> c % 2 == 0)
  {
  }

  /** addArg keeps the tree well formed and adds the names of arg. */
  lemma AddArgNames(n: Node, arg: Node)
    requires n.Operation? && WellFormed(n) && WellFormed(arg)
    ensures WellFormed(AddArg(n, arg)) && Names(AddArg(n, arg)) <= Names(n) + Names(arg)
  {
    var m := AddArg(n, arg);
    assert forall i :: 0 <= i < |n.args| ==> m.args[i] == n.args[i];
    forall x | x in Names(m) ensures x in Names(n) || x in Names(arg) {
      var i :| 0 <= i < |m.args| && x in Names(m.args[i]);
      if i < |n.args| { assert m.args[i] == n.args[i]; }
    }
  }

  /** Adding an argument to an Operation that has one combines the old
      value with the new argument by one accumulation step. */
  lemma EvalAddArg(n: Node, arg: Node, interp: map<string, bool>)
    requires n.Operation? && WellFormed(n) && WellFormed(arg)
    requires Names(n) <= interp.Keys && Names(arg) <= interp.Keys
    ensures WellFormed(AddArg(n, arg)) && Names(AddArg(n, arg)) <= interp.Keys
    ensures Eval(AddArg(n, arg), interp) == Step(n.operation, Eval(n, interp), Eval(arg, interp))
  {
    var m := AddArg(n, arg);
    AddArgNames(n, arg);
    EvalOperation(n.operation, n.args, interp);
    EvalOperation(m.operation, m.args, interp);
    var vs := ArgValues(n.args, interp);
    var ws := ArgValues(m.args, interp);
    assert ws == vs + [Eval(arg, interp)];
    AccumulateSnoc(n.operation, vs, Eval(arg, interp));
  }

  /** One more value at the end is one more accumulation step. */
  lemma AccumulateSnoc(op: string, vs: seq<bool>, w: bool)
    requires |vs| >= 1
    ensures var ws := vs + [w];
      Accumulate(op, Start(op, ws[0]), ws[1..]) == Step(op, Accumulate(op, Start(op, vs[0]), vs[1..]), w)
  {
    var ws := vs + [w];
    assert ws[1..] == vs[1..] + [w];
    assert ws[1..][..|ws[1..]| - 1] == vs[1..];
  }

  /** Evaluation reads only the variables that occur in the tree. */
  lemma {:induction false} EvalFrame(n: Node, i1: map<string, bool>, i2: map<string, bool>)
    requires WellFormed(n) && Names(n) <= i1.Keys && Names(n) <= i2.Keys
    requires forall x :: x in Names(n) ==> i1[x] == i2[x]
    ensures Eval(n, i1) == Eval(n, i2)
  {
    match n
    case Letter(_) =>
    case Operation(op, args) =>
      EvalOperation(op, args, i1);
      EvalOperation(op, args, i2);
      forall i | 0 <= i < |args| ensures Eval(args[i], i1) == Eval(args[i], i2) {
        assert Names(args[i]) <= Names(n);
        EvalFrame(args[i], i1, i2);
      }
      assert ArgValues(args, i1) == ArgValues(args, i2);
  }
}
