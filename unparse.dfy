/** A reference rendering of trees as tokens, in the grammar the parser
    accepts, and the proof that parsing the rendering of a tree in parser
    form gives back that tree. */
module Unparse {
  import opened Exceptions
  import opened Tokens
  import opened Nodes
  import opened Parser

  const LP := Token(TokenType.LeftParenthesis, "(")
  const RP := Token(TokenType.RightParenthesis, ")")

  /** A value: a Letter, "!" before an atom, or a parenthesised expression. */
  function RenderValue(n: Node): seq<Token>
    decreases n, 1
  {
    match n
    case Letter(name) => [Token(TokenType.Letter, name)]
    case Operation(op, args) =>
      if op == "!" && |args| == 1 then [Token(TokenType.Operation, "!")] + RenderAtom(args[0])
      else if |args| >= 2 then [LP] + RenderValue(args[0]) + RenderChain(n, 1) + [RP]
      else [LP, RP]
  }

  /** What may follow "!": a Letter or a parenthesised expression. */
  function RenderAtom(n: Node): seq<Token>
    decreases n, 3
  {
    if n.Letter? then [Token(TokenType.Letter, n.name)] else [LP] + RenderExpr(n) + [RP]
  }

  /** An expression: a chain of values for an Operation with two or more
      arguments, a single value otherwise. */
  function RenderExpr(n: Node): seq<Token>
    decreases n, 2
  {
    if n.Operation? && |n.args| >= 2 then RenderValue(n.args[0]) + RenderChain(n, 1)
    else RenderValue(n)
  }

  /** "op value" for each argument from the i-th on. */
  function RenderChain(n: Node, i: nat): seq<Token>
    requires n.Operation?
    decreases n, 0, |n.args| - i
  {
    if i >= |n.args| then []
    else [Token(TokenType.Operation, n.operation)] + RenderValue(n.args[i]) + RenderChain(n, i + 1)
  }

  /** toks holds part at position pos. */
  predicate At(toks: seq<Token>, pos: nat, part: seq<Token>)
  {
    pos + |part| <= |toks| && forall j :: 0 <= j < |part| ==> toks[pos + j] == part[j]
  }

  /** Every sequence holds its own suffixes. */
  lemma AtSuffix(toks: seq<Token>, pos: nat)
    requires pos <= |toks|
    ensures At(toks, pos, toks[pos..])
  {
  }

  /** Nothing at position pos continues an expression. */
  predicate Ends(toks: seq<Token>, pos: nat)
  {
    pos <= |toks| && (pos == |toks| || toks[pos].kind != TokenType.Operation)
  }

  lemma AtSplit(toks: seq<Token>, pos: nat, a: seq<Token>, b: seq<Token>)
    requires At(toks, pos, a + b)
    ensures At(toks, pos, a) && At(toks, pos + |a|, b)
  {
    forall j | 0 <= j < |a| ensures toks[pos + j] == a[j] {
      assert (a + b)[j] == a[j];
    }
    forall j | 0 <= j < |b| ensures toks[pos + |a| + j] == b[j] {
      assert (a + b)[|a| + j] == b[j];
    }
  }

  lemma AtFirst(toks: seq<Token>, pos: nat, t: Token, rest: seq<Token>)
    requires At(toks, pos, [t] + rest)
    ensures pos < |toks| && toks[pos] == t && At(toks, pos + 1, rest)
  {
    AtSplit(toks, pos, [t], rest);
    assert toks[pos + 0] == [t][0];
  }

  lemma AtLast(toks: seq<Token>, pos: nat, front: seq<Token>, t: Token)
    requires At(toks, pos, front + [t])
    ensures At(toks, pos, front) && pos + |front| < |toks| && toks[pos + |front|] == t
  {
    AtSplit(toks, pos, front, [t]);
    assert toks[pos + |front| + 0] == [t][0];
  }

  /** n has the chain shape: an Operation with two or more arguments. */
  predicate IsChain(n: Node) { n.Operation? && |n.args| >= 2 }

  /** n is the negation the parser builds around its only argument. */
  predicate IsNegation(n: Node) { n.Operation? && n.operation == "!" && |n.args| == 1 }

  const Bang := Token(TokenType.Operation, "!")

  /** toks holds the rendering of the value n at pos. */
  predicate ValueShape(toks: seq<Token>, pos: nat, n: Node)
  {
    At(toks, pos, RenderValue(n))
  }

  /** toks holds the rendering of the expression n at pos, and nothing
      continues it. */
  predicate ExprShape(toks: seq<Token>, pos: nat, n: Node)
  {
    At(toks, pos, RenderExpr(n)) && Ends(toks, pos + |RenderExpr(n)|)
  }

  /** toks holds "op value" for the arguments of n from the i-th on at pos,
      and nothing continues them. */
  predicate ChainShape(toks: seq<Token>, pos: nat, n: Node, i: nat)
  {
    n.Operation? && 2 <= i <= |n.args| &&
    At(toks, pos, RenderChain(n, i)) && Ends(toks, pos + |RenderChain(n, i)|)
  }

  /** The tokens "!" "(" at pos and ")" at q around a negated group. */
  predicate NegatedGroupTokens(toks: seq<Token>, pos: nat, q: nat)
  {
    pos + 1 < |toks| && toks[pos] == Bang && toks[pos + 1] == LP && q < |toks| && toks[q] == RP
  }

  /** The tokens "(" at pos and ")" at q around a group. */
  predicate GroupTokens(toks: seq<Token>, pos: nat, q: nat)
  {
    pos < |toks| && toks[pos] == LP && q < |toks| && toks[q] == RP
  }

  /** The operator token op at pos. */
  predicate OperatorAt(toks: seq<Token>, pos: nat, op: string)
  {
    pos < |toks| && toks[pos] == Token(TokenType.Operation, op)
  }

  // One unfolding of the parser per case, stated about the tree being
  // rebuilt and the position after it.

  lemma NegationOf(n: Node)
    requires IsNegation(n)
    ensures Negation(n.args[0]) == n
  {
    assert [n.args[0]] == n.args;
  }

  lemma LetterStep(toks: seq<Token>, pos: nat, n: Node)
    requires n.Letter? && At(toks, pos, RenderValue(n))
    ensures ValueAt(toks, pos) == Success(Parsed(n, pos + |RenderValue(n)|))
  {
    assert RenderValue(n) == [Token(TokenType.Letter, n.name)] + [];
    AtFirst(toks, pos, Token(TokenType.Letter, n.name), []);
  }

  lemma NegatedLetterStep(toks: seq<Token>, pos: nat, n: Node)
    requires IsNegation(n) && n.args[0].Letter? && At(toks, pos, RenderValue(n))
    ensures ValueAt(toks, pos) == Success(Parsed(n, pos + |RenderValue(n)|))
  {
    var letter := Token(TokenType.Letter, n.args[0].name);
    assert RenderValue(n) == [Bang] + ([letter] + []);
    AtFirst(toks, pos, Bang, [letter] + []);
    AtFirst(toks, pos + 1, letter, []);
    NegationOf(n);
  }

  lemma NegatedGroupStep(toks: seq<Token>, pos: nat, n: Node, q: nat, r: nat)
    requires IsNegation(n) && NegatedGroupTokens(toks, pos, q)
    requires ExpressionAt(toks, pos + 2) == Success(Parsed(n.args[0], q)) && r == q + 1
    ensures ValueAt(toks, pos) == Success(Parsed(n, r))
  {
    NegationOf(n);
  }

  lemma GroupStep(toks: seq<Token>, pos: nat, n: Node, q: nat, r: nat)
    requires GroupTokens(toks, pos, q)
    requires ExpressionAt(toks, pos + 1) == Success(Parsed(n, q)) && r == q + 1
    ensures ValueAt(toks, pos) == Success(Parsed(n, r))
  {
  }

  lemma SingleStep(toks: seq<Token>, pos: nat, n: Node, p: nat, r: nat)
    requires pos <= |toks| && ValueAt(toks, pos) == Success(Parsed(n, p)) && Ends(toks, p) && r == p
    ensures ExpressionAt(toks, pos) == Success(Parsed(n, r))
  {
  }

  lemma ExpressionAtChain(toks: seq<Token>, pos: nat, v: Node, p: nat, v2: Node, q: nat)
    requires pos <= |toks| && ValueAt(toks, pos) == Success(Parsed(v, p))
    requires p < |toks| && toks[p].kind == TokenType.Operation
    requires ValueAt(toks, p + 1) == Success(Parsed(v2, q))
    ensures ExpressionAt(toks, pos) == ChainAt(toks, q, Node.Operation(toks[p].value, [v, v2]))
  {
    assert AddArg(AddArg(MakeOperation(toks[p]).value, v), v2) == Node.Operation(toks[p].value, [v, v2]);
  }

  /** A chain whose first two values and rest parse as given parses as a whole. */
  lemma ChainStart(toks: seq<Token>, pos: nat, n: Node, p: nat, q: nat, e0: nat, e: nat)
    requires IsChain(n) && pos <= |toks| && ValueAt(toks, pos) == Success(Parsed(n.args[0], p))
    requires OperatorAt(toks, p, n.operation) && ValueAt(toks, p + 1) == Success(Parsed(n.args[1], q))
    requires ChainAt(toks, q, Node.Operation(n.operation, n.args[..2])) == Success(Parsed(n, e0)) && e == e0
    ensures ExpressionAt(toks, pos) == Success(Parsed(n, e))
  {
    ExpressionAtChain(toks, pos, n.args[0], p, n.args[1], q);
    assert [n.args[0], n.args[1]] == n.args[..2];
  }

  lemma ChainAtStep(toks: seq<Token>, pos: nat, acc: Node, v: Node, q: nat)
    requires pos < |toks| && acc.Operation? && |acc.args| >= 2
    requires toks[pos] == Token(TokenType.Operation, acc.operation)
    requires ValueAt(toks, pos + 1) == Success(Parsed(v, q))
    ensures ChainAt(toks, pos, acc) == ChainAt(toks, q, AddArg(acc, v))
  {
  }

  /** One more value of the chain extends the accumulator by one argument. */
  lemma ChainStep(toks: seq<Token>, pos: nat, n: Node, i: nat, q: nat, e0: nat, e: nat)
    requires n.Operation? && 2 <= i < |n.args| && OperatorAt(toks, pos, n.operation)
    requires ValueAt(toks, pos + 1) == Success(Parsed(n.args[i], q))
    requires ChainAt(toks, q, Node.Operation(n.operation, n.args[..i + 1])) == Success(Parsed(n, e0)) && e == e0
    ensures ChainAt(toks, pos, Node.Operation(n.operation, n.args[..i])) == Success(Parsed(n, e))
  {
    var acc := Node.Operation(n.operation, n.args[..i]);
    ChainAtStep(toks, pos, acc, n.args[i], q);
    assert AddArg(acc, n.args[i]) == Node.Operation(n.operation, n.args[..i + 1]);
  }

  /** With every argument in the accumulator, the chain stops where nothing
      continues it. */
  lemma ChainEndStep(toks: seq<Token>, pos: nat, n: Node, i: nat)
    requires ChainShape(toks, pos, n, i) && i == |n.args|
    ensures ChainAt(toks, pos, Node.Operation(n.operation, n.args[..i])) ==
      Success(Parsed(n, pos + |RenderChain(n, i)|))
  {
    assert n.args[..i] == n.args;
  }

  // Where the parts of a rendering lie in the token list.

  lemma NegatedGroupLayout(toks: seq<Token>, pos: nat, n: Node)
    requires IsNegation(n) && !n.args[0].Letter? && ValueShape(toks, pos, n)
    ensures NegatedGroupTokens(toks, pos, pos + 2 + |RenderExpr(n.args[0])|)
    ensures ExprShape(toks, pos + 2, n.args[0]) && |RenderValue(n)| == |RenderExpr(n.args[0])| + 3
  {
    assert RenderValue(n) == [Bang] + ([LP] + RenderExpr(n.args[0]) + [RP]);
    AtFirst(toks, pos, Bang, [LP] + RenderExpr(n.args[0]) + [RP]);
    AtLast(toks, pos + 1, [LP] + RenderExpr(n.args[0]), RP);
    AtFirst(toks, pos + 1, LP, RenderExpr(n.args[0]));
  }

  lemma GroupLayout(toks: seq<Token>, pos: nat, n: Node)
    requires IsChain(n) && !IsNegation(n) && ValueShape(toks, pos, n)
    ensures GroupTokens(toks, pos, pos + 1 + |RenderExpr(n)|)
    ensures ExprShape(toks, pos + 1, n) && |RenderValue(n)| == |RenderExpr(n)| + 2
  {
    assert RenderValue(n) == [LP] + RenderExpr(n) + [RP];
    AtLast(toks, pos, [LP] + RenderExpr(n), RP);
    AtFirst(toks, pos, LP, RenderExpr(n));
  }

  lemma SingleLayout(toks: seq<Token>, pos: nat, n: Node)
    requires !IsChain(n) && ExprShape(toks, pos, n)
    ensures ValueShape(toks, pos, n) && Ends(toks, pos + |RenderValue(n)|)
    ensures |RenderExpr(n)| == |RenderValue(n)|
  {
    assert RenderExpr(n) == RenderValue(n);
  }

  lemma ChainUnfold(n: Node, i: nat)
    requires n.Operation? && i < |n.args|
    ensures RenderChain(n, i) ==
      [Token(TokenType.Operation, n.operation)] + (RenderValue(n.args[i]) + RenderChain(n, i + 1))
    ensures |RenderChain(n, i)| == 1 + |RenderValue(n.args[i])| + |RenderChain(n, i + 1)|
  {
  }

  /** Where the next value of a chain and the rest of it lie. */
  lemma ChainStepLayout(toks: seq<Token>, pos: nat, n: Node, i: nat)
    requires n.Operation? && i < |n.args|
    requires At(toks, pos, RenderChain(n, i)) && Ends(toks, pos + |RenderChain(n, i)|)
    ensures OperatorAt(toks, pos, n.operation) && At(toks, pos + 1, RenderValue(n.args[i]))
    ensures var q := pos + 1 + |RenderValue(n.args[i])|;
      At(toks, q, RenderChain(n, i + 1)) && Ends(toks, q + |RenderChain(n, i + 1)|) &&
      q + |RenderChain(n, i + 1)| == pos + |RenderChain(n, i)|
  {
    ChainUnfold(n, i);
    AtFirst(toks, pos, Token(TokenType.Operation, n.operation), RenderValue(n.args[i]) + RenderChain(n, i + 1));
    AtSplit(toks, pos + 1, RenderValue(n.args[i]), RenderChain(n, i + 1));
  }

  lemma ExprUnfold(n: Node)
    requires IsChain(n)
    ensures RenderExpr(n) == RenderValue(n.args[0]) + RenderChain(n, 1)
    ensures |RenderExpr(n)| == |RenderValue(n.args[0])| + |RenderChain(n, 1)|
  {
  }

  /** Where the first two values of a chain and the rest of it lie. */
  lemma ChainLayout(toks: seq<Token>, pos: nat, n: Node)
    requires IsChain(n) && ExprShape(toks, pos, n)
    ensures var p := pos + |RenderValue(n.args[0])|;
      var q := p + 1 + |RenderValue(n.args[1])|;
      ValueShape(toks, pos, n.args[0]) && OperatorAt(toks, p, n.operation) &&
      ValueShape(toks, p + 1, n.args[1]) && ChainShape(toks, q, n, 2) &&
      q + |RenderChain(n, 2)| == pos + |RenderExpr(n)|
  {
    ExprUnfold(n);
    AtSplit(toks, pos, RenderValue(n.args[0]), RenderChain(n, 1));
    var p := pos + |RenderValue(n.args[0])|;
    ChainStepLayout(toks, p, n, 1);
  }

  /** Where the next value of a chain and the rest of it lie, as shapes. */
  lemma ChainShapeStep(toks: seq<Token>, pos: nat, n: Node, i: nat)
    requires ChainShape(toks, pos, n, i) && i < |n.args|
    ensures var q := pos + 1 + |RenderValue(n.args[i])|;
      OperatorAt(toks, pos, n.operation) && ValueShape(toks, pos + 1, n.args[i]) &&
      ChainShape(toks, q, n, i + 1) && q + |RenderChain(n, i + 1)| == pos + |RenderChain(n, i)|
  {
    ChainStepLayout(toks, pos, n, i);
  }

  lemma ArgForm(n: Node, i: nat)
    requires InParserForm(n) && n.Operation? && i < |n.args|
    ensures InParserForm(n.args[i])
  {
  }

  // The round trip, by induction over the tree.

  lemma {:induction false} ValueRoundTrip(toks: seq<Token>, pos: nat, n: Node)
    requires InParserForm(n) && ValueShape(toks, pos, n)
    ensures ValueAt(toks, pos) == Success(Parsed(n, pos + |RenderValue(n)|))
    decreases n, if IsChain(n) then 2 else 0, 2
  {
    if n.Letter? {
      LetterStep(toks, pos, n);
    } else if IsNegation(n) && n.args[0].Letter? {
      NegatedLetterStep(toks, pos, n);
    } else if IsNegation(n) {
      NegatedGroupRoundTrip(toks, pos, n);
    } else {
      GroupRoundTrip(toks, pos, n);
    }
  }

  lemma {:induction false} NegatedGroupRoundTrip(toks: seq<Token>, pos: nat, n: Node)
    requires IsNegation(n) && !n.args[0].Letter? && InParserForm(n) && ValueShape(toks, pos, n)
    ensures ValueAt(toks, pos) == Success(Parsed(n, pos + |RenderValue(n)|))
    decreases n, 0, 0
  {
    var a := n.args[0];
    ArgForm(n, 0);
    NegatedGroupLayout(toks, pos, n);
    ExprRoundTrip(toks, pos + 2, a);
    NegatedGroupStep(toks, pos, n, pos + 2 + |RenderExpr(a)|, pos + |RenderValue(n)|);
  }

  lemma {:induction false} GroupRoundTrip(toks: seq<Token>, pos: nat, n: Node)
    requires IsChain(n) && !IsNegation(n) && InParserForm(n) && ValueShape(toks, pos, n)
    ensures ValueAt(toks, pos) == Success(Parsed(n, pos + |RenderValue(n)|))
    decreases n, 2, 1
  {
    GroupLayout(toks, pos, n);
    ExprRoundTrip(toks, pos + 1, n);
    GroupStep(toks, pos, n, pos + 1 + |RenderExpr(n)|, pos + |RenderValue(n)|);
  }

  lemma {:induction false} ExprRoundTrip(toks: seq<Token>, pos: nat, n: Node)
    requires InParserForm(n) && ExprShape(toks, pos, n)
    ensures ExpressionAt(toks, pos) == Success(Parsed(n, pos + |RenderExpr(n)|))
    decreases n, 1, 2
  {
    if IsChain(n) {
      ChainExprRoundTrip(toks, pos, n);
    } else {
      SingleLayout(toks, pos, n);
      ValueRoundTrip(toks, pos, n);
      SingleStep(toks, pos, n, pos + |RenderValue(n)|, pos + |RenderExpr(n)|);
    }
  }

  lemma {:induction false} ChainExprRoundTrip(toks: seq<Token>, pos: nat, n: Node)
    requires IsChain(n) && InParserForm(n) && ExprShape(toks, pos, n)
    ensures ExpressionAt(toks, pos) == Success(Parsed(n, pos + |RenderExpr(n)|))
    decreases n, 1, 1
  {
    ChainLayout(toks, pos, n);
    ChainHeadRoundTrip(toks, pos, n, pos + |RenderValue(n.args[0])|, pos + |RenderExpr(n)|);
  }

  /** The round trip of a chain whose parts lie where ChainLayout puts them. */
  lemma {:induction false} ChainHeadRoundTrip(toks: seq<Token>, pos: nat, n: Node, p: nat, e: nat)
    requires IsChain(n) && InParserForm(n) && ValueShape(toks, pos, n.args[0])
    requires p == pos + |RenderValue(n.args[0])| && OperatorAt(toks, p, n.operation)
    requires ValueShape(toks, p + 1, n.args[1])
    requires ChainShape(toks, p + 1 + |RenderValue(n.args[1])|, n, 2)
    requires e == p + 1 + |RenderValue(n.args[1])| + |RenderChain(n, 2)|
    ensures ExpressionAt(toks, pos) == Success(Parsed(n, e))
    decreases n, 1, 0
  {
    ArgForm(n, 0);
    ValueRoundTrip(toks, pos, n.args[0]);
    ChainRestRoundTrip(toks, p, n);
    ChainStart(toks, pos, n, p, p + 1 + |RenderValue(n.args[1])|, e, e);
  }

  /** The round trip of everything in a chain after its first value. */
  lemma {:induction false} ChainRestRoundTrip(toks: seq<Token>, p: nat, n: Node)
    requires IsChain(n) && InParserForm(n) && ValueShape(toks, p + 1, n.args[1])
    requires ChainShape(toks, p + 1 + |RenderValue(n.args[1])|, n, 2)
    ensures ValueAt(toks, p + 1) == Success(Parsed(n.args[1], p + 1 + |RenderValue(n.args[1])|))
    ensures ChainAt(toks, p + 1 + |RenderValue(n.args[1])|, Node.Operation(n.operation, n.args[..2])) ==
      Success(Parsed(n, p + 1 + |RenderValue(n.args[1])| + |RenderChain(n, 2)|))
    decreases n, 0, |n.args|
  {
    var a1 := n.args[1];
    ArgForm(n, 1);
    ValueRoundTrip(toks, p + 1, a1);
    ChainRoundTrip(toks, p + 1 + |RenderValue(a1)|, n, 2);
  }

  lemma {:induction false} ChainRoundTrip(toks: seq<Token>, pos: nat, n: Node, i: nat)
    requires InParserForm(n) && ChainShape(toks, pos, n, i)
    ensures ChainAt(toks, pos, Node.Operation(n.operation, n.args[..i])) ==
      Success(Parsed(n, pos + |RenderChain(n, i)|))
    decreases n, 0, |n.args| - i
  {
    if i == |n.args| {
      ChainEndStep(toks, pos, n, i);
    } else {
      var a := n.args[i];
      var q := pos + 1 + |RenderValue(a)|;
      ArgForm(n, i);
      ChainShapeStep(toks, pos, n, i);
      ValueRoundTrip(toks, pos + 1, a);
      ChainRoundTrip(toks, q, n, i + 1);
      ChainStep(toks, pos, n, i, q, q + |RenderChain(n, i + 1)|, pos + |RenderChain(n, i)|);
    }
  }

  lemma RenderNonEmpty(n: Node)
    ensures |RenderExpr(n)| > 0
  {
    if n.Operation? && |n.args| >= 2 {
      assert |RenderValue(n.args[0])| > 0;
    }
  }

  /** Parsing the rendering of a tree in parser form gives the tree back. */
  lemma ParseRenderRoundTrip(n: Node)
    requires InParserForm(n)
    ensures ParseFrom(RenderExpr(n), 0) == Success(n)
  {
    var toks := RenderExpr(n);
    assert toks[0..] == toks;
    AtSuffix(toks, 0);
    ExprRoundTrip(toks, 0, n);
    RenderNonEmpty(n);
  }
}
