/** The recursive-descent parser. ValueAt, ExpressionAt, ChainAt and
    ParseFrom say, over the token list and a cursor position, what
    parseValue, parseExpression (with its loop) and parse compute; the
    methods ParseValue, ParseExpression and Parse do the same work by moving
    the cursor of a Tokenizer, and are proved to agree with them. */
module Parser {
  import opened Exceptions
  import opened Tokens
  import opened Nodes

  // The messages of the invalid_argument exceptions the parser throws.
  const ParenMissing := ") missing"
  const ValueExpected := "letter or ( expected"
  const SameOperationOnly := "only the same operation allowed"
  const EmptyInput := "empty string"
  const TooManyTokens := "too many tokens"

  /** A parsed subtree and the position of the first token after it. */
  datatype Parsed = Parsed(node: Node, next: nat)

  /** The one-argument "!" Operation that parseValue builds around a
      negated value. */
  function Negation(n: Node): Node
  {
    AddArg(MakeOperation(Token(TokenType.Operation, "!")).value, n)
  }

  function Negated(neg: bool, n: Node): Node
  {
    if neg then Negation(n) else n
  }

  /** The trees the parser builds: every Operation is either a "!" with one
      argument or has at least two arguments. */
  predicate InParserForm(n: Node)
  {
    match n
    case Letter(_) => true
    case Operation(op, args) =>
      ((op == "!" && |args| == 1) || |args| >= 2) &&
      forall i :: 0 <= i < |args| ==> InParserForm(args[i])
  }

  lemma {:induction false} ParserFormWellFormed(n: Node)
    requires InParserForm(n)
    ensures WellFormed(n)
  {
    match n
    case Letter(_) =>
    case Operation(_, args) =>
      forall i | 0 <= i < |args| ensures WellFormed(args[i]) {
        ParserFormWellFormed(args[i]);
      }
  }

  /** parseValue: an optional "!" and then a Letter or "(" expression ")". */
  function ValueAt(toks: seq<Token>, pos: nat): (r: Result<Parsed>)
    requires pos <= |toks|
    ensures r.Success? ==> pos < r.value.next <= |toks|
    decreases |toks| - pos, 0
  {
    if pos == |toks| then Failure(OutOfRange(""))
    else
      var neg := toks[pos].kind == TokenType.Operation && toks[pos].value == "!";
      var p := if neg then pos + 1 else pos;
      if p == |toks| then Failure(OutOfRange(""))
      else if toks[p].kind == TokenType.Letter then
        Success(Parsed(Negated(neg, MakeLetter(toks[p]).value), p + 1))
      else if toks[p].kind == TokenType.LeftParenthesis then
        match ExpressionAt(toks, p + 1)
        case Failure(e) => Failure(e)
        case Success(Parsed(e, q)) =>
          if q == |toks| then Failure(OutOfRange(""))
          else if toks[q].kind != TokenType.RightParenthesis then Failure(InvalidArgument(ParenMissing))
          else Success(Parsed(Negated(neg, e), q + 1))
      else Failure(InvalidArgument(ValueExpected))
  }

  /** parseExpression: a value, and if an Operation token follows it, a
      chain of values joined by that operation. */
  function ExpressionAt(toks: seq<Token>, pos: nat): (r: Result<Parsed>)
    requires pos <= |toks|
    ensures r.Success? ==> pos < r.value.next <= |toks|
    decreases |toks| - pos, 1
  {
    match ValueAt(toks, pos)
    case Failure(e) => Failure(e)
    case Success(Parsed(v, p)) =>
      if p == |toks| || toks[p].kind != TokenType.Operation then Success(Parsed(v, p))
      else
        match ValueAt(toks, p + 1)
        case Failure(e) => Failure(e)
        case Success(Parsed(v2, q)) =>
          ChainAt(toks, q, AddArg(AddArg(MakeOperation(toks[p]).value, v), v2))
  }

  /** The loop of parseExpression: more "op value" pairs with the same
      operation as the Operation built so far. */
  function ChainAt(toks: seq<Token>, pos: nat, acc: Node): (r: Result<Parsed>)
    requires pos <= |toks| && acc.Operation? && |acc.args| >= 2
    ensures r.Success? ==> pos <= r.value.next <= |toks|
    decreases |toks| - pos, 2
  {
    if pos == |toks| || toks[pos].kind != TokenType.Operation then Success(Parsed(acc, pos))
    else if toks[pos].value != acc.operation then Failure(InvalidArgument(SameOperationOnly))
    else
      match ValueAt(toks, pos + 1)
      case Failure(e) => Failure(e)
      case Success(Parsed(v, q)) => ChainAt(toks, q, AddArg(acc, v))
  }

  // The trees ValueAt, ExpressionAt and ChainAt build are in parser form.

  lemma {:induction false} ValueForm(toks: seq<Token>, pos: nat)
    requires pos <= |toks|
    ensures ValueAt(toks, pos).Success? ==> InParserForm(ValueAt(toks, pos).value.node)
    decreases |toks| - pos, 0
  {
    if pos < |toks| {
      var neg := toks[pos].kind == TokenType.Operation && toks[pos].value == "!";
      var p := if neg then pos + 1 else pos;
      if p < |toks| && toks[p].kind == TokenType.LeftParenthesis {
        ExpressionForm(toks, p + 1);
      }
    }
  }

  lemma {:induction false} ExpressionForm(toks: seq<Token>, pos: nat)
    requires pos <= |toks|
    ensures ExpressionAt(toks, pos).Success? ==> InParserForm(ExpressionAt(toks, pos).value.node)
    decreases |toks| - pos, 1
  {
    ValueForm(toks, pos);
    match ValueAt(toks, pos)
    case Failure(_) =>
    case Success(Parsed(v, p)) =>
      if p < |toks| && toks[p].kind == TokenType.Operation {
        ValueForm(toks, p + 1);
        match ValueAt(toks, p + 1)
        case Failure(_) =>
        case Success(Parsed(v2, q)) =>
          ChainForm(toks, q, AddArg(AddArg(MakeOperation(toks[p]).value, v), v2));
      }
  }

  lemma {:induction false} ChainForm(toks: seq<Token>, pos: nat, acc: Node)
    requires pos <= |toks| && acc.Operation? && |acc.args| >= 2 && InParserForm(acc)
    ensures ChainAt(toks, pos, acc).Success? ==> InParserForm(ChainAt(toks, pos, acc).value.node)
    decreases |toks| - pos, 2
  {
    if pos < |toks| && toks[pos].kind == TokenType.Operation && toks[pos].value == acc.operation {
      ValueForm(toks, pos + 1);
      match ValueAt(toks, pos + 1)
      case Failure(_) =>
      case Success(Parsed(v, q)) =>
        assert forall i :: 0 <= i < |acc.args| ==> AddArg(acc, v).args[i] == acc.args[i];
        ChainForm(toks, q, AddArg(acc, v));
    }
  }

  /** parse: an expression that takes up all remaining tokens. */
  function ParseFrom(toks: seq<Token>, pos: nat): (r: Result<Node>)
    requires pos <= |toks|
    ensures r.Success? ==> InParserForm(r.value) && WellFormed(r.value)
  {
    if pos == |toks| then Failure(InvalidArgument(EmptyInput))
    else
      match ExpressionAt(toks, pos)
      case Failure(e) => Failure(e)
      case Success(Parsed(n, q)) =>
        if q != |toks| then Failure(InvalidArgument(TooManyTokens))
        else ExpressionForm(toks, pos); ParserFormWellFormed(n); Success(n)
  }

  // The error conditions, each stated on its own.

  /** parse rejects an empty token range and one with tokens left over, and
      otherwise succeeds exactly when parseExpression consumes every token. */
  lemma ParseOutcome(toks: seq<Token>, pos: nat)
    requires pos <= |toks|
    ensures pos == |toks| ==> ParseFrom(toks, pos) == Failure(InvalidArgument(EmptyInput))
    ensures pos < |toks| && ExpressionAt(toks, pos).Success? && ExpressionAt(toks, pos).value.next < |toks| ==>
      ParseFrom(toks, pos) == Failure(InvalidArgument(TooManyTokens))
    ensures ParseFrom(toks, pos).Success? <==>
      pos < |toks| && ExpressionAt(toks, pos).Success? && ExpressionAt(toks, pos).value.next == |toks|
    ensures ParseFrom(toks, pos).Success? ==> ParseFrom(toks, pos).value == ExpressionAt(toks, pos).value.node
  {
  }

  /** After an optional "!", a right parenthesis or an Operation cannot
      start a value; a "!" after the optional one is such an Operation. */
  lemma NoValueStart(toks: seq<Token>, pos: nat)
    requires pos < |toks|
    requires var neg := toks[pos].kind == TokenType.Operation && toks[pos].value == "!";
      var p := if neg then pos + 1 else pos;
      p < |toks| &&
      (toks[p].kind == TokenType.RightParenthesis || (toks[p].kind == TokenType.Operation && (neg || toks[p].value != "!")))
    ensures ValueAt(toks, pos) == Failure(InvalidArgument(ValueExpected))
  {
  }

  /** A second "!" right after the first is not a value. */
  lemma DoubleNegation(toks: seq<Token>, pos: nat)
    requires pos + 1 < |toks|
    requires toks[pos] == Token(TokenType.Operation, "!") && toks[pos + 1] == Token(TokenType.Operation, "!")
    ensures ValueAt(toks, pos) == Failure(InvalidArgument(ValueExpected))
    ensures ExpressionAt(toks, pos) == Failure(InvalidArgument(ValueExpected))
  {
    NoValueStart(toks, pos);
  }

  /** A value cut off by the end of the tokens, after a "!" or before the
      ")" of a group, makes Tokenizer::next throw out_of_range. */
  lemma ValueAtEnd(toks: seq<Token>, pos: nat)
    requires pos <= |toks|
    ensures pos == |toks| ==> ValueAt(toks, pos) == Failure(OutOfRange(""))
    ensures pos + 1 == |toks| && toks[pos] == Token(TokenType.Operation, "!") ==>
      ValueAt(toks, pos) == Failure(OutOfRange(""))
    ensures (pos < |toks| && toks[pos].kind == TokenType.LeftParenthesis &&
             ExpressionAt(toks, pos + 1).Success? && ExpressionAt(toks, pos + 1).value.next == |toks|) ==>
      ValueAt(toks, pos) == Failure(OutOfRange(""))
  {
  }

  /** A group whose expression is followed by anything but ")" lacks its
      closing parenthesis. */
  lemma MissingParenthesis(toks: seq<Token>, pos: nat)
    requires pos < |toks| && toks[pos].kind == TokenType.LeftParenthesis
    requires ExpressionAt(toks, pos + 1).Success?
    requires var q := ExpressionAt(toks, pos + 1).value.next;
      q < |toks| && toks[q].kind != TokenType.RightParenthesis
    ensures ValueAt(toks, pos) == Failure(InvalidArgument(ParenMissing))
  {
  }

  /** A different operator later in a chain is rejected. */
  lemma MixedOperators(toks: seq<Token>, pos: nat, acc: Node)
    requires pos < |toks| && acc.Operation? && |acc.args| >= 2
    requires toks[pos].kind == TokenType.Operation && toks[pos].value != acc.operation
    ensures ChainAt(toks, pos, acc) == Failure(InvalidArgument(SameOperationOnly))
  {
  }

  /** A value not followed by an Operation token is the whole expression, and
      the token after it is left for the caller. */
  lemma SingleValue(toks: seq<Token>, pos: nat)
    requires pos <= |toks| && ValueAt(toks, pos).Success?
    requires var p := ValueAt(toks, pos).value.next; p == |toks| || toks[p].kind != TokenType.Operation
    ensures ExpressionAt(toks, pos) == ValueAt(toks, pos)
  {
  }

  /** A chain ends at the first token that is not an Operation, with the
      arguments gathered so far. */
  lemma ChainEnds(toks: seq<Token>, pos: nat, acc: Node)
    requires pos <= |toks| && acc.Operation? && |acc.args| >= 2
    requires pos == |toks| || toks[pos].kind != TokenType.Operation
    ensures ChainAt(toks, pos, acc) == Success(Parsed(acc, pos))
  {
  }

  /** r is what a parsing method returns when the specification gives s,
      and k is then the cursor. */
  predicate Agrees(r: Result<Node>, s: Result<Parsed>, k: nat)
  {
    match s
    case Success(Parsed(n, q)) => r == Success(n) && k == q
    case Failure(e) => r == Failure(e)
  }

  method ParseValue(t: Tokenizer) returns (r: Result<Node>)
    requires t.Valid()
    modifies t`k
    ensures t.Valid()
    ensures Agrees(r, ValueAt(t.tokens, old(t.k)), t.k)
    decreases |t.tokens| - t.k, 0
  {
    ghost var k0 := t.k;
    var top := t.Next();
    if top.Failure? {
      return Failure(top.error);
    }
    var hasNegation := false;
    if top.value.kind == TokenType.Operation && top.value.value == "!" {
      hasNegation := true;
      var popped := t.PopNext();
      top := t.Next();
      if top.Failure? {
        return Failure(top.error);
      }
    }
    if top.value.kind == TokenType.Letter {
      var popped := t.PopNext();
      var value := MakeLetter(top.value).value;
      if !hasNegation {
        return Success(value);
      } else {
        return Success(Negation(value));
      }
    } else if top.value.kind == TokenType.LeftParenthesis {
      var popped := t.PopNext();
      var result := ParseExpression(t);
      if result.Failure? {
        return result;
      }
      var last := t.Next();
      if last.Failure? {
        return Failure(last.error);
      }
      if last.value.kind != TokenType.RightParenthesis {
        return Failure(InvalidArgument(ParenMissing));
      }
      popped := t.PopNext();
      if !hasNegation {
        return result;
      } else {
        return Success(Negation(result.value));
      }
    } else {
      return Failure(InvalidArgument(ValueExpected));
    }
  }

  method ParseExpression(t: Tokenizer) returns (r: Result<Node>)
    requires t.Valid()
    modifies t`k
    ensures t.Valid()
    ensures Agrees(r, ExpressionAt(t.tokens, old(t.k)), t.k)
    decreases |t.tokens| - t.k, 1
  {
    ghost var k0 := t.k;
    var val := ParseValue(t);
    if val.Failure? {
      return val;
    }
    if t.HasNext() {
      var op := t.Next().value;
      if op.kind != TokenType.Operation {
        return val;
      }
      var popped := t.PopNext();
      var val2 := ParseValue(t);
      if val2.Failure? {
        return val2;
      }
      var result := AddArg(AddArg(MakeOperation(op).value, val.value), val2.value);
      while t.HasNext()
        invariant t.Valid()
        invariant result.Operation? && |result.args| >= 2 && result.operation == op.value
        invariant ChainAt(t.tokens, t.k, result) == ExpressionAt(t.tokens, k0)
        decreases |t.tokens| - t.k
      {
        var nextOp := t.Next().value;
        if nextOp.kind != TokenType.Operation {
          break;
        }
        if nextOp.value != op.value {
          return Failure(InvalidArgument(SameOperationOnly));
        }
        popped := t.PopNext();
        var v := ParseValue(t);
        if v.Failure? {
          return v;
        }
        result := AddArg(result, v.value);
      }
      return Success(result);
    } else {
      return val;
    }
  }

  method Parse(t: Tokenizer) returns (r: Result<Node>)
    requires t.Valid()
    modifies t`k
    ensures t.Valid()
    ensures r == ParseFrom(t.tokens, old(t.k))
    ensures r.Success? ==> t.k == |t.tokens|
  {
    if !t.HasNext() {
      return Failure(InvalidArgument(EmptyInput));
    }
    var result := ParseExpression(t);
    if result.Failure? {
      return result;
    }
    if t.HasNext() {
      return Failure(InvalidArgument(TooManyTokens));
    }
    return result;
  }
}
