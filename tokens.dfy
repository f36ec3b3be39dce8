/** Tokens of the expression language and the Tokenizer that produces them
    from a string and hands them to the parser one at a time. */
module Tokens {
  import opened Exceptions

  datatype TokenType = Letter | Operation | LeftParenthesis | RightParenthesis

  datatype Token = Token(kind: TokenType, value: string)

  /** isupper and isspace in the "C" locale. */
  predicate IsUpper(ch: char) { 'A' <= ch <= 'Z' }

  predicate IsSpace(ch: char)
  {
    ch == ' ' || ch == '\t' || ch == '\n' || ch == '\r' || ch == '\U{0B}' || ch == '\U{0C}'
  }

  predicate IsOperationChar(ch: char) { ch == 'v' || ch == '^' || ch == '!' || ch == '@' }

  /** What one input character does in Tokenizer::tokenize. */
  datatype Lexeme = Emit(token: Token) | Skip | Reject

  function Classify(ch: char): Lexeme
  {
    if ch == '(' then Emit(Token(LeftParenthesis, "("))
    else if ch == ')' then Emit(Token(RightParenthesis, ")"))
    else if IsUpper(ch) then Emit(Token(Letter, [ch]))
    else if IsSpace(ch) then Skip
    else if IsOperationChar(ch) then Emit(Token(Operation, [ch]))
    else Reject
  }

  /** Every character of s is accepted by the tokenizer. */
  predicate Lexable(s: string)
  {
    forall i :: 0 <= i < |s| ==> !Classify(s[i]).Reject?
  }

  function Emitted(ch: char): seq<Token>
  {
    if Classify(ch).Emit? then [Classify(ch).token] else []
  }

  /** The tokens that the characters of s emit, in order. */
  function TokensOf(s: string): seq<Token>
  {
    if s == [] then [] else TokensOf(s[..|s| - 1]) + Emitted(s[|s| - 1])
  }

  /** The characters of s that are not whitespace, in order. */
  function NonSpace(s: string): string
  {
    if s == [] then [] else NonSpace(s[..|s| - 1]) + (if IsSpace(s[|s| - 1]) then [] else [s[|s| - 1]])
  }

  /** A string the tokenizer accepts yields exactly one token per character
      that is not whitespace, in input order, and that token is the
      character's classification. */
  lemma {:induction false} TokensPerCharacter(s: string)
    requires Lexable(s)
    ensures |TokensOf(s)| == |NonSpace(s)|
    ensures forall j :: 0 <= j < |NonSpace(s)| ==>
      Classify(NonSpace(s)[j]) == Emit(TokensOf(s)[j])
  {
    if s != [] {
      var p := s[..|s| - 1];
      assert Lexable(p) by {
        forall i | 0 <= i < |p| ensures !Classify(p[i]).Reject? { assert p[i] == s[i]; }
      }
      TokensPerCharacter(p);
    }
  }

  /** The shapes of the tokens the tokenizer can produce. */
  predicate ProducedShape(t: Token)
  {
    match t.kind
    case Letter => |t.value| == 1 && IsUpper(t.value[0])
    case Operation => t.value in {"v", "^", "!", "@"}
    case LeftParenthesis => t.value == "("
    case RightParenthesis => t.value == ")"
  }

  lemma {:induction false} TokenShapes(s: string)
    ensures forall j :: 0 <= j < |TokensOf(s)| ==> ProducedShape(TokensOf(s)[j])
  {
    if s != [] {
      TokenShapes(s[..|s| - 1]);
    }
  }

  /** b is the position of the first character the tokenizer rejects. */
  predicate FirstReject(s: string, b: nat)
  {
    b < |s| && Classify(s[b]).Reject? && Lexable(s[..b])
  }

  class Tokenizer {
    var tokens: seq<Token>
    var k: nat

    /** The cursor never passes the end of the token list. */
    ghost predicate Valid()
      reads this
    {
      k <= |tokens|
    }

    constructor ()
      ensures Valid() && tokens == [] && k == 0
    {
      tokens, k := [], 0;
    }

    /** Appends the tokens of input. A tokenizer that already holds tokens
        throws logic_error and is left as it was; a rejected character
        throws invalid_argument after the tokens of the characters before
        it have been appended. */
    method Tokenize(input: string) returns (r: Result<()>)
      requires Valid()
      modifies this
      ensures Valid() && k == old(k)
      ensures old(tokens) != [] ==> r == Failure(LogicError("")) && tokens == old(tokens)
      ensures old(tokens) == [] ==> (r.Success? <==> Lexable(input))
      ensures old(tokens) == [] && r.Success? ==> tokens == TokensOf(input)
      ensures old(tokens) == [] && r.Failure? ==>
        r.error == InvalidArgument("") &&
        exists b: nat :: FirstReject(input, b) && tokens == TokensOf(input[..b])
    {
      if tokens != [] {
        return Failure(LogicError(""));
      }
      var i := 0;
      while i < |input|
        invariant 0 <= i <= |input|
        invariant k == 0
        invariant Lexable(input[..i])
        invariant tokens == TokensOf(input[..i])
      {
        var ch := input[i];
        assert input[..i + 1][..i] == input[..i];
        if ch == '(' {
          tokens := tokens + [Token(LeftParenthesis, "(")];
        } else if ch == ')' {
          tokens := tokens + [Token(RightParenthesis, ")")];
        } else if IsUpper(ch) {
          tokens := tokens + [Token(Letter, [ch])];
        } else if IsSpace(ch) {
        } else if IsOperationChar(ch) {
          tokens := tokens + [Token(Operation, [ch])];
        } else {
          assert FirstReject(input, i);
          return Failure(InvalidArgument(""));
        }
        ghost var done := input[..i + 1];
        assert Lexable(done) by {
          forall j | 0 <= j < i + 1 ensures !Classify(done[j]).Reject? {
            if j < i { assert done[j] == input[..i][j]; }
          }
        }
        i := i + 1;
      }
      assert input[..i] == input;
      return Success(());
    }

    predicate HasNext()
      reads this
      requires Valid()
      ensures HasNext() <==> k < |tokens|
    {
      k != |tokens|
    }

    /** The token under the cursor; out_of_range past the end. */
    function Next(): (r: Result<Token>)
      reads this
      ensures r.Success? <==> k < |tokens|
      ensures r.Success? ==> r.value == tokens[k]
      ensures r.Failure? ==> r.error == OutOfRange("")
    {
      if k < |tokens| then Success(tokens[k]) else Failure(OutOfRange(""))
    }

    /** Advances the cursor by one; out_of_range past the end. */
    method PopNext() returns (r: Result<()>)
      requires Valid()
      modifies this`k
      ensures Valid()
      ensures r.Success? <==> old(k) < |tokens|
      ensures k == if r.Success? then old(k) + 1 else old(k)
      ensures r.Failure? ==> r.error == OutOfRange("")
    {
      if k < |tokens| {
        k := k + 1;
        return Success(());
      }
      return Failure(OutOfRange(""));
    }
  }
}
