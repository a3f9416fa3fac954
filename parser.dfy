/** The class `Parser` of src/parser.ts: a recursive-descent parser over a token array whose
    state is the index of the current token and the list of every node it has built, in the
    order their construction completed. Each method is proved to leave exactly the state and
    result that the corresponding function of module Grammar describes. */
module Parsing {
  import opened Results
  import opened Tokenizer
  import opened Node
  import opened Grammar

  class Parser {
    /** Every node built so far, in completion order. */
    var subExpressions: seq<ExpressionNode>
    const tokens: seq<Token>
    /** The index of the current token. */
    var position: nat

    ghost predicate Valid()
      reads this
    {
      position <= |tokens|
    }

    constructor (tokens: seq<Token>)
      ensures Valid()
      ensures this.tokens == tokens && position == 0 && subExpressions == []
    {
      this.subExpressions := [];
      this.tokens := tokens;
      this.position := 0;
    }

    /** `parseExpression`: the whole grammar, from its loosest level. */
    method ParseExpression() returns (r: Result<ExpressionNode, ParseError>)
      requires Valid()
      modifies this
      ensures Valid()
      ensures Outcome(r, position, subExpressions) == Binary(Implication, tokens, old(position), old(subExpressions))
      decreases |tokens| - position, 8
    {
      r := ParseImplication();
    }

    method ParseImplication() returns (r: Result<ExpressionNode, ParseError>)
      requires Valid()
      modifies this
      ensures Valid()
      ensures Outcome(r, position, subExpressions) == Binary(Implication, tokens, old(position), old(subExpressions))
      decreases |tokens| - position, 7
    {
      var left := ParseDisjunction();
      if left.Err? {
        return left;
      }

      while Match(Implies)
        invariant Valid() && old(position) < position
        invariant left.Ok?
        invariant Binary(Implication, tokens, old(position), old(subExpressions))
          == Fold(Implication, tokens, position, subExpressions, left.value)
        decreases |tokens| - position
      {
        var consumed := ConsumeToken();
        var right := ParseDisjunction();

        if right.Err? {
          return right;
        }

        left := Ok(BinaryOperatorNode(Implies, left.value, right.value));
        subExpressions := subExpressions + [left.value];
      }

      return Ok(left.value);
    }

    method ParseDisjunction() returns (r: Result<ExpressionNode, ParseError>)
      requires Valid()
      modifies this
      ensures Valid()
      ensures Outcome(r, position, subExpressions) == Binary(Disjunction, tokens, old(position), old(subExpressions))
      decreases |tokens| - position, 5
    {
      var left := ParseConjunction();
      if left.Err? {
        return left;
      }

      while Match(Or)
        invariant Valid() && old(position) < position
        invariant left.Ok?
        invariant Binary(Disjunction, tokens, old(position), old(subExpressions))
          == Fold(Disjunction, tokens, position, subExpressions, left.value)
        decreases |tokens| - position
      {
        var consumed := ConsumeToken();
        var right := ParseConjunction();

        if right.Err? {
          return right;
        }

        left := Ok(BinaryOperatorNode(Or, left.value, right.value));
        subExpressions := subExpressions + [left.value];
      }

      return Ok(left.value);
    }

    method ParseConjunction() returns (r: Result<ExpressionNode, ParseError>)
      requires Valid()
      modifies this
      ensures Valid()
      ensures Outcome(r, position, subExpressions) == Binary(Conjunction, tokens, old(position), old(subExpressions))
      decreases |tokens| - position, 3
    {
      var left := ParseNegation();
      if left.Err? {
        return left;
      }

      while Match(And)
        invariant Valid() && old(position) < position
        invariant left.Ok?
        invariant Binary(Conjunction, tokens, old(position), old(subExpressions))
          == Fold(Conjunction, tokens, position, subExpressions, left.value)
        decreases |tokens| - position
      {
        var consumed := ConsumeToken();
        var right := ParseNegation();

        if right.Err? {
          return right;
        }

        left := Ok(BinaryOperatorNode(And, left.value, right.value));
        subExpressions := subExpressions + [left.value];
      }

      return Ok(left.value);
    }

    method ParseNegation() returns (r: Result<ExpressionNode, ParseError>)
      requires Valid()
      modifies this
      ensures Valid()
      ensures Outcome(r, position, subExpressions) == Negation(tokens, old(position), old(subExpressions))
      decreases |tokens| - position, 1
    {
      if Match(Not) {
        var consumed := ConsumeToken();
        var operand := ParseNegation();

        if operand.Err? {
          return operand;
        }

        var node := UnaryOperatorNode(Not, operand.value);
        subExpressions := subExpressions + [node];
        return Ok(node);
      }

      r := ParsePrimary();
    }

    method ParsePrimary() returns (r: Result<ExpressionNode, ParseError>)
      requires Valid()
      modifies this
      ensures Valid()
      ensures Outcome(r, position, subExpressions) == Primary(tokens, old(position), old(subExpressions))
    {
      var token := CurrentToken();

      if token.Some? && token.value.tokenType == VariableToken {
        var consumed := ConsumeToken();
        var node := VariableNode(token.value.value);
        subExpressions := subExpressions + [node];
        return Ok(node);
      }

      return Err(if token.Some? then VariableExpectedAt(token.value.position + 1) else VariableExpectedAtEndOfInput);
    }

    /** `currentToken`: the token at the index, or nothing past the end. */
    function CurrentToken(): (t: Option<Token>)
      reads this
      ensures t.Some? <==> position < |tokens|
      ensures t.Some? ==> t.value == tokens[position]
    {
      if position < |tokens| then Some(tokens[position]) else None
    }

    /** `consumeToken`: returns the current token and advances past it. */
    method ConsumeToken() returns (t: Token)
      requires Valid() && position < |tokens|
      modifies this`position
      ensures Valid()
      ensures position == old(position) + 1 && t == tokens[old(position)]
    {
      t := tokens[position];
      position := position + 1;
    }

    /** `match`: whether the current token has the text `value`. */
    function Match(value: char): (b: bool)
      reads this
      ensures b <==> Matches(tokens, position, value)
    {
      var token := CurrentToken();
      token.Some? && token.value.value == value
    }
  }
}
