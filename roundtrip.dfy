/** Rendering and re-reading: the text `toString` gives a tree the parser built tokenizes to
    exactly the symbols the parser consumed, so parsing it again rebuilds the same tree. */
module RoundTrip {
  import opened Results
  import opened Tokenizer
  import opened Node
  import opened Grammar

  /** Trees whose every symbol the tokenizer accepts: variables are upper-case letters,
      the unary operator is `~`, and the binary operators are `∧`, `∨` and `→`. */
  predicate WellFormed(e: ExpressionNode)
  {
    match e
    case VariableNode(name) => IsVariableChar(name)
    case UnaryOperatorNode(op, operand) => op == Not && WellFormed(operand)
    case BinaryOperatorNode(op, left, right) => (op == And || op == Or || op == Implies) && WellFormed(left) && WellFormed(right)
  }

  lemma {:induction false} NegationWellFormed(e: ExpressionNode)
    requires DerivesNegation(e)
    ensures WellFormed(e)
  {
    if e.UnaryOperatorNode? {
      NegationWellFormed(e.operand);
    }
  }

  /** Every tree a grammar level derives is well formed. */
  lemma {:induction false} DerivedWellFormed(level: Level, e: ExpressionNode)
    requires Derives(level, e)
    ensures WellFormed(e)
    decreases e, 2 * Rank(level) + 1
  {
    if e.BinaryOperatorNode? && e.operator == OperatorOf(level) && Derives(level, e.left) && DerivesOperand(level, e.right) {
      DerivedWellFormed(level, e.left);
      OperandWellFormed(level, e.right);
    } else {
      OperandWellFormed(level, e);
    }
  }

  lemma {:induction false} OperandWellFormed(level: Level, e: ExpressionNode)
    requires DerivesOperand(level, e)
    ensures WellFormed(e)
    decreases e, 2 * Rank(level)
  {
    match level
    case Implication => DerivedWellFormed(Disjunction, e);
    case Disjunction => DerivedWellFormed(Conjunction, e);
    case Conjunction => NegationWellFormed(e);
  }

  predicate AllAccepted(s: string)
  {
    forall k :: 0 <= k < |s| ==> IsAccepted(s[k])
  }

  lemma AllAcceptedConcat(s: string, t: string)
    requires AllAccepted(s) && AllAccepted(t)
    ensures AllAccepted(s + t)
  {
    assert forall k :: 0 <= k < |s + t| ==> (s + t)[k] == if k < |s| then s[k] else t[k - |s|];
  }

  /** The rendering of a well-formed tree holds only characters the tokenizer accepts. */
  lemma {:induction false} RenderAccepted(e: ExpressionNode)
    requires WellFormed(e)
    ensures AllAccepted(ToString(e))
  {
    match e
    case VariableNode(name) =>
    case UnaryOperatorNode(op, operand) =>
      RenderAccepted(operand);
      AllAcceptedConcat([op], ToString(operand));
    case BinaryOperatorNode(op, left, right) =>
      RenderAccepted(left);
      RenderAccepted(right);
      assert IsWhitespace(' ');
      AllAcceptedConcat(ToString(left), " ");
      AllAcceptedConcat(ToString(left) + " ", [op]);
      AllAcceptedConcat(ToString(left) + " " + [op], " ");
      AllAcceptedConcat(ToString(left) + " " + [op] + " ", ToString(right));
  }

  /** Dropping the whitespace from the rendering of a well-formed tree leaves its symbols. */
  lemma {:induction false} RenderNonWhitespace(e: ExpressionNode)
    requires WellFormed(e)
    ensures NonWhitespace(ToString(e)) == Symbols(e)
  {
    match e
    case VariableNode(name) =>
      NonWhitespaceSymbol(name);
    case UnaryOperatorNode(op, operand) =>
      RenderNonWhitespace(operand);
      NonWhitespaceSymbol(op);
      NonWhitespaceAppend([op], ToString(operand));
    case BinaryOperatorNode(op, left, right) =>
      RenderNonWhitespace(left);
      RenderNonWhitespace(right);
      NonWhitespaceSymbol(op);
      NonWhitespaceSpaced(ToString(left), op, ToString(right));
  }

  /** A symbol of a well-formed tree survives whitespace removal. */
  lemma NonWhitespaceSymbol(c: char)
    requires IsVariableChar(c) || IsOperatorChar(c)
    ensures NonWhitespace([c]) == [c]
  {
    assert !IsWhitespace(c);
    assert [c][..0] == [];
  }

  lemma NonWhitespaceSpaced(l: string, op: char, r: string)
    requires NonWhitespace([op]) == [op]
    ensures NonWhitespace(l + " " + [op] + " " + r) == NonWhitespace(l) + [op] + NonWhitespace(r)
  {
    assert NonWhitespace(" ") == [] by {
      assert IsWhitespace(' ');
      assert " "[..0] == [];
    }
    NonWhitespaceAppend(l, " ");
    NonWhitespaceAppend(l + " ", [op]);
    NonWhitespaceAppend(l + " " + [op], " ");
    NonWhitespaceAppend(l + " " + [op] + " ", r);
  }

  /** The rendering of a well-formed tree tokenizes without error into well-typed tokens
      whose texts are exactly the tree's symbols. */
  lemma RenderTokenizes(e: ExpressionNode)
    requires WellFormed(e)
    ensures Lex(ToString(e)).Ok?
    ensures var ts := Lex(ToString(e)).value;
      WellTyped(ts) && |ts| == |Symbols(e)| && SpellsAt(ts, 0, Symbols(e))
  {
    var s := ToString(e);
    RenderAccepted(e);
    LexSucceedsIff(s);
    RenderNonWhitespace(e);
    LexValues(s);
    LexTokensPlaced(s);
    var ts := Lex(s).value;
    forall k | 0 <= k < |Symbols(e)|
      ensures ts[0 + k].value == Symbols(e)[k]
    {
      assert Values(ts)[k] == ts[k].value;
    }
  }

  /** Re-parsing the rendering of a derived tree rebuilds that tree, consumes every token and
      lists exactly its nodes in completion order. */
  lemma ReparseRoundTrip(e: ExpressionNode)
    requires Derives(Implication, e)
    ensures Lex(ToString(e)).Ok?
    ensures Parse(Lex(ToString(e)).value) == Outcome(Ok(e), |Symbols(e)|, PostOrder(e))
  {
    DerivedWellFormed(Implication, e);
    RenderTokenizes(e);
    var ts := Lex(ToString(e)).value;
    BinaryComplete(Implication, ts, 0, [], e);
  }

  /** What a successful parse returns is a derived tree, built from the first tokens, with
      every node listed once in completion order; the tokens after it cannot continue it. */
  lemma ParseSound(ts: seq<Token>)
    requires WellTyped(ts)
    ensures var o := Parse(ts);
      o.result.Ok? ==>
        && Derives(Implication, o.result.value)
        && o.position == |Symbols(o.result.value)|
        && SpellsAt(ts, 0, Symbols(o.result.value))
        && o.subExpressions == PostOrder(o.result.value)
        && (o.position == |ts| || ts[o.position].value !in {Implies, Or, And})
  {
    BinarySound(Implication, ts, 0, []);
    var o := Parse(ts);
    if o.result.Ok? {
      assert [] + PostOrder(o.result.value) == PostOrder(o.result.value);
    }
  }

  /** Parsing the rendering of whatever a line parsed to gives the same tree again. */
  lemma ParseRenderParse(s: string)
    requires Lex(s).Ok? && Parse(Lex(s).value).result.Ok?
    ensures var e := Parse(Lex(s).value).result.value;
      Lex(ToString(e)).Ok? && Parse(Lex(ToString(e)).value).result == Ok(e)
  {
    LexTokensPlaced(s);
    ParseSound(Lex(s).value);
    ReparseRoundTrip(Parse(Lex(s).value).result.value);
  }

  /** Two derived trees with the same rendering are the same tree. */
  lemma RenderInjective(e1: ExpressionNode, e2: ExpressionNode)
    requires Derives(Implication, e1) && Derives(Implication, e2)
    requires ToString(e1) == ToString(e2)
    ensures e1 == e2
  {
    ReparseRoundTrip(e1);
    ReparseRoundTrip(e2);
  }

  // ----- Every node of a derived tree is itself derived -----

  lemma NegationIsImplication(e: ExpressionNode)
    requires DerivesNegation(e)
    ensures Derives(Implication, e)
  {
    assert DerivesOperand(Conjunction, e);
    assert Derives(Conjunction, e);
    assert DerivesOperand(Disjunction, e);
    assert Derives(Disjunction, e);
    assert DerivesOperand(Implication, e);
  }

  lemma WidenToImplication(level: Level, e: ExpressionNode)
    requires Derives(level, e)
    ensures Derives(Implication, e)
  {
    if level == Conjunction {
      assert DerivesOperand(Disjunction, e);
      assert Derives(Disjunction, e);
    }
    if level != Implication {
      assert DerivesOperand(Implication, e);
    }
  }

  lemma {:induction false} NegationNodesDerived(e: ExpressionNode)
    requires DerivesNegation(e)
    ensures forall x :: x in PostOrder(e) ==> Derives(Implication, x)
  {
    NegationIsImplication(e);
    if e.UnaryOperatorNode? {
      NegationNodesDerived(e.operand);
    }
  }

  lemma {:induction false} NodesDerived(level: Level, e: ExpressionNode)
    requires Derives(level, e)
    ensures forall x :: x in PostOrder(e) ==> Derives(Implication, x)
    decreases e, 2 * Rank(level) + 1
  {
    if e.BinaryOperatorNode? && e.operator == OperatorOf(level) && Derives(level, e.left) && DerivesOperand(level, e.right) {
      WidenToImplication(level, e);
      NodesDerived(level, e.left);
      OperandNodesDerived(level, e.right);
    } else {
      OperandNodesDerived(level, e);
    }
  }

  lemma {:induction false} OperandNodesDerived(level: Level, e: ExpressionNode)
    requires DerivesOperand(level, e)
    ensures forall x :: x in PostOrder(e) ==> Derives(Implication, x)
    decreases e, 2 * Rank(level)
  {
    match level
    case Implication => NodesDerived(Disjunction, e);
    case Disjunction => NodesDerived(Conjunction, e);
    case Conjunction => NegationNodesDerived(e);
  }

  // ----- Worked examples -----

  /** `∧` binds tighter than `∨`: `A ∨ B ∧ C` reads as `A ∨ (B ∧ C)`. */
  lemma ConjunctionBindsTighter()
    ensures Lex("A ∨ B ∧ C").Ok?
    ensures Parse(Lex("A ∨ B ∧ C").value).result
      == Ok(BinaryOperatorNode(Or, VariableNode('A'), BinaryOperatorNode(And, VariableNode('B'), VariableNode('C'))))
  {
    var e := BinaryOperatorNode(Or, VariableNode('A'), BinaryOperatorNode(And, VariableNode('B'), VariableNode('C')));
    assert ToString(e) == "A ∨ B ∧ C";
    assert Derives(Implication, e);
    ReparseRoundTrip(e);
  }

  /** Binary operators group to the left: `A → B → C` reads as `(A → B) → C`. */
  lemma ImplicationGroupsLeft()
    ensures Lex("A → B → C").Ok?
    ensures Parse(Lex("A → B → C").value).result
      == Ok(BinaryOperatorNode(Implies, BinaryOperatorNode(Implies, VariableNode('A'), VariableNode('B')), VariableNode('C')))
  {
    var e := BinaryOperatorNode(Implies, BinaryOperatorNode(Implies, VariableNode('A'), VariableNode('B')), VariableNode('C'));
    assert ToString(e) == "A → B → C";
    assert Derives(Implication, e);
    ReparseRoundTrip(e);
  }

  /** Negation nests to the right: `~~A` reads as `~(~A)`. */
  lemma NegationNests()
    ensures Lex("~~A").Ok?
    ensures Parse(Lex("~~A").value).result == Ok(UnaryOperatorNode(Not, UnaryOperatorNode(Not, VariableNode('A'))))
  {
    var e := UnaryOperatorNode(Not, UnaryOperatorNode(Not, VariableNode('A')));
    assert ToString(e) == "~~A";
    assert Derives(Implication, e);
    ReparseRoundTrip(e);
  }

  /** An operator with nothing after it fails at the end of the input. */
  lemma MissingOperandAtEnd()
    ensures Lex("A ∧").Ok? && Lex("A ∧").value == [Token(VariableToken, 'A', 0), Token(OperatorToken, And, 2)]
    ensures Parse(Lex("A ∧").value).result == Err(VariableExpectedAtEndOfInput)
  {
    var ts := [Token(VariableToken, 'A', 0), Token(OperatorToken, And, 2)];
    assert Lex("A ∧").Ok? && Lex("A ∧").value == ts by {
      assert "A"[..0] == "";
      assert [] + [Token(VariableToken, 'A', 0)] == [Token(VariableToken, 'A', 0)];
      assert "A "[..1] == "A";
      assert Lex("A ").value == [Token(VariableToken, 'A', 0)];
      assert "A ∧"[..2] == "A ";
    }
    assert Negation(ts, 2, [VariableNode('A')]).result == Err(VariableExpectedAtEndOfInput);
  }

  /** Tokens that cannot continue the expression are left unread: `A B` parses as `A`. */
  lemma TrailingTokensIgnored()
    ensures Lex("A B").Ok? && Lex("A B").value == [Token(VariableToken, 'A', 0), Token(VariableToken, 'B', 2)]
    ensures Parse(Lex("A B").value) == Outcome(Ok(VariableNode('A')), 1, [VariableNode('A')])
  {
    var ts := [Token(VariableToken, 'A', 0), Token(VariableToken, 'B', 2)];
    assert Lex("A B").Ok? && Lex("A B").value == ts by {
      assert "A"[..0] == "";
      assert [] + [Token(VariableToken, 'A', 0)] == [Token(VariableToken, 'A', 0)];
      assert "A "[..1] == "A";
      assert Lex("A ").value == [Token(VariableToken, 'A', 0)];
      assert "A B"[..2] == "A ";
    }
  }

  /** A character outside the alphabets is reported with its 1-based position. */
  lemma InvalidCharacterReported()
    ensures Lex("A + B") == Err(InvalidCharacter('+', 3))
  {
    assert "A + B"[..4] == "A + ";
    assert "A + "[..3] == "A +";
    assert "A +"[..2] == "A ";
    assert "A "[..1] == "A";
    assert "A"[..0] == "";
  }
}
