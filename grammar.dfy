/** The grammar that the recursive-descent parser of src/parser.ts implements, written as
    functions over the token sequence and the parser's state (token index and the list of
    nodes built so far), together with the trees each grammar level derives.

      Implication := Disjunction ( "→" Disjunction )*
      Disjunction := Conjunction ( "∨" Conjunction )*
      Conjunction := Negation ( "∧" Negation )*
      Negation    := "~" Negation | Primary
      Primary     := variable token                                                  */
module Grammar {
  import opened Results
  import opened Tokenizer
  import opened Node

  /** `Variable expected at position …`: the ONE-based position of the offending token, or the
      end of the input. */
  datatype ParseError = VariableExpectedAt(position: nat) | VariableExpectedAtEndOfInput

  /** The parser after a call: what the call returned, the token index and `subExpressions`. */
  datatype Outcome = Outcome(result: Result<ExpressionNode, ParseError>, position: nat, subExpressions: seq<ExpressionNode>)

  /** The three left-associative binary levels, loosest first. */
  datatype Level = Implication | Disjunction | Conjunction

  function OperatorOf(level: Level): char
  {
    match level
    case Implication => Implies
    case Disjunction => Or
    case Conjunction => And
  }

  function Rank(level: Level): nat
  {
    match level
    case Implication => 3
    case Disjunction => 2
    case Conjunction => 1
  }

  /** The binary operators that bind at `level` or tighter. */
  function BindsAt(level: Level): set<char>
  {
    match level
    case Implication => {Implies, Or, And}
    case Disjunction => {Or, And}
    case Conjunction => {And}
  }

  /** The binary operators that bind strictly tighter than `level`. */
  function BindsTighter(level: Level): set<char>
  {
    match level
    case Implication => {Or, And}
    case Disjunction => {And}
    case Conjunction => {}
  }

  /** `match(value)`: there is a current token and its text is `value`. */
  predicate Matches(ts: seq<Token>, position: nat, value: char)
  {
    position < |ts| && ts[position].value == value
  }

  /** The failure the parser reports: the current token, which is not a variable, or the end. */
  predicate FailsAtCurrentToken(ts: seq<Token>, o: Outcome)
    requires o.result.Err?
  {
    if o.position < |ts| then
      ts[o.position].tokenType == OperatorToken
      && o.result.error == VariableExpectedAt(ts[o.position].position + 1)
    else
      o.position == |ts| && o.result.error == VariableExpectedAtEndOfInput
  }

  /** What every parsing step guarantees about the state it leaves behind: the index moves
      forward and stays in range, success consumes at least one token, nodes are only ever
      appended, and a failure names the token it stopped at. */
  predicate Advances(ts: seq<Token>, position: nat, subs: seq<ExpressionNode>, o: Outcome)
  {
    && position <= o.position <= |ts|
    && (o.result.Ok? ==> position < o.position)
    && subs <= o.subExpressions
    && (o.result.Err? ==> FailsAtCurrentToken(ts, o))
  }

  /** `parsePrimary`. */
  function Primary(ts: seq<Token>, position: nat, subs: seq<ExpressionNode>): (o: Outcome)
    requires position <= |ts|
    ensures Advances(ts, position, subs, o)
    ensures o.result.Ok? ==> o.position == position + 1 && o.subExpressions == subs + [o.result.value]
    ensures o.result.Err? ==> o.position == position && o.subExpressions == subs
  {
    if position < |ts| && ts[position].tokenType == VariableToken then
      var node := VariableNode(ts[position].value);
      Outcome(Ok(node), position + 1, subs + [node])
    else if position < |ts| then
      Outcome(Err(VariableExpectedAt(ts[position].position + 1)), position, subs)
    else
      Outcome(Err(VariableExpectedAtEndOfInput), position, subs)
  }

  /** `parseNegation`: a run of `~` is right-recursive. */
  function Negation(ts: seq<Token>, position: nat, subs: seq<ExpressionNode>): (o: Outcome)
    requires position <= |ts|
    ensures Advances(ts, position, subs, o)
    decreases |ts| - position, 0
  {
    if Matches(ts, position, Not) then
      var operand := Negation(ts, position + 1, subs);
      if operand.result.Err? then operand
      else
        var node := UnaryOperatorNode(Not, operand.result.value);
        Outcome(Ok(node), operand.position, operand.subExpressions + [node])
    else
      Primary(ts, position, subs)
  }

  /** The operand parser of a binary level: the next tighter level, or negation below `∧`. */
  function Operand(level: Level, ts: seq<Token>, position: nat, subs: seq<ExpressionNode>): (o: Outcome)
    requires position <= |ts|
    ensures Advances(ts, position, subs, o)
    decreases |ts| - position, 2 * Rank(level)
  {
    match level
    case Implication => Binary(Disjunction, ts, position, subs)
    case Disjunction => Binary(Conjunction, ts, position, subs)
    case Conjunction => Negation(ts, position, subs)
  }

  /** `parseImplication`, `parseDisjunction` and `parseConjunction`: one operand, then the
      loop. */
  function Binary(level: Level, ts: seq<Token>, position: nat, subs: seq<ExpressionNode>): (o: Outcome)
    requires position <= |ts|
    ensures Advances(ts, position, subs, o)
    decreases |ts| - position, 2 * Rank(level) + 1
  {
    var left := Operand(level, ts, position, subs);
    if left.result.Err? then left
    else Fold(level, ts, left.position, left.subExpressions, left.result.value)
  }

  /** The `while (this.match(op))` loop of a binary level: each further operand is folded into
      a new left operand. */
  function Fold(level: Level, ts: seq<Token>, position: nat, subs: seq<ExpressionNode>, left: ExpressionNode): (o: Outcome)
    requires position <= |ts|
    ensures position <= o.position <= |ts|
    ensures subs <= o.subExpressions
    ensures o.result.Err? ==> FailsAtCurrentToken(ts, o)
    decreases |ts| - position, 0
  {
    if Matches(ts, position, OperatorOf(level)) then
      var right := Operand(level, ts, position + 1, subs);
      if right.result.Err? then right
      else
        var node := BinaryOperatorNode(OperatorOf(level), left, right.result.value);
        Fold(level, ts, right.position, right.subExpressions + [node], node)
    else
      Outcome(Ok(left), position, subs)
  }

  /** `parseExpression` on a fresh parser. */
  function Parse(ts: seq<Token>): (o: Outcome)
    ensures Advances(ts, 0, [], o)
  {
    Binary(Implication, ts, 0, [])
  }

  // ----- The trees each grammar symbol derives -----

  /** Trees derived from Negation: a variable, or `~` applied to such a tree. */
  predicate DerivesNegation(e: ExpressionNode)
  {
    match e
    case VariableNode(name) => IsVariableChar(name)
    case UnaryOperatorNode(op, operand) => op == Not && DerivesNegation(operand)
    case BinaryOperatorNode(_, _, _) => false
  }

  /** Trees derived from a binary level: the level's operator applied to a tree of the same
      level on the left and an operand-level tree on the right, or an operand-level tree. */
  predicate Derives(level: Level, e: ExpressionNode)
    decreases e, 2 * Rank(level) + 1
  {
    || (&& e.BinaryOperatorNode?
        && e.operator == OperatorOf(level)
        && Derives(level, e.left)
        && DerivesOperand(level, e.right))
    || DerivesOperand(level, e)
  }

  /** Trees derived from the operand of a binary level. */
  predicate DerivesOperand(level: Level, e: ExpressionNode)
    decreases e, 2 * Rank(level)
  {
    match level
    case Implication => Derives(Disjunction, e)
    case Disjunction => Derives(Conjunction, e)
    case Conjunction => DerivesNegation(e)
  }

  /** The tokens from `position` on spell `w`. */
  predicate SpellsAt(ts: seq<Token>, position: nat, w: seq<char>)
  {
    position + |w| <= |ts| && forall k :: 0 <= k < |w| ==> ts[position + k].value == w[k]
  }

  /** No operator of `ops` follows at `position`: the input ends there or another token does. */
  predicate StopsAt(ts: seq<Token>, position: nat, ops: set<char>)
  {
    position == |ts| || (position < |ts| && ts[position].value !in ops)
  }

  /** A successful call that started at `position` with `subs` built `e` from exactly the
      tokens that spell it, and appended exactly the nodes of `e` in completion order. */
  predicate Built(ts: seq<Token>, position: nat, subs: seq<ExpressionNode>, o: Outcome, e: ExpressionNode)
  {
    && o.position == position + |Symbols(e)|
    && SpellsAt(ts, position, Symbols(e))
    && o.subExpressions == subs + PostOrder(e)
  }

  lemma SpellsAtConcat(ts: seq<Token>, position: nat, w1: seq<char>, w2: seq<char>)
    ensures SpellsAt(ts, position, w1 + w2) <==> SpellsAt(ts, position, w1) && SpellsAt(ts, position + |w1|, w2)
  {
    if SpellsAt(ts, position, w1) && SpellsAt(ts, position + |w1|, w2) {
      forall k | 0 <= k < |w1 + w2|
        ensures ts[position + k].value == (w1 + w2)[k]
      {
        if k >= |w1| {
          assert ts[(position + |w1|) + (k - |w1|)].value == w2[k - |w1|];
        }
      }
    }
    if SpellsAt(ts, position, w1 + w2) {
      forall k | 0 <= k < |w1|
        ensures ts[position + k].value == w1[k]
      {
        assert ts[position + k].value == (w1 + w2)[k];
      }
      forall k | 0 <= k < |w2|
        ensures ts[position + |w1| + k].value == w2[k]
      {
        assert ts[position + (|w1| + k)].value == (w1 + w2)[|w1| + k];
      }
    }
  }

  lemma BinarySpelling(ts: seq<Token>, position: nat, op: char, left: ExpressionNode, right: ExpressionNode)
    ensures SpellsAt(ts, position, Symbols(BinaryOperatorNode(op, left, right)))
      <==> && SpellsAt(ts, position, Symbols(left))
           && Matches(ts, position + |Symbols(left)|, op)
           && SpellsAt(ts, position + |Symbols(left)| + 1, Symbols(right))
  {
    var p := position + |Symbols(left)|;
    assert Symbols(BinaryOperatorNode(op, left, right)) == Symbols(left) + [op] + Symbols(right);
    SpellsAtConcat(ts, position, Symbols(left) + [op], Symbols(right));
    SpellsAtConcat(ts, position, Symbols(left), [op]);
    if SpellsAt(ts, p, [op]) {
      assert ts[p + 0].value == [op][0];
    }
    if Matches(ts, p, op) {
      assert ts[p + 0].value == [op][0];
      assert SpellsAt(ts, p, [op]);
    }
  }

  /** The spelling of a binary node, split at its operator. */
  lemma SplitBinarySpelling(ts: seq<Token>, position: nat, e: ExpressionNode)
    requires e.BinaryOperatorNode? && SpellsAt(ts, position, Symbols(e))
    ensures SpellsAt(ts, position, Symbols(e.left))
    ensures Matches(ts, position + |Symbols(e.left)|, e.operator)
    ensures SpellsAt(ts, position + |Symbols(e.left)| + 1, Symbols(e.right))
    ensures |Symbols(e)| == |Symbols(e.left)| + 1 + |Symbols(e.right)|
  {
    BinarySpelling(ts, position, e.operator, e.left, e.right);
  }

  // ----- Soundness: what the parser returns is derived and spelled by the tokens consumed -----

  lemma {:induction false} NegationSound(ts: seq<Token>, position: nat, subs: seq<ExpressionNode>)
    requires position <= |ts| && WellTyped(ts)
    ensures var o := Negation(ts, position, subs);
      o.result.Ok? ==> DerivesNegation(o.result.value) && Built(ts, position, subs, o, o.result.value)
    decreases |ts| - position
  {
    if Matches(ts, position, Not) {
      NegationSound(ts, position + 1, subs);
      var operand := Negation(ts, position + 1, subs);
      if operand.result.Ok? {
        SpellsAtConcat(ts, position, [Not], Symbols(operand.result.value));
      }
    }
  }

  lemma {:induction false} OperandSound(level: Level, ts: seq<Token>, position: nat, subs: seq<ExpressionNode>)
    requires position <= |ts| && WellTyped(ts)
    ensures var o := Operand(level, ts, position, subs);
      o.result.Ok? ==>
        && DerivesOperand(level, o.result.value)
        && Built(ts, position, subs, o, o.result.value)
        && StopsAt(ts, o.position, BindsTighter(level))
    decreases |ts| - position, 2 * Rank(level)
  {
    match level
    case Implication => BinarySound(Disjunction, ts, position, subs);
    case Disjunction => BinarySound(Conjunction, ts, position, subs);
    case Conjunction => NegationSound(ts, position, subs);
  }

  lemma {:induction false} BinarySound(level: Level, ts: seq<Token>, position: nat, subs: seq<ExpressionNode>)
    requires position <= |ts| && WellTyped(ts)
    ensures var o := Binary(level, ts, position, subs);
      o.result.Ok? ==>
        && Derives(level, o.result.value)
        && Built(ts, position, subs, o, o.result.value)
        && StopsAt(ts, o.position, BindsAt(level))
    decreases |ts| - position, 2 * Rank(level) + 1
  {
    OperandSound(level, ts, position, subs);
    var left := Operand(level, ts, position, subs);
    if left.result.Ok? {
      FoldSound(level, ts, position, subs, left.position, left.subExpressions, left.result.value);
    }
  }

  lemma {:induction false} FoldSound(level: Level, ts: seq<Token>, start: nat, subs0: seq<ExpressionNode>,
                                     position: nat, subs: seq<ExpressionNode>, left: ExpressionNode)
    requires position <= |ts| && WellTyped(ts)
    requires Derives(level, left)
    requires Built(ts, start, subs0, Outcome(Ok(left), position, subs), left)
    requires StopsAt(ts, position, BindsTighter(level))
    ensures var o := Fold(level, ts, position, subs, left);
      o.result.Ok? ==>
        && Derives(level, o.result.value)
        && Built(ts, start, subs0, o, o.result.value)
        && StopsAt(ts, o.position, BindsAt(level))
    decreases |ts| - position, 0
  {
    if Matches(ts, position, OperatorOf(level)) {
      OperandSound(level, ts, position + 1, subs);
      var right := Operand(level, ts, position + 1, subs);
      if right.result.Ok? {
        var node := BinaryOperatorNode(OperatorOf(level), left, right.result.value);
        BinarySpelling(ts, start, OperatorOf(level), left, right.result.value);
        assert Derives(level, node);
        FoldSound(level, ts, start, subs0, right.position, right.subExpressions + [node], node);
      }
    }
  }

  // ----- Completeness: the tokens of a derived tree parse back to that tree -----

  lemma {:induction false} NegationComplete(ts: seq<Token>, position: nat, subs: seq<ExpressionNode>, e: ExpressionNode)
    requires WellTyped(ts) && DerivesNegation(e) && SpellsAt(ts, position, Symbols(e))
    ensures Negation(ts, position, subs) == Outcome(Ok(e), position + |Symbols(e)|, subs + PostOrder(e))
    decreases e
  {
    match e
    case VariableNode(name) =>
      assert ts[position + 0].value == Symbols(e)[0];
    case UnaryOperatorNode(_, operand) =>
      SpellsAtConcat(ts, position, [Not], Symbols(operand));
      assert ts[position + 0].value == Symbols(e)[0];
      NegationComplete(ts, position + 1, subs, operand);
  }

  lemma {:induction false} OperandComplete(level: Level, ts: seq<Token>, position: nat, subs: seq<ExpressionNode>, e: ExpressionNode)
    requires WellTyped(ts) && DerivesOperand(level, e) && SpellsAt(ts, position, Symbols(e))
    requires StopsAt(ts, position + |Symbols(e)|, BindsTighter(level))
    ensures Operand(level, ts, position, subs) == Outcome(Ok(e), position + |Symbols(e)|, subs + PostOrder(e))
    decreases e, 8 * Rank(level)
  {
    match level
    case Implication =>
      BinaryReaches(Disjunction, ts, position, subs, e);
    case Disjunction =>
      BinaryReaches(Conjunction, ts, position, subs, e);
    case Conjunction =>
      NegationComplete(ts, position, subs, e);
  }

  /** The level parser, run over the spelling of a derived tree that is followed by no tighter
      operator, builds that tree and is left in its loop right after it. */
  lemma {:induction false} BinaryReaches(level: Level, ts: seq<Token>, position: nat, subs: seq<ExpressionNode>, e: ExpressionNode)
    requires WellTyped(ts) && Derives(level, e) && SpellsAt(ts, position, Symbols(e))
    requires StopsAt(ts, position + |Symbols(e)|, BindsTighter(level))
    ensures Binary(level, ts, position, subs) == Fold(level, ts, position + |Symbols(e)|, subs + PostOrder(e), e)
    decreases e, 8 * Rank(level) + 3
  {
    if e.BinaryOperatorNode? && e.operator == OperatorOf(level) && Derives(level, e.left) && DerivesOperand(level, e.right) {
      FoldNodeReaches(level, ts, position, subs, e);
    } else {
      OperandComplete(level, ts, position, subs, e);
    }
  }

  lemma {:induction false} FoldNodeReaches(level: Level, ts: seq<Token>, position: nat, subs: seq<ExpressionNode>, e: ExpressionNode)
    requires WellTyped(ts) && SpellsAt(ts, position, Symbols(e))
    requires e.BinaryOperatorNode? && e.operator == OperatorOf(level) && Derives(level, e.left) && DerivesOperand(level, e.right)
    requires StopsAt(ts, position + |Symbols(e)|, BindsTighter(level))
    ensures Binary(level, ts, position, subs) == Fold(level, ts, position + |Symbols(e)|, subs + PostOrder(e), e)
    decreases e, 8 * Rank(level) + 2
  {
    SplitBinarySpelling(ts, position, e);
    assert e == BinaryOperatorNode(OperatorOf(level), e.left, e.right);
    FoldReaches(level, ts, position, subs, e.left, e.right);
  }

  /** The case of `BinaryReaches` where the tree is the level's own operator applied to a tree
      `a` of the level and an operand `b`. */
  lemma {:induction false} FoldReaches(level: Level, ts: seq<Token>, position: nat, subs: seq<ExpressionNode>,
                                       a: ExpressionNode, b: ExpressionNode)
    requires WellTyped(ts) && Derives(level, a) && DerivesOperand(level, b)
    requires SpellsAt(ts, position, Symbols(a))
    requires Matches(ts, position + |Symbols(a)|, OperatorOf(level))
    requires SpellsAt(ts, position + |Symbols(a)| + 1, Symbols(b))
    requires StopsAt(ts, position + |Symbols(a)| + 1 + |Symbols(b)|, BindsTighter(level))
    ensures var node := BinaryOperatorNode(OperatorOf(level), a, b);
      Binary(level, ts, position, subs) == Fold(level, ts, position + |Symbols(node)|, subs + PostOrder(node), node)
    decreases BinaryOperatorNode(OperatorOf(level), a, b), 8 * Rank(level) + 1
  {
    var afterA := position + |Symbols(a)|;
    var subsA := subs + PostOrder(a);
    var node := BinaryOperatorNode(OperatorOf(level), a, b);
    assert OperatorOf(level) !in BindsTighter(level);
    BinaryReaches(level, ts, position, subs, a);
    OperandComplete(level, ts, afterA + 1, subsA, b);
    FoldStep(level, ts, position, subs, a, b);
  }

  /** One turn of the loop of a binary level: `a` was built from `position` on, the level's
      operator follows it, and the operand `b` parses after that operator. */
  lemma FoldStep(level: Level, ts: seq<Token>, position: nat, subs: seq<ExpressionNode>, a: ExpressionNode, b: ExpressionNode)
    requires Matches(ts, position + |Symbols(a)|, OperatorOf(level))
    requires Operand(level, ts, position + |Symbols(a)| + 1, subs + PostOrder(a))
      == Outcome(Ok(b), position + |Symbols(a)| + 1 + |Symbols(b)|, subs + PostOrder(a) + PostOrder(b))
    ensures var node := BinaryOperatorNode(OperatorOf(level), a, b);
      Fold(level, ts, position + |Symbols(a)|, subs + PostOrder(a), a)
        == Fold(level, ts, position + |Symbols(node)|, subs + PostOrder(node), node)
  {
    var node := BinaryOperatorNode(OperatorOf(level), a, b);
    assert Symbols(node) == Symbols(a) + [OperatorOf(level)] + Symbols(b);
    assert subs + PostOrder(a) + PostOrder(b) + [node] == subs + PostOrder(node);
  }

  /** Completeness of a level: its parser builds exactly the derived tree whose spelling the
      tokens start with, when no operator of that level or a tighter one follows it. */
  lemma BinaryComplete(level: Level, ts: seq<Token>, position: nat, subs: seq<ExpressionNode>, e: ExpressionNode)
    requires WellTyped(ts) && Derives(level, e) && SpellsAt(ts, position, Symbols(e))
    requires StopsAt(ts, position + |Symbols(e)|, BindsAt(level))
    ensures Binary(level, ts, position, subs) == Outcome(Ok(e), position + |Symbols(e)|, subs + PostOrder(e))
  {
    BinaryReaches(level, ts, position, subs, e);
  }
}
