/** The expression tree of src/node.ts: variable, unary-operator and binary-operator nodes,
    their boolean value under an assignment and their parenthesis-free rendering. */
module Node {

  const Not: char := '~'
  const And: char := '∧'
  const Or: char := '∨'
  const Implies: char := '→'

  /** The node kinds; the operator is kept as the glyph the parser stored. */
  datatype ExpressionNode =
    | VariableNode(name: char)
    | UnaryOperatorNode(operator: char, operand: ExpressionNode)
    | BinaryOperatorNode(operator: char, left: ExpressionNode, right: ExpressionNode)

  /** `variables[name]` used as a boolean: a missing key reads as `undefined`, which every
      later use treats as false. */
  function Lookup(variables: map<char, bool>, name: char): bool
  {
    name in variables && variables[name]
  }

  /** `evaluate`. An operator glyph the node does not know evaluates to false. */
  function Evaluate(e: ExpressionNode, variables: map<char, bool>): bool
  {
    match e
    case VariableNode(name) => Lookup(variables, name)
    case UnaryOperatorNode(op, operand) =>
      var operandValue := Evaluate(operand, variables);
      if op == Not then !operandValue else false
    case BinaryOperatorNode(op, left, right) =>
      var leftValue := Evaluate(left, variables);
      var rightValue := Evaluate(right, variables);
      if op == And then leftValue && rightValue
      else if op == Or then leftValue || rightValue
      else if op == Implies then !leftValue || rightValue
      else false
  }

  /** `toString`: no parentheses; a binary operator is surrounded by single spaces. */
  function ToString(e: ExpressionNode): (s: string)
    ensures |Symbols(e)| <= |s|
  {
    match e
    case VariableNode(name) => [name]
    case UnaryOperatorNode(op, operand) => [op] + ToString(operand)
    case BinaryOperatorNode(op, left, right) => ToString(left) + " " + [op] + " " + ToString(right)
  }

  /** The glyphs of the tree in reading order: one per node, whitespace aside. */
  function Symbols(e: ExpressionNode): seq<char>
  {
    match e
    case VariableNode(name) => [name]
    case UnaryOperatorNode(op, operand) => [op] + Symbols(operand)
    case BinaryOperatorNode(op, left, right) => Symbols(left) + [op] + Symbols(right)
  }

  /** The names of the variables that occur in the tree. */
  function VariablesOf(e: ExpressionNode): set<char>
  {
    match e
    case VariableNode(name) => {name}
    case UnaryOperatorNode(_, operand) => VariablesOf(operand)
    case BinaryOperatorNode(_, left, right) => VariablesOf(left) + VariablesOf(right)
  }

  /** The nodes of the tree in completion order: the nodes of each child, left before right,
      then the node itself. */
  function PostOrder(e: ExpressionNode): seq<ExpressionNode>
  {
    match e
    case VariableNode(_) => [e]
    case UnaryOperatorNode(_, operand) => PostOrder(operand) + [e]
    case BinaryOperatorNode(_, left, right) => PostOrder(left) + PostOrder(right) + [e]
  }

  /** The value of a tree depends only on the assignment's values at the variables that occur
      in it. */
  lemma {:induction false} EvaluateReadsOnlyItsVariables(e: ExpressionNode, a: map<char, bool>, b: map<char, bool>)
    requires forall name :: name in VariablesOf(e) ==> Lookup(a, name) == Lookup(b, name)
    ensures Evaluate(e, a) == Evaluate(e, b)
  {
    match e
    case VariableNode(_) =>
    case UnaryOperatorNode(_, operand) =>
      EvaluateReadsOnlyItsVariables(operand, a, b);
    case BinaryOperatorNode(_, left, right) =>
      EvaluateReadsOnlyItsVariables(left, a, b);
      EvaluateReadsOnlyItsVariables(right, a, b);
  }

  /** Each node contributes one glyph, so a tree spells as many glyphs as it has nodes. */
  lemma {:induction false} SymbolsCountNodes(e: ExpressionNode)
    ensures |Symbols(e)| == |PostOrder(e)|
  {
    match e
    case VariableNode(_) =>
    case UnaryOperatorNode(_, operand) =>
      SymbolsCountNodes(operand);
    case BinaryOperatorNode(_, left, right) =>
      SymbolsCountNodes(left);
      SymbolsCountNodes(right);
  }

  /** `suffix` is how `s` ends. */
  predicate EndsWith(s: seq<ExpressionNode>, suffix: seq<ExpressionNode>)
  {
    |suffix| <= |s| && s[|s| - |suffix|..] == suffix
  }

  /** Every entry of `s` comes right after all the nodes of its own subtree, in completion
      order: the entries of `s` up to a node `x` end with `PostOrder(x)`. */
  predicate ChildrenFirst(s: seq<ExpressionNode>)
  {
    forall k :: 0 <= k < |s| ==> EndsWith(s[..k + 1], PostOrder(s[k]))
  }

  lemma EndsWithAfter(s: seq<ExpressionNode>, u: seq<ExpressionNode>, w: seq<ExpressionNode>)
    requires EndsWith(u, w)
    ensures EndsWith(s + u, w)
  {
    assert (s + u)[|s + u| - |w|..] == u[|u| - |w|..];
  }

  /** Completion orders compose: two of them one after the other form another. */
  lemma {:induction false} ChildrenFirstAppend(s: seq<ExpressionNode>, t: seq<ExpressionNode>)
    requires ChildrenFirst(s) && ChildrenFirst(t)
    ensures ChildrenFirst(s + t)
  {
    forall k | 0 <= k < |s + t|
      ensures EndsWith((s + t)[..k + 1], PostOrder((s + t)[k]))
    {
      if k < |s| {
        ChildrenFirstInFront(s, t, k);
      } else {
        ChildrenFirstBehind(s, t, k);
      }
    }
  }

  lemma ChildrenFirstInFront(s: seq<ExpressionNode>, t: seq<ExpressionNode>, k: nat)
    requires ChildrenFirst(s) && k < |s|
    ensures EndsWith((s + t)[..k + 1], PostOrder((s + t)[k]))
  {
    assert (s + t)[..k + 1] == s[..k + 1];
    assert (s + t)[k] == s[k];
  }

  lemma ChildrenFirstBehind(s: seq<ExpressionNode>, t: seq<ExpressionNode>, k: nat)
    requires ChildrenFirst(t) && |s| <= k < |s| + |t|
    ensures EndsWith((s + t)[..k + 1], PostOrder((s + t)[k]))
  {
    var j := k - |s|;
    assert (s + t)[..k + 1] == s + t[..j + 1];
    assert (s + t)[k] == t[j];
    EndsWithAfter(s, t[..j + 1], PostOrder(t[j]));
  }

  /** A node listed right after all of its subtree's nodes extends a completion order. */
  lemma ChildrenFirstSnoc(children: seq<ExpressionNode>, e: ExpressionNode)
    requires ChildrenFirst(children) && PostOrder(e) == children + [e]
    ensures ChildrenFirst(children + [e])
  {
    var po := children + [e];
    forall k | 0 <= k < |po|
      ensures EndsWith(po[..k + 1], PostOrder(po[k]))
    {
      if k < |children| {
        assert po[..k + 1] == children[..k + 1];
      } else {
        assert po[..k + 1] == po;
      }
    }
  }

  /** The completion order lists every node exactly once it has listed all of that node's own
      nodes; in particular it ends with the root. */
  lemma {:induction false} PostOrderCompletes(e: ExpressionNode)
    ensures ChildrenFirst(PostOrder(e))
    ensures |PostOrder(e)| > 0 && PostOrder(e)[|PostOrder(e)| - 1] == e
  {
    match e
    case VariableNode(_) =>
      ChildrenFirstSnoc([], e);
    case UnaryOperatorNode(_, operand) =>
      PostOrderCompletes(operand);
      ChildrenFirstSnoc(PostOrder(operand), e);
    case BinaryOperatorNode(_, left, right) =>
      PostOrderCompletes(left);
      PostOrderCompletes(right);
      ChildrenFirstAppend(PostOrder(left), PostOrder(right));
      ChildrenFirstSnoc(PostOrder(left) + PostOrder(right), e);
  }

  /** A variable node listed in the completion order names a variable of the tree, and that
      name is one of the glyphs the tree spells. */
  lemma {:induction false} PostOrderVariables(e: ExpressionNode)
    ensures forall k :: 0 <= k < |PostOrder(e)| && PostOrder(e)[k].VariableNode? ==>
      PostOrder(e)[k].name in VariablesOf(e) && PostOrder(e)[k].name in Symbols(e)
  {
    match e
    case VariableNode(_) =>
    case UnaryOperatorNode(_, operand) =>
      PostOrderVariables(operand);
    case BinaryOperatorNode(_, left, right) =>
      PostOrderVariables(left);
      PostOrderVariables(right);
      assert forall k :: |PostOrder(left)| <= k < |PostOrder(left)| + |PostOrder(right)| ==>
        PostOrder(e)[k] == PostOrder(right)[k - |PostOrder(left)|];
  }
}
