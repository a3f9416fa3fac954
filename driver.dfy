/** The table-building part of `processExpression` in src/index.ts: tokenize, parse, collect
    the variables, choose the columns, enumerate the assignments and fill in the cells. */
module Driver {
  import opened Results
  import opened Tokenizer
  import opened Node
  import opened Grammar
  import opened Parsing
  import opened Utils
  import opened RoundTrip
  import opened Columns

  /** Why a line produced no table: its tokenization or its parse failed. */
  datatype ProcessError = TokenizationError(tokenizeError: TokenizeError) | ParsingError(parseError: ParseError)

  /** The headers and data rows handed to the table printer. */
  datatype Table = Table(headers: seq<string>, dataRows: seq<seq<string>>)

  /** One variable node per variable name. */
  function VariableNodes(variables: seq<char>): seq<ExpressionNode>
  {
    seq(|variables|, i requires 0 <= i < |variables| => VariableNode(variables[i]))
  }

  /** The candidate columns: the variable nodes, then every node the parser built. */
  function CandidatesOf(variables: seq<char>, subExpressions: seq<ExpressionNode>): seq<ExpressionNode>
  {
    VariableNodes(variables) + subExpressions
  }

  /** The columns as the source chooses them: the candidates set into a map under their
      renderings and read back in key order. */
  function ColumnsOf(variables: seq<char>, subExpressions: seq<ExpressionNode>): seq<ExpressionNode>
  {
    ValuesInOrder(SetAll(CandidatesOf(variables, subExpressions)))
  }

  function Cell(e: ExpressionNode, assignment: map<char, bool>): string
  {
    if Evaluate(e, assignment) then "T" else "F"
  }

  /** One row per assignment, one cell per column. */
  function DataRows(columns: seq<ExpressionNode>, assignments: seq<map<char, bool>>): (rows: seq<seq<string>>)
    ensures |rows| == |assignments|
    ensures forall r :: 0 <= r < |rows| ==> |rows[r]| == |columns|
    ensures forall r, c :: 0 <= r < |rows| && 0 <= c < |rows[r]| ==> rows[r][c] == "T" || rows[r][c] == "F"
  {
    seq(|assignments|, r requires 0 <= r < |assignments| =>
      seq(|columns|, c requires 0 <= c < |columns| => Cell(columns[c], assignments[r])))
  }

  function Tabulate(columns: seq<ExpressionNode>, assignments: seq<map<char, bool>>): (t: Table)
    ensures |t.headers| == |columns| && |t.dataRows| == |assignments|
    ensures forall r :: 0 <= r < |t.dataRows| ==> |t.dataRows[r]| == |t.headers|
  {
    Table(Renders(columns), DataRows(columns, assignments))
  }

  /** A line that tokenizes and parses. */
  predicate Succeeds(expression: string)
  {
    Lex(expression).Ok? && Parse(Lex(expression).value).result.Ok?
  }

  function VariablesOfLine(expression: string): seq<char>
    requires Lex(expression).Ok?
  {
    GetVariables(Lex(expression).value)
  }

  function RootOf(expression: string): ExpressionNode
    requires Succeeds(expression)
  {
    Parse(Lex(expression).value).result.value
  }

  function CandidatesOfLine(expression: string): seq<ExpressionNode>
    requires Succeeds(expression)
  {
    CandidatesOf(VariablesOfLine(expression), Parse(Lex(expression).value).subExpressions)
  }

  function ColumnsOfLine(expression: string): seq<ExpressionNode>
    requires Succeeds(expression)
  {
    ColumnsOf(VariablesOfLine(expression), Parse(Lex(expression).value).subExpressions)
  }

  /** The whole of `processExpression` after its input line was read. */
  function Process(expression: string): (r: Result<Table, ProcessError>)
    ensures r.Ok? <==> Succeeds(expression)
    ensures r.Err? ==> (r.error.TokenizationError? <==> Lex(expression).Err?)
  {
    var tokens := Lex(expression);
    if tokens.Err? then Err(TokenizationError(tokens.error))
    else
      var parsed := Parse(tokens.value);
      if parsed.result.Err? then Err(ParsingError(parsed.result.error))
      else Ok(Tabulate(ColumnsOfLine(expression), TruthAssignments(VariablesOfLine(expression))))
  }

  method ProcessExpression(expression: string) returns (r: Result<Table, ProcessError>)
    ensures r == Process(expression)
  {
    var tokens := Tokenize(expression);
    if tokens.Err? {
      return Err(TokenizationError(tokens.error));
    }

    var parser := new Parser(tokens.value);
    var result := parser.ParseExpression();
    assert Outcome(result, parser.position, parser.subExpressions) == Parse(tokens.value);
    if result.Err? {
      return Err(ParsingError(result.error));
    }

    var variables := GetVariables(tokens.value);
    var variableNodes := VariableNodes(variables);
    var expressions := CollectColumns(variableNodes + parser.subExpressions);
    var assignments := GenerateTruthAssignments(variables);

    var headers := Renders(expressions);
    var dataRows := DataRows(expressions, assignments);

    return Ok(Table(headers, dataRows));
  }

  // ----- Failures -----

  /** A line yields a tokenization error exactly when it holds a character the tokenizer
      rejects; the error names the first such character and its one-based position, and
      no parse is attempted. */
  lemma TokenizationErrorIffRejected(expression: string)
    ensures Process(expression).Err? && Process(expression).error.TokenizationError?
      <==> exists i :: 0 <= i < |expression| && !IsAccepted(expression[i])
    ensures Process(expression).Err? && Process(expression).error.TokenizationError? ==>
      var e := Process(expression).error.tokenizeError;
      && 1 <= e.position <= |expression|
      && expression[e.position - 1] == e.character && !IsAccepted(e.character)
      && forall i :: 0 <= i < e.position - 1 ==> IsAccepted(expression[i])
  {
    LexSucceedsIff(expression);
    if Lex(expression).Err? {
      LexErrorIsFirstRejected(expression);
    }
  }

  /** A parsing error comes only from a line whose every character was accepted, and a
      missing operand is reported at an operator character of the line (one-based). */
  lemma ParsingErrorLocated(expression: string)
    requires Process(expression).Err? && Process(expression).error.ParsingError?
    ensures forall i :: 0 <= i < |expression| ==> IsAccepted(expression[i])
    ensures var e := Process(expression).error.parseError;
      e.VariableExpectedAt? ==> 1 <= e.position <= |expression| && IsOperatorChar(expression[e.position - 1])
  {
    LexSucceedsIff(expression);
    LexTokensPlaced(expression);
    var ts := Lex(expression).value;
    var o := Parse(ts);
    if o.position < |ts| {
      var t := ts[o.position];
      assert t.tokenType == TypeOf(t.value);
    }
  }

  // ----- The pieces of a successful line -----

  /** The tokens are well typed, the tree is one the grammar derives and lists its nodes in
      completion order, and there are at most 26 variables, each an upper-case letter. */
  lemma SuccessFacts(expression: string)
    requires Succeeds(expression)
    ensures WellTyped(Lex(expression).value)
    ensures Derives(Implication, RootOf(expression))
    ensures SpellsAt(Lex(expression).value, 0, Symbols(RootOf(expression)))
    ensures Parse(Lex(expression).value).subExpressions == PostOrder(RootOf(expression))
    ensures var vs := VariablesOfLine(expression);
      && StrictlyIncreasing(vs) && |vs| <= 26
      && (forall k :: 0 <= k < |vs| ==> IsVariableChar(vs[k]))
  {
    LexTokensPlaced(expression);
    ParseSound(Lex(expression).value);
    GetVariablesAtMost26(Lex(expression).value);
  }

  /** Every candidate column is a tree the grammar derives. */
  lemma CandidatesDerived(expression: string)
    requires Succeeds(expression)
    ensures forall x :: x in CandidatesOfLine(expression) ==> Derives(Implication, x)
  {
    SuccessFacts(expression);
    var vs := VariablesOfLine(expression);
    var root := RootOf(expression);
    NodesDerived(Implication, root);
    forall x | x in VariableNodes(vs) ensures Derives(Implication, x) {
      var i :| 0 <= i < |vs| && VariableNodes(vs)[i] == x;
      assert DerivesNegation(x);
      NegationIsImplication(x);
    }
  }

  /** The columns the source keeps are exactly the first occurrence of each rendering among
      the candidates, in their original order. */
  lemma ColumnsAreFirstOccurrences(expression: string)
    requires Succeeds(expression)
    ensures ColumnsOfLine(expression) == FirstOccurrences(CandidatesOfLine(expression))
  {
    CandidatesRenderDistinct(expression);
    SetAllIsFirstOccurrences(CandidatesOfLine(expression));
  }

  /** Two candidates that render alike are the same tree. */
  lemma CandidatesRenderDistinct(expression: string)
    requires Succeeds(expression)
    ensures RenderDetermines(CandidatesOfLine(expression))
  {
    var cs := CandidatesOfLine(expression);
    CandidatesDerived(expression);
    forall x, y | x in cs && y in cs && ToString(x) == ToString(y) ensures x == y {
      RenderInjective(x, y);
    }
  }

  /** Each variable leaf of the tree is named by a variable column. */
  lemma VariableLeavesListed(expression: string)
    requires Succeeds(expression)
    ensures var vs := VariablesOfLine(expression);
      forall x :: x in CandidatesOfLine(expression) && x.VariableNode? ==> ToString(x) in Renders(VariableNodes(vs))
  {
    SuccessFacts(expression);
    CandidatesDerived(expression);
    var ts := Lex(expression).value;
    var vs := VariablesOfLine(expression);
    var root := RootOf(expression);
    PostOrderVariables(root);
    forall x | x in CandidatesOfLine(expression) && x.VariableNode?
      ensures ToString(x) in Renders(VariableNodes(vs))
    {
      DerivedWellFormed(Implication, x);
      if x in PostOrder(root) {
        var k :| 0 <= k < |PostOrder(root)| && PostOrder(root)[k] == x;
        var i :| 0 <= i < |Symbols(root)| && Symbols(root)[i] == x.name;
        assert ts[0 + i].value == x.name;
        assert Declares(ts, x.name);
      }
      var j :| 0 <= j < |vs| && vs[j] == x.name;
      assert Renders(VariableNodes(vs))[j] == ToString(x);
    }
  }

  // ----- The table -----

  /** One row per assignment, `2^n` of them for `n` variables, and one cell per header. */
  lemma TableDimensions(expression: string)
    requires Process(expression).Ok?
    ensures var t := Process(expression).value;
      && |t.dataRows| == Pow2(|VariablesOfLine(expression)|)
      && |t.headers| == |ColumnsOfLine(expression)|
      && forall r :: 0 <= r < |t.dataRows| ==> |t.dataRows[r]| == |t.headers|
  {
  }

  /** No two headers are the same text. */
  lemma HeadersDistinct(expression: string)
    requires Process(expression).Ok?
    ensures var hs := Process(expression).value.headers;
      forall i, j :: 0 <= i < j < |hs| ==> hs[i] != hs[j]
  {
    ColumnsAreFirstOccurrences(expression);
  }

  /** The leading headers are the sorted distinct variable names, their columns the variables. */
  lemma HeadersLeadWithVariables(expression: string)
    requires Process(expression).Ok?
    ensures var vs := VariablesOfLine(expression);
      var hs := Process(expression).value.headers;
      && |vs| <= |hs|
      && (forall j :: 0 <= j < |vs| ==> hs[j] == [vs[j]] && ColumnsOfLine(expression)[j] == VariableNode(vs[j]))
  {
    SuccessFacts(expression);
    ColumnsAreFirstOccurrences(expression);
    var vs := VariablesOfLine(expression);
    var a := VariableNodes(vs);
    FirstOccurrencesOfDistinct(a);
    FirstOccurrencesPrefix(a, Parse(Lex(expression).value).subExpressions);
  }

  /** The parser's variable leaves never add a column: every column after the variables is
      a compound expression. */
  lemma ParserVariablesAddNoColumn(expression: string)
    requires Succeeds(expression)
    ensures var columns := ColumnsOfLine(expression);
      forall c :: |VariablesOfLine(expression)| <= c < |columns| ==> !columns[c].VariableNode?
  {
    HeadersLeadWithVariables(expression);
    VariableLeavesListed(expression);
    ColumnsAreFirstOccurrences(expression);
    var vs := VariablesOfLine(expression);
    var a := VariableNodes(vs);
    var d := ColumnsOfLine(expression);
    forall c | |vs| <= c < |d| ensures !d[c].VariableNode? {
      forall j | 0 <= j < |a| ensures Renders(a)[j] != ToString(d[c]) {
        assert d[j] == a[j];
      }
      assert d[c] in CandidatesOfLine(expression);
    }
  }

  /** Every node the parser built heads a column. */
  lemma EveryNodeHasColumn(expression: string)
    requires Process(expression).Ok?
    ensures var hs := Process(expression).value.headers;
      forall x :: x in Parse(Lex(expression).value).subExpressions ==> ToString(x) in hs
  {
    ColumnsAreFirstOccurrences(expression);
    FirstOccurrencesCover(CandidatesOfLine(expression));
  }

  /** The whole expression is one of the columns. */
  lemma ExpressionHasColumn(expression: string)
    requires Succeeds(expression)
    ensures RootOf(expression) in ColumnsOfLine(expression)
  {
    SuccessFacts(expression);
    var root := RootOf(expression);
    assert root in PostOrder(root);
    assert root in CandidatesOfLine(expression);
    CandidatesRenderDistinct(expression);
    FirstOccurrencesKeep(CandidatesOfLine(expression), root);
    ColumnsAreFirstOccurrences(expression);
  }

  /** Each header re-parses to its column's expression, and a cell is "T" exactly when that
      expression is true under the row's assignment. */
  lemma CellIsHeaderValue(expression: string, r: nat, c: nat)
    requires Process(expression).Ok?
    requires r < |Process(expression).value.dataRows| && c < |Process(expression).value.headers|
    ensures var t := Process(expression).value;
      && Lex(t.headers[c]).Ok?
      && Parse(Lex(t.headers[c]).value).result == Ok(ColumnsOfLine(expression)[c])
      && (t.dataRows[r][c] == "T" <==> Evaluate(ColumnsOfLine(expression)[c], TruthAssignments(VariablesOfLine(expression))[r]))
  {
    ColumnsAreFirstOccurrences(expression);
    CandidatesDerived(expression);
    ReparseRoundTrip(ColumnsOfLine(expression)[c]);
  }

  /** The variable columns count down in binary: in row `r` the variable at index `j` is
      "T" exactly when bit `n - j - 1` of `r` is clear. */
  lemma VariableColumnsCountDown(expression: string, r: nat, j: nat)
    requires Process(expression).Ok?
    requires r < |Process(expression).value.dataRows| && j < |VariablesOfLine(expression)|
    ensures var t := Process(expression).value;
      j < |t.headers| && (t.dataRows[r][j] == "T" <==> RowBit(r, |VariablesOfLine(expression)|, j))
  {
    SuccessFacts(expression);
    HeadersLeadWithVariables(expression);
    RowValue(VariablesOfLine(expression), r, j);
  }

  /** Variables the parser left unread still get a column: `A B` has headers `A` and `B`. */
  lemma UnreadVariablesGetColumns()
    ensures Process("A B").Ok? && Process("A B").value.headers == ["A", "B"]
  {
    TrailingTokensIgnored();
    VariablesOfAB(Lex("A B").value);
    ColumnsAreFirstOccurrences("A B");
    CandidatesOfAB();
    FirstOccurrencesOfABA();
  }

  lemma VariablesOfAB(ts: seq<Token>)
    requires ts == [Token(VariableToken, 'A', 0), Token(VariableToken, 'B', 2)]
    ensures GetVariables(ts) == ['A', 'B']
  {
    assert ts[..1] == [ts[0]] && ts[..1][..0] == [];
    assert GetVariables(ts[..1]) == ['A'];
    assert Insert(['A'], 'B') == ['A', 'B'];
  }

  lemma CandidatesOfAB()
    ensures CandidatesOf(['A', 'B'], [VariableNode('A')]) == [VariableNode('A'), VariableNode('B'), VariableNode('A')]
  {
  }

  lemma FirstOccurrencesOfABA()
    ensures Renders(FirstOccurrences([VariableNode('A'), VariableNode('B'), VariableNode('A')])) == ["A", "B"]
  {
    var cs := [VariableNode('A'), VariableNode('B'), VariableNode('A')];
    assert cs[..2] == [VariableNode('A'), VariableNode('B')];
    assert cs[..2][..1] == [VariableNode('A')];
    assert cs[..2][..1][..0] == [];
    assert FirstOccurrences(cs[..2][..1]) == [VariableNode('A')];
    assert Renders([VariableNode('A')]) == ["A"];
    assert FirstOccurrences(cs[..2]) == [VariableNode('A'), VariableNode('B')];
    assert Renders([VariableNode('A'), VariableNode('B')]) == ["A", "B"];
    assert FirstOccurrences(cs) == [VariableNode('A'), VariableNode('B')];
  }
}
