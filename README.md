# truth-table, modelled in Dafny

truth-table reads propositional formulas, one per line. Variables are the letters `A`–`Z`, and the operators are `~`, `∧`, `∨` and `→`. For each formula it prints a truth table with these columns:

- one column per variable, in alphabetical order;
- one column per distinct sub-formula the parser built, in the order it built them.

This project models the part of the program that turns one line into such a table.

- The tokenizer (`Tokenizer`, `Tokenize`) is a loop over the characters, proved equal to the recursive specification `Lex`.
- The expression tree (`Node`) is a datatype. Its `Evaluate` and `ToString` are functions.
- The recursive-descent parser is modelled in two modules:
  - `Grammar` specifies each parsing level as a function over the token sequence and the parser state.
  - `Parsing` is the parser itself: a `class Parser` whose fields `position` and `subExpressions` its methods update in place. Each method is proved equal to its level's function.
  - The grammar functions are proved sound and complete against shape predicates (`Derives`) that describe precedence and associativity.
- Rendering and re-parsing (`RoundTrip`): rendering a parsed tree and parsing it again gives back the same tree, so rendering is injective on parsed trees.
- The variable collector and the truth-assignment enumerator (`Utils`):
  - `GenerateTruthAssignments` keeps the source's nested loops and is proved equal to `TruthAssignments`.
  - `RowIndex` decodes a row back to its index, so every total assignment appears exactly once.
- The column map (`Columns`). The source inserts every candidate into a JavaScript `Map` keyed by its rendering. This is modelled as an insertion-ordered map (`OrderedMap`, `Set`, `SetAll`) and the loop `CollectColumns`.
- The table-building part of `processExpression` (`Driver`). It is modelled as the function `Process` and the method `ProcessExpression`, which calls the tokenizer, the parser class, the collector, the column loop and the enumerator in the same order as the source.

The column code does not literally keep the first occurrence of each rendering:

- The `.filter(({ key }) => !expressionMap.has(key))` runs over the whole array before any `.set`, so it never drops anything.
- `Map.set` keeps a key's first position but stores the value of its last occurrence.
- So the map holds "first position, last value" (`SetAll`), not literally "first occurrence wins" (`FirstOccurrences`).
- `LastValueWins` exhibits two distinct trees with the same rendering for which the two differ.
- `SetAllIsFirstOccurrences` and `ColumnsAreFirstOccurrences` prove that they coincide on the candidates the program actually produces:
  - the rendering is injective on parsed trees (`RenderInjective`);
  - the variable nodes are parsed trees too.

  So the headers and the cells are exactly those of first-occurrence deduplication.

## Model

| member | source | states |
|---|---|---|
| Tokenizer.Lex | src/tokenizer.ts:12-36 | the reference result of `tokenize`, by recursion on the line: on success at most one token per character, on failure a one-based position inside the line |
| Tokenizer.Tokenize | src/tokenizer.ts:12-36 | the loop returns exactly `Lex(expression)`: the tokens of all letters and operator glyphs with their offsets, or the first rejected character |
| Tokenizer.VariablesAreUppercase | src/tokenizer.ts:10 | membership in the variable alphabet is exactly `'A' <= c <= 'Z'` |
| Tokenizer.OperatorsAreTheFourGlyphs | src/tokenizer.ts:9 | membership in the operator alphabet is exactly the four glyphs `~ ∧ ∨ →` |
| Tokenizer.LexErrorPersists | src/tokenizer.ts:32 | once a prefix is rejected, the whole line is rejected with the same error (the early return) |
| Tokenizer.LexSucceedsIff | src/tokenizer.ts:15-35 | tokenizing succeeds iff every character is whitespace, a letter or an operator glyph |
| Tokenizer.LexTokensPlaced | src/tokenizer.ts:15-29 | every token's position is a valid offset holding its character, that character is not whitespace, and a letter yields a variable token and a glyph an operator token |
| Tokenizer.LexInSourceOrder | src/tokenizer.ts:15-28 | token positions strictly increase |
| Tokenizer.LexValues | src/tokenizer.ts:13-35 | the token texts are the non-whitespace characters in order, so there is one token per non-whitespace character |
| Tokenizer.LexErrorIsFirstRejected | src/tokenizer.ts:32 | the error carries the first rejected character and its one-based position, and every earlier character was accepted |
| Tokenizer.NonWhitespaceAppend | src/tokenizer.ts:18-20 | dropping whitespace distributes over concatenation |
| Tokenizer.IsWhitespace | src/tokenizer.ts:18 | the characters for which `char.trim() === ""` holds (ECMAScript WhiteSpace and LineTerminator); definition, no contract of its own |
| Tokenizer.Scan | src/tokenizer.ts:18-32 | one turn of the loop body: it fails exactly on a character that is neither whitespace, a letter nor an operator glyph, and then reports that character at its one-based position; otherwise it keeps the tokens so far and appends at most one token, none exactly for whitespace, carrying the character and its offset |
| Node.Evaluate | src/node.ts:11-60 | `evaluate`, with no contract of its own: a variable reads its entry (a missing one as false), `~` negates, `∧`, `∨` and `→` combine as conjunction, disjunction and `¬l ∨ r`, and any other glyph gives false; what it promises is stated by EvaluateReadsOnlyItsVariables, DerivedWellFormed and CellIsHeaderValue |
| Node.ToString | src/node.ts:15-65 | `toString`: the rendering is never shorter than the tree's glyphs; RenderNonWhitespace and ReparseRoundTrip state that it is exactly those glyphs plus spaces and that it parses back to the tree |
| Node.EvaluateReadsOnlyItsVariables | src/node.ts:11-60 | two assignments that agree on a tree's variables give the tree the same value |
| Node.SymbolsCountNodes | src/node.ts:6-66 | a tree has as many glyphs as nodes |
| Node.PostOrderCompletes | src/parser.ts:34-105 | in the completion order, each node comes right after all the nodes of its own subtree, and the order ends with the root |
| Node.ChildrenFirstAppend | src/parser.ts:34-76 | two completion orders one after the other form another |
| Node.ChildrenFirstSnoc | src/parser.ts:33-34 | pushing a node right after its subtree's nodes keeps a completion order |
| Node.PostOrderVariables | src/node.ts:11-17 | every variable node of the tree names one of its variables and one of its glyphs |
| Grammar.Primary | src/parser.ts:99-110 | `parsePrimary` consumes exactly one token and pushes exactly the node it returns on success; on failure it consumes nothing, pushes nothing, and reports the operator token's one-based position or the end of input |
| Grammar.Negation | src/parser.ts:82-97 | `parseNegation` never moves backwards or past the end, only appends to `subExpressions`, and fails at the current token |
| Grammar.Operand | src/parser.ts:20-69 | the operand parser each binary level calls (`parseDisjunction` under `→`, `parseConjunction` under `∨`, `parseNegation` under `∧`): it never moves backwards or past the end and only appends to `subExpressions` |
| Grammar.Binary | src/parser.ts:19-80 | each binary level advances on success, never shrinks `subExpressions`, and fails at the current token |
| Grammar.Fold | src/parser.ts:25-77 | the operator loop never moves backwards, only appends nodes, and fails at the current token |
| Grammar.Parse | src/parser.ts:15-17 | `parseExpression` from a fresh parser: same progress and failure guarantees |
| Grammar.SpellsAtConcat | src/parser.ts:116-118 | consuming a concatenation is consuming its two parts one after the other |
| Grammar.BinarySpelling | src/node.ts:63-65 | a binary node's glyphs are its left operand's, the operator, then its right operand's |
| Grammar.SplitBinarySpelling | src/node.ts:63-65 | the same, read from a binary node that is known to be spelled |
| Grammar.NegationSound | src/parser.ts:82-97 | a tree `parseNegation` returns is a chain of `~` over a variable, spelled by exactly the tokens consumed, with exactly its nodes pushed in completion order |
| Grammar.OperandSound | src/parser.ts:19-80 | an operand parsed for a level has that operand's shape, is spelled by the tokens consumed, pushes its nodes in completion order, and stops before any operator that binds tighter |
| Grammar.BinarySound | src/parser.ts:19-80 | a tree a binary level returns is a left-leaning chain of that level's operator over tighter operands, spelled by the tokens consumed, with its nodes pushed in completion order, and stops before the level's operators |
| Grammar.FoldSound | src/parser.ts:25-77 | each turn of the operator loop keeps that shape and bookkeeping |
| Grammar.NegationComplete | src/parser.ts:82-97 | on tokens spelling a negation chain, `parseNegation` returns exactly that chain and pushes exactly its nodes |
| Grammar.OperandComplete | src/parser.ts:19-80 | on tokens spelling an operand followed by no tighter operator, the operand parser returns exactly it |
| Grammar.BinaryReaches | src/parser.ts:19-35 | on tokens spelling a tree of the level's shape, the loop arrives at that tree with the rest still to fold |
| Grammar.FoldNodeReaches | src/parser.ts:25-35 | the same for a tree whose root is the level's operator |
| Grammar.FoldReaches | src/parser.ts:25-35 | the same for a root built from a spelled left part, the operator and an operand |
| Grammar.FoldStep | src/parser.ts:25-35 | one turn of the loop replaces `left` by the new binary node and pushes it after the right operand's nodes |
| Grammar.BinaryComplete | src/parser.ts:19-80 | on tokens spelling a tree of the level's shape followed by none of the level's operators, the level returns exactly that tree and pushes exactly its nodes |
| Parsing.Parser.constructor | src/parser.ts:10-13 | a new parser holds the tokens, is at position 0 and has built nothing |
| Parsing.Parser.ParseExpression | src/parser.ts:15-17 | returns and leaves the state `Binary(Implication, …)` prescribes |
| Parsing.Parser.ParseImplication | src/parser.ts:19-38 | the `→` loop returns and leaves the state `Binary(Implication, …)` prescribes |
| Parsing.Parser.ParseDisjunction | src/parser.ts:40-59 | the `∨` loop returns and leaves the state `Binary(Disjunction, …)` prescribes |
| Parsing.Parser.ParseConjunction | src/parser.ts:61-80 | the `∧` loop returns and leaves the state `Binary(Conjunction, …)` prescribes |
| Parsing.Parser.ParseNegation | src/parser.ts:82-97 | returns and leaves the state `Negation` prescribes |
| Parsing.Parser.ParsePrimary | src/parser.ts:99-110 | returns and leaves the state `Primary` prescribes |
| Parsing.Parser.CurrentToken | src/parser.ts:112-114 | the token at the position, or none exactly when the input is exhausted |
| Parsing.Parser.ConsumeToken | src/parser.ts:116-118 | returns the current token and advances the position by one |
| Parsing.Parser.Match | src/parser.ts:120-123 | true exactly when a current token exists and has the given text |
| RoundTrip.DerivedWellFormed | src/node.ts:30-59 | every tree of a grammar level uses only the known operators over letters, so the `false` fallbacks of `evaluate` are never reached |
| RoundTrip.NegationWellFormed | src/parser.ts:82-110 | a parsed negation chain is well formed |
| RoundTrip.OperandWellFormed | src/parser.ts:19-80 | a parsed operand is well formed |
| RoundTrip.AllAcceptedConcat | src/tokenizer.ts:15-33 | texts the tokenizer accepts are closed under concatenation |
| RoundTrip.RenderAccepted | src/node.ts:15-65 | the rendering of a well-formed tree uses only characters the tokenizer accepts |
| RoundTrip.RenderNonWhitespace | src/node.ts:15-65 | the rendering without its spaces is exactly the tree's glyphs |
| RoundTrip.NonWhitespaceSymbol | src/tokenizer.ts:18-29 | a letter or operator glyph is not whitespace |
| RoundTrip.NonWhitespaceSpaced | src/node.ts:63-65 | the spaces around a binary operator vanish when whitespace is dropped |
| RoundTrip.RenderTokenizes | src/node.ts:33-65 | re-tokenizing a rendering succeeds and yields one token per glyph, spelling the tree |
| RoundTrip.ReparseRoundTrip | src/node.ts:63-65 | parsing the rendering of any tree the grammar derives gives back that tree, consumes all its tokens and pushes exactly its nodes |
| RoundTrip.ParseSound | src/parser.ts:15-110 | a successful parse returns a tree of the grammar, spelled by the first `position` tokens, with `subExpressions` its nodes in completion order, and the next token, if any, is not a binary operator |
| RoundTrip.ParseRenderParse | src/parser.ts:15-17 | parse, render, parse gives the same tree |
| RoundTrip.RenderInjective | src/node.ts:63-65 | two parsed trees with the same rendering are equal |
| RoundTrip.NegationIsImplication | src/parser.ts:19-97 | a negation chain is also a whole expression |
| RoundTrip.WidenToImplication | src/parser.ts:19-80 | a tree of a tighter level is also a whole expression |
| RoundTrip.NodesDerived | src/parser.ts:34-105 | every node pushed for a parsed tree is itself a tree of the grammar |
| RoundTrip.NegationNodesDerived | src/parser.ts:92-105 | the same for a negation chain |
| RoundTrip.OperandNodesDerived | src/parser.ts:19-80 | the same for an operand |
| RoundTrip.ConjunctionBindsTighter | src/parser.ts:40-80 | `A ∨ B ∧ C` parses as `A ∨ (B ∧ C)` |
| RoundTrip.ImplicationGroupsLeft | src/parser.ts:25-35 | `A → B → C` parses as `(A → B) → C` |
| RoundTrip.NegationNests | src/parser.ts:82-94 | `~~A` parses as `~(~A)` |
| RoundTrip.MissingOperandAtEnd | src/parser.ts:109 | `A ∧` fails with "end of input" |
| RoundTrip.TrailingTokensIgnored | src/parser.ts:25-96 | `A B` parses as `A`, consuming one token and leaving `B` unread |
| RoundTrip.InvalidCharacterReported | src/tokenizer.ts:32 | `A + B` is rejected at `+`, position 3 |
| Utils.Insert | src/utils.ts:4-6 | inserting into a strictly increasing list keeps it strictly increasing and adds exactly the new character |
| Utils.GetVariables | src/utils.ts:3-7 | the result is strictly increasing and holds exactly the texts of the variable tokens, from the whole token list |
| Utils.AscendingListingUnique | src/utils.ts:6 | two strictly increasing lists with the same elements are equal, so the sorted set is determined |
| Utils.GetVariablesAtMost26 | src/utils.ts:3-7 | on tokenizer output the variables are upper-case letters, at most 26 of them |
| Utils.AscendingFromA | src/utils.ts:6 | the k-th of a strictly increasing list of letters is at least the k-th letter |
| Utils.Pow2 | src/utils.ts:11 | `1 << n` is positive |
| Utils.Bit | src/utils.ts:19 | a bit of `i` is 0 or 1 |
| Utils.RowBit | src/utils.ts:19-20 | `!!!(i & (1 << (n - j - 1)))`: variable j is true iff that bit of i is clear; definition, no contract of its own (RowValue and RowIndexBit state what it gives) |
| Utils.PartialAssignment | src/utils.ts:15-21 | the `assignment` record after the inner loop wrote its first j variables; definition, no contract of its own (AssignmentKeys and AssignmentValue state its keys and values) |
| Utils.Assignment | src/utils.ts:15-23 | the record pushed for row i; definition, no contract of its own (RowKeys and RowValue state its keys and values) |
| Utils.GenerateTruthAssignments | src/utils.ts:9-27 | exactly `2^n` assignments, the i-th being `Assignment(variables, i)`, that is `TruthAssignments(variables)` |
| Utils.TruthAssignments | src/utils.ts:9-27 | the reference list of assignments: exactly `2^n` rows, the i-th being `Assignment(variables, i)` |
| Utils.AssignmentKeys | src/utils.ts:17-21 | after j turns of the inner loop, the assignment's keys are exactly the first j variables |
| Utils.RowKeys | src/utils.ts:15-21 | each assignment has a key for every variable and no other |
| Utils.AssignmentValue | src/utils.ts:19-20 | after the inner loop's later turns, variable k still holds the value its own turn stored |
| Utils.RowValue | src/utils.ts:19-20 | in row i, the j-th of distinct variables is true iff bit `n - j - 1` of i is 0 |
| Utils.FirstRowAllTrue | src/utils.ts:19-20 | row 0 makes every variable true |
| Utils.ZeroBits | src/utils.ts:19 | every bit of 0 is 0 |
| Utils.LastRowAllFalse | src/utils.ts:19-20 | row `2^n - 1` makes every variable false |
| Utils.AllOnesBit | src/utils.ts:19 | the bits of `2^n - 1` below n are 1 |
| Utils.ShiftStep | src/utils.ts:19 | shifting by one more is halving after removing the bit |
| Utils.ShiftBelow | src/utils.ts:14 | an index below `2^n` shifted by n is 0 |
| Utils.RowIndexPrefix | src/utils.ts:17-20 | reading the first k variables of row i as inverted bits gives i shifted by `n - k` |
| Utils.RowIndexOfRow | src/utils.ts:14-24 | decoding row i gives back i |
| Utils.RowsDistinct | src/utils.ts:14-24 | for distinct variables the assignments are pairwise distinct |
| Utils.RowIndexBound | src/utils.ts:14 | the decoded index of any row is below `2^n` |
| Utils.RowIndexBit | src/utils.ts:19-20 | bit `n - j - 1` of the decoded index is 0 iff variable j is true |
| Utils.EveryAssignmentListed | src/utils.ts:14-24 | every assignment over exactly the variables is listed, at its decoded index |
| Columns.Set | src/index.ts:41 | `Map.set` stores the value under the key and keeps the map well formed; an existing key keeps the key order unchanged, a new key is appended at the end, and every other entry keeps its value |
| Columns.ValuesInOrder | src/index.ts:43 | `Array.from(expressionMap.values())`: one value per key, the i-th being the entry stored under the i-th key |
| Columns.SetAll | src/index.ts:36-41 | setting every candidate in turn gives a well-formed map |
| Columns.Renders | src/index.ts:39-46 | `expr.toString()` of every candidate, in order; definition, no contract of its own |
| Columns.SetAllStep | src/index.ts:41 | setting one more candidate extends the map built from the earlier ones |
| Columns.CollectColumns | src/index.ts:36-43 | the filter and `forEach` loops leave `Array.from(expressionMap.values())` equal to `ValuesInOrder(SetAll(candidates))` |
| Columns.FirstOccurrences | src/index.ts:37-43 | first-occurrence deduplication keeps only candidates, and their renderings are pairwise distinct |
| Columns.FirstOccurrencesCover | src/index.ts:37-43 | every candidate's rendering is among the kept columns' renderings |
| Columns.FirstOccurrencesKeep | src/index.ts:37-43 | a candidate that is the only one with its rendering is kept |
| Columns.FirstOccurrencesPrefix | src/index.ts:38 | the columns of a prefix lead the columns of the whole list |
| Columns.FirstOccurrencesOfDistinct | src/index.ts:37-43 | candidates with distinct renderings are kept unchanged |
| Columns.SetAllEntries | src/index.ts:39-41 | every entry of the map is a candidate stored under its own rendering |
| Columns.SetAllKeys | src/index.ts:39-41 | the map's keys, in order, are the renderings of the first occurrences |
| Columns.SetKeys | src/index.ts:41 | one `set` adds the rendering iff it is new, in the same order as first-occurrence deduplication |
| Columns.RendersSnoc | src/index.ts:46 | rendering a list with one more element renders that element last |
| Columns.SetAllIsFirstOccurrences | src/index.ts:36-43 | when equal renderings mean equal trees, the map's values are exactly the first occurrences |
| Columns.LastValueWins | src/index.ts:40-41 | for two different trees with one rendering, the map keeps the later tree while first-occurrence keeps the earlier |
| Driver.Process | src/index.ts:20-49 | the reference result of a line: a table exactly when the line tokenizes and parses, and a tokenization error exactly when tokenizing fails, so no parse is attempted then |
| Driver.VariableNodes | src/index.ts:35 | one `VariableNode` per variable name, in order; definition, no contract of its own |
| Driver.CandidatesOf | src/index.ts:38 | the variable nodes, then `subExpressions`; definition, no contract of its own (CandidatesDerived and CandidatesRenderDistinct state its properties) |
| Driver.ColumnsOf | src/index.ts:36-43 | the columns as the program picks them, through the map; definition, no contract of its own (ColumnsAreFirstOccurrences states what they are) |
| Driver.Cell | src/index.ts:48 | "T" if the column evaluates to true under the assignment, else "F"; definition, no contract of its own (CellIsHeaderValue states it per header) |
| Driver.DataRows | src/index.ts:47-49 | one row per assignment, one cell per column, every cell "T" or "F" |
| Driver.Tabulate | src/index.ts:46-49 | one header per column, one data row per assignment, and as many cells in each row as headers |
| Driver.ProcessExpression | src/index.ts:20-49 | tokenizes, parses with a fresh `Parser`, collects variables, columns and assignments, and returns exactly `Process(expression)` |
| Driver.TokenizationErrorIffRejected | src/index.ts:21-25 | the line stops with a tokenization error iff it contains a rejected character, and the error names the first one |
| Driver.ParsingErrorLocated | src/index.ts:27-32 | a parsing error arises only on fully accepted input, and a reported position points at an operator glyph of the line |
| Driver.SuccessFacts | src/index.ts:27-34 | on success the parsed tree is a tree of the grammar spelled by the tokens, `subExpressions` lists its nodes in completion order, and the variables are at most 26 sorted letters |
| Driver.CandidatesDerived | src/index.ts:35-38 | every candidate column is a tree of the grammar |
| Driver.ColumnsAreFirstOccurrences | src/index.ts:36-43 | the columns are the first occurrence of each rendering among variable nodes followed by `subExpressions` |
| Driver.CandidatesRenderDistinct | src/index.ts:38-39 | candidates with equal renderings are equal |
| Driver.VariableLeavesListed | src/index.ts:34-38 | every variable leaf the parser built renders as one of the variable columns |
| Driver.TableDimensions | src/index.ts:44-49 | there are `2^n` data rows and one cell per header in each |
| Driver.HeadersDistinct | src/index.ts:46 | the headers are pairwise distinct |
| Driver.HeadersLeadWithVariables | src/index.ts:34-46 | the first headers are exactly the sorted variable names, and their columns are the variable nodes |
| Driver.ParserVariablesAddNoColumn | src/index.ts:35-41 | after the variable columns, no column is a variable node |
| Driver.EveryNodeHasColumn | src/index.ts:38-46 | every node the parser built has its rendering among the headers |
| Driver.ExpressionHasColumn | src/index.ts:28-43 | the whole parsed expression is one of the columns |
| Driver.CellIsHeaderValue | src/index.ts:46-48 | each header parses back to its column, and a cell is "T" iff that column evaluates to true under the row's assignment |
| Driver.VariableColumnsCountDown | src/index.ts:44-48 | in row r, the j-th variable column shows "T" iff bit `n - j - 1` of r is 0 |
| Driver.UnreadVariablesGetColumns | src/index.ts:34-41 | for `A B`, `B` still gets a column although the parser never read it |
| Driver.VariablesOfAB | src/utils.ts:3-7 | the variables of `A B`'s tokens are `A`, `B` |
| Driver.CandidatesOfAB | src/index.ts:35-38 | the candidates for `A B` are `A`, `B`, `A` |
| Driver.FirstOccurrencesOfABA | src/index.ts:37-43 | deduplicating `A`, `B`, `A` renders as `A`, `B` |

## Left out

- `main` (src/index.ts:7-18): argument checking, reading the file, splitting and trimming lines and `process.exit`. This is I/O; the model starts from one line as a `string`.
- `console.error` (src/index.ts:23,30) and the text of the error messages. Errors are values: `ProcessError`, `TokenizeError` (the character and its one-based position), `ParseError` (a one-based position or the end of input).
- `printTruthTable` (src/index.ts:51): its definition is not part of this model. The model stops at the headers and data rows it is given.
- `src/result.ts` is not part of this model; `Results` defines its own `Result` and `Option`.
- Limits of three variables and four operators: no code in `src/` checks them, so nothing models them.
- Strings are `seq<char>`, so one `char` per JavaScript UTF-16 code unit is assumed. The four operator glyphs each fit in one code unit.
- `IsWhitespace` lists the characters `trim()` removes (ECMAScript WhiteSpace and LineTerminator) as constants. It does not follow later Unicode versions.
- Utils.GenerateTruthAssignments: `1 << n` is taken as `2^n` on unbounded integers. It would differ from JavaScript's 32-bit shift only for n ≥ 31. On tokenizer output n ≤ 26 (`GetVariablesAtMost26`), where the two agree.
- Parsing.Parser.ConsumeToken: it requires a current token. Every call site has just checked that a current token exists: a `match` of its text (parser.ts:25, 46, 67, 83) or parsePrimary's check of its type (parser.ts:102). So the source never reads past the end.
- Evaluate's lookup: a missing key is `undefined` in JavaScript and falsy in every use, and the model reads it as false. Every assignment has a key for each variable of the line (`RowKeys`).
- The `Valid` invariant of `Parser` and of `OrderedMap` is a ghost predicate. It is not a runtime check.
