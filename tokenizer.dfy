/** The tokenizer of src/tokenizer.ts: a line of text becomes a sequence of
    positioned variable and operator tokens, or the first offending character. */
module Tokenizer {
  import opened Results

  datatype TokenType = VariableToken | OperatorToken

  /** A token: its kind, its one-character text and its zero-based offset in the line. */
  datatype Token = Token(tokenType: TokenType, value: char, position: nat)

  /** The offending character and its ONE-based position, as the error message reports it. */
  datatype TokenizeError = InvalidCharacter(character: char, position: nat)

  /** The operator alphabet: negation, conjunction, disjunction, implication. */
  const Operators: seq<char> := "~∧∨→"

  /** The variable alphabet. */
  const Variables: seq<char> := "ABCDEFGHIJKLMNOPQRSTUVWXYZ"

  /** The characters `c.trim() === ""` holds for: ECMAScript WhiteSpace and LineTerminator. */
  predicate IsWhitespace(c: char)
  {
    c == '\t' || c == '\n' || c == '\U{000B}' || c == '\U{000C}' || c == '\r' || c == ' '
    || c == '\U{00A0}' || c == '\U{1680}' || ('\U{2000}' <= c <= '\U{200A}')
    || c == '\U{2028}' || c == '\U{2029}' || c == '\U{202F}' || c == '\U{205F}'
    || c == '\U{3000}' || c == '\U{FEFF}'
  }

  /** Membership in the variable alphabet: an uppercase Latin letter. */
  predicate IsVariableChar(c: char)
  {
    'A' <= c <= 'Z'
  }

  /** Membership in the operator alphabet. */
  predicate IsOperatorChar(c: char)
  {
    c == '~' || c == '∧' || c == '∨' || c == '→'
  }

  lemma VariablesAreUppercase(c: char)
    ensures c in Variables <==> IsVariableChar(c)
  {
    assert |Variables| == 26;
    assert forall i :: 0 <= i < 26 ==> Variables[i] as int == 'A' as int + i;
    if IsVariableChar(c) {
      assert Variables[c as int - 'A' as int] == c;
    }
  }

  lemma OperatorsAreTheFourGlyphs(c: char)
    ensures c in Operators <==> IsOperatorChar(c)
  {
    assert Operators == ['~', '∧', '∨', '→'];
  }

  /** A character the tokenizer does not reject. */
  predicate IsAccepted(c: char)
  {
    IsWhitespace(c) || IsVariableChar(c) || IsOperatorChar(c)
  }

  /** The kind of token a non-whitespace accepted character becomes. */
  function TypeOf(c: char): TokenType
  {
    if IsVariableChar(c) then VariableToken else OperatorToken
  }

  /** Every token's kind agrees with its text. */
  predicate WellTyped(ts: seq<Token>)
  {
    forall k :: 0 <= k < |ts| ==> ts[k].tokenType == TypeOf(ts[k].value)
  }

  /** The token texts, in order. */
  function Values(ts: seq<Token>): seq<char>
  {
    seq(|ts|, k requires 0 <= k < |ts| => ts[k].value)
  }

  /** The characters of `s` that are not whitespace, in order. */
  function NonWhitespace(s: string): seq<char>
  {
    if s == [] then []
    else NonWhitespace(s[..|s| - 1]) + (if IsWhitespace(s[|s| - 1]) then [] else [s[|s| - 1]])
  }

  /** What the scan does with the character `c` at offset `i` once `tokens` have been emitted. */
  function Scan(tokens: seq<Token>, c: char, i: nat): (r: Result<seq<Token>, TokenizeError>)
    ensures r.Err? <==> !IsAccepted(c)
    ensures r.Err? ==> r.error == InvalidCharacter(c, i + 1)
    ensures r.Ok? ==> |tokens| <= |r.value| <= |tokens| + 1 && r.value[..|tokens|] == tokens
    ensures r.Ok? ==> (|r.value| == |tokens| <==> IsWhitespace(c))
    ensures r.Ok? && |r.value| > |tokens| ==> r.value[|tokens|].value == c && r.value[|tokens|].position == i
  {
    if IsWhitespace(c) then Ok(tokens)
    else if IsVariableChar(c) then Ok(tokens + [Token(VariableToken, c, i)])
    else if IsOperatorChar(c) then Ok(tokens + [Token(OperatorToken, c, i)])
    else Err(InvalidCharacter(c, i + 1))
  }

  /** The result of tokenizing `s`: the scan of its last character after the tokens of the
      rest, unless the rest already failed. */
  function Lex(s: string): (r: Result<seq<Token>, TokenizeError>)
    ensures r.Ok? ==> |r.value| <= |s|
    ensures r.Err? ==> 1 <= r.error.position <= |s|
  {
    if s == [] then Ok([])
    else
      var prev := Lex(s[..|s| - 1]);
      if prev.Err? then prev else Scan(prev.value, s[|s| - 1], |s| - 1)
  }

  /** `tokenize`: one left-to-right pass that skips whitespace, emits a token per letter or
      operator glyph, and stops at the first other character. */
  method Tokenize(expression: string) returns (r: Result<seq<Token>, TokenizeError>)
    ensures r == Lex(expression)
  {
    var tokens: seq<Token> := [];
    for i := 0 to |expression|
      invariant Lex(expression[..i]) == Ok(tokens)
    {
      var ch := expression[i];
      assert expression[..i + 1][..i] == expression[..i];
      VariablesAreUppercase(ch);
      OperatorsAreTheFourGlyphs(ch);
      if IsWhitespace(ch) {
        continue;
      }
      if ch in Variables {
        tokens := tokens + [Token(VariableToken, ch, i)];
        continue;
      }
      if ch in Operators {
        tokens := tokens + [Token(OperatorToken, ch, i)];
        continue;
      }
      LexErrorPersists(expression, i + 1);
      return Err(InvalidCharacter(ch, i + 1));
    }
    assert expression[..|expression|] == expression;
    return Ok(tokens);
  }

  /** Once a prefix fails, the whole line fails with the same error. */
  lemma {:induction false} LexErrorPersists(s: string, i: nat)
    requires i <= |s| && Lex(s[..i]).Err?
    ensures Lex(s) == Lex(s[..i])
    decreases |s|
  {
    if i < |s| {
      assert s[..|s| - 1][..i] == s[..i];
      LexErrorPersists(s[..|s| - 1], i);
    } else {
      assert s[..i] == s;
    }
  }

  /** Tokenizing succeeds exactly when every character is whitespace, a letter or an operator. */
  lemma {:induction false} LexSucceedsIff(s: string)
    ensures Lex(s).Ok? <==> forall i :: 0 <= i < |s| ==> IsAccepted(s[i])
  {
    if s != [] {
      var p := s[..|s| - 1];
      LexSucceedsIff(p);
      assert forall i :: 0 <= i < |p| ==> p[i] == s[i];
    }
  }

  /** Every token sits at a real offset, carries the character found there, and has the kind
      that character calls for; whitespace never becomes a token. */
  lemma {:induction false} LexTokensPlaced(s: string)
    requires Lex(s).Ok?
    ensures WellTyped(Lex(s).value)
    ensures forall k :: 0 <= k < |Lex(s).value| ==>
      var t := Lex(s).value[k];
      t.position < |s| && s[t.position] == t.value && !IsWhitespace(t.value) && IsAccepted(t.value)
  {
    if s != [] {
      var p := s[..|s| - 1];
      LexTokensPlaced(p);
      assert forall i :: 0 <= i < |p| ==> p[i] == s[i];
    }
  }

  /** Tokens come out in source order: their offsets strictly increase. */
  lemma {:induction false} LexInSourceOrder(s: string)
    requires Lex(s).Ok?
    ensures forall j, k :: 0 <= j < k < |Lex(s).value| ==>
      Lex(s).value[j].position < Lex(s).value[k].position
  {
    if s != [] {
      var p := s[..|s| - 1];
      LexInSourceOrder(p);
      LexTokensPlaced(p);
    }
  }

  /** The token texts are exactly the non-whitespace characters, so there is one token per
      non-whitespace character. */
  lemma {:induction false} LexValues(s: string)
    requires Lex(s).Ok?
    ensures Values(Lex(s).value) == NonWhitespace(s)
    ensures |Lex(s).value| == |NonWhitespace(s)|
  {
    if s != [] {
      var p := s[..|s| - 1];
      LexValues(p);
      var ts := Lex(p).value;
      if !IsWhitespace(s[|s| - 1]) {
        var t := Lex(s).value[|ts|];
        assert Values(ts + [t]) == Values(ts) + [t.value];
      }
    }
  }

  /** On failure the error names the first rejected character and its one-based position. */
  lemma {:induction false} LexErrorIsFirstRejected(s: string)
    requires Lex(s).Err?
    ensures var e := Lex(s).error;
      1 <= e.position <= |s| && s[e.position - 1] == e.character && !IsAccepted(e.character)
      && forall i :: 0 <= i < e.position - 1 ==> IsAccepted(s[i])
  {
    var p := s[..|s| - 1];
    assert forall i :: 0 <= i < |p| ==> p[i] == s[i];
    if Lex(p).Err? {
      LexErrorIsFirstRejected(p);
    } else {
      LexSucceedsIff(p);
    }
  }

  /** Dropping whitespace distributes over concatenation. */
  lemma {:induction false} NonWhitespaceAppend(s: string, t: string)
    ensures NonWhitespace(s + t) == NonWhitespace(s) + NonWhitespace(t)
    decreases |t|
  {
    if t == [] {
      assert s + t == s;
    } else {
      var t' := t[..|t| - 1];
      assert (s + t)[..|s + t| - 1] == s + t';
      NonWhitespaceAppend(s, t');
    }
  }
}
