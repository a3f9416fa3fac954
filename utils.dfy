/** src/utils.ts: collecting the distinct variables of a token list in sorted order, and
    enumerating every truth assignment of a list of variables. */
module Utils {
  import opened Tokenizer
  import opened Node

  // ----- getVariables -----

  predicate StrictlyIncreasing(s: seq<char>)
  {
    forall i, j :: 0 <= i < j < |s| ==> s[i] < s[j]
  }

  /** Some variable-typed token of `tokens` has the text `c`. */
  predicate Declares(tokens: seq<Token>, c: char)
  {
    exists k :: 0 <= k < |tokens| && tokens[k].tokenType == VariableToken && tokens[k].value == c
  }

  /** Adds `c` to a strictly increasing sequence, keeping it strictly increasing. */
  function Insert(s: seq<char>, c: char): (r: seq<char>)
    requires StrictlyIncreasing(s)
    ensures StrictlyIncreasing(r)
    ensures forall x :: x in r <==> x in s || x == c
  {
    if |s| == 0 then [c]
    else if c < s[0] then [c] + s
    else if c == s[0] then s
    else
      var rest := Insert(s[1..], c);
      assert forall x :: x in rest ==> s[0] < x;
      [s[0]] + rest
  }

  /** `getVariables`: the texts of the variable tokens, each once, in ascending order. */
  function GetVariables(tokens: seq<Token>): (vs: seq<char>)
    ensures StrictlyIncreasing(vs)
    ensures forall c :: c in vs <==> Declares(tokens, c)
  {
    if |tokens| == 0 then []
    else
      var init := tokens[..|tokens| - 1];
      var last := tokens[|tokens| - 1];
      var vs := GetVariables(init);
      assert forall c :: Declares(init, c) ==> Declares(tokens, c) by {
        forall c | Declares(init, c) ensures Declares(tokens, c) {
          var k :| 0 <= k < |init| && init[k].tokenType == VariableToken && init[k].value == c;
          assert tokens[k] == init[k];
        }
      }
      assert forall c :: Declares(tokens, c) ==> Declares(init, c) || (last.tokenType == VariableToken && c == last.value) by {
        forall c | Declares(tokens, c) ensures Declares(init, c) || (last.tokenType == VariableToken && c == last.value) {
          var k :| 0 <= k < |tokens| && tokens[k].tokenType == VariableToken && tokens[k].value == c;
          if k < |init| {
            assert init[k] == tokens[k];
          }
        }
      }
      if last.tokenType == VariableToken then Insert(vs, last.value) else vs
  }

  /** A strictly increasing sequence is determined by its elements: the order `getVariables`
      returns is the only ascending listing of the distinct variables. */
  lemma {:induction false} AscendingListingUnique(s: seq<char>, t: seq<char>)
    requires StrictlyIncreasing(s) && StrictlyIncreasing(t)
    requires forall c :: c in s <==> c in t
    ensures s == t
    decreases |s|
  {
    if |s| > 0 {
      assert s[0] in s;
    }
    if |t| > 0 {
      assert t[0] in t;
    }
    if |s| > 0 && |t| > 0 {
      assert s[0] in t;
      assert t[0] in s;
      assert s[0] == t[0];
      forall c ensures c in s[1..] <==> c in t[1..] {
        if c in s[1..] {
          assert s[0] < c;
          assert c in t;
        }
        if c in t[1..] {
          assert t[0] < c;
          assert c in s;
        }
      }
      AscendingListingUnique(s[1..], t[1..]);
      assert s == [s[0]] + s[1..];
      assert t == [t[0]] + t[1..];
    }
  }

  /** The variables of well-typed tokens are upper-case letters, so there are at most 26 of
      them and `1 << n` in `generateTruthAssignments` never leaves the 32-bit range. */
  lemma GetVariablesAtMost26(tokens: seq<Token>)
    requires WellTyped(tokens)
    ensures var vs := GetVariables(tokens);
      (forall k :: 0 <= k < |vs| ==> IsVariableChar(vs[k])) && |vs| <= 26
  {
    var vs := GetVariables(tokens);
    forall k | 0 <= k < |vs| ensures IsVariableChar(vs[k]) {
      assert Declares(tokens, vs[k]);
    }
    if |vs| > 0 {
      AscendingFromA(vs, |vs| - 1);
    }
  }

  lemma {:induction false} AscendingFromA(s: seq<char>, k: nat)
    requires StrictlyIncreasing(s) && k < |s|
    requires forall i :: 0 <= i < |s| ==> IsVariableChar(s[i])
    ensures s[k] as int >= 'A' as int + k
  {
    if k > 0 {
      AscendingFromA(s, k - 1);
    }
  }

  // ----- generateTruthAssignments -----

  function Pow2(n: nat): (p: nat)
    ensures p >= 1
  {
    if n == 0 then 1 else 2 * Pow2(n - 1)
  }

  /** Bit `b` of `i`, 0 or 1: the source tests it as `i & (1 << b)`. */
  function Bit(i: nat, b: nat): (d: nat)
    ensures d < 2
  {
    if b == 0 then i % 2 else Bit(i / 2, b - 1)
  }

  /** The value of the variable at index `j` (of `n`) in row `i`: true iff bit `n - j - 1` of
      `i` is clear, so row 0 is all true and the first variable is the most significant bit. */
  function RowBit(i: nat, n: nat, j: nat): bool
    requires j < n
  {
    Bit(i, n - j - 1) == 0
  }

  /** The record for row `i` after its first `j` variables were written, in index order. */
  function PartialAssignment(variables: seq<char>, i: nat, j: nat): map<char, bool>
    requires j <= |variables|
  {
    if j == 0 then map[]
    else PartialAssignment(variables, i, j - 1)[variables[j - 1] := RowBit(i, |variables|, j - 1)]
  }

  /** The record built for row `i`. */
  function Assignment(variables: seq<char>, i: nat): map<char, bool>
  {
    PartialAssignment(variables, i, |variables|)
  }

  /** All rows, in order. */
  function TruthAssignments(variables: seq<char>): (rows: seq<map<char, bool>>)
    ensures |rows| == Pow2(|variables|)
  {
    seq(Pow2(|variables|), i requires 0 <= i => Assignment(variables, i))
  }

  /** `generateTruthAssignments`: two nested counting loops. */
  method GenerateTruthAssignments(variables: seq<char>) returns (assignments: seq<map<char, bool>>)
    ensures |assignments| == Pow2(|variables|)
    ensures forall i :: 0 <= i < |assignments| ==> assignments[i] == Assignment(variables, i)
    ensures assignments == TruthAssignments(variables)
  {
    var numVariables := |variables|;
    var numCombinations := Pow2(numVariables);
    assignments := [];

    for i := 0 to numCombinations
      invariant |assignments| == i
      invariant forall k :: 0 <= k < i ==> assignments[k] == Assignment(variables, k)
    {
      var assignment: map<char, bool> := map[];

      for j := 0 to numVariables
        invariant assignment == PartialAssignment(variables, i, j)
      {
        var variable := variables[j];
        var value := Bit(i, numVariables - j - 1) != 0;
        assignment := assignment[variable := !value];
      }

      assignments := assignments + [assignment];
    }
  }

  /** Each row has a key for every variable and no other key. */
  lemma {:induction false} AssignmentKeys(variables: seq<char>, i: nat, j: nat)
    requires j <= |variables|
    ensures forall c :: c in PartialAssignment(variables, i, j) <==> c in variables[..j]
  {
    if j > 0 {
      AssignmentKeys(variables, i, j - 1);
      assert variables[..j] == variables[..j - 1] + [variables[j - 1]];
    }
  }

  lemma RowKeys(variables: seq<char>, i: nat)
    ensures forall c :: c in Assignment(variables, i) <==> c in variables
  {
    AssignmentKeys(variables, i, |variables|);
    assert variables[..|variables|] == variables;
  }

  predicate Distinct(variables: seq<char>)
  {
    forall a, b :: 0 <= a < b < |variables| ==> variables[a] != variables[b]
  }

  /** With distinct variables, the variable at index `k` holds its row bit. */
  lemma {:induction false} AssignmentValue(variables: seq<char>, i: nat, j: nat, k: nat)
    requires Distinct(variables) && k < j <= |variables|
    ensures Lookup(PartialAssignment(variables, i, j), variables[k]) == RowBit(i, |variables|, k)
  {
    if k < j - 1 {
      AssignmentValue(variables, i, j - 1, k);
    }
  }

  lemma RowValue(variables: seq<char>, i: nat, k: nat)
    requires Distinct(variables) && k < |variables|
    ensures Lookup(Assignment(variables, i), variables[k]) == RowBit(i, |variables|, k)
  {
    AssignmentValue(variables, i, |variables|, k);
  }

  /** The first row makes every variable true. */
  lemma FirstRowAllTrue(variables: seq<char>, k: nat)
    requires Distinct(variables) && k < |variables|
    ensures Lookup(TruthAssignments(variables)[0], variables[k])
  {
    RowValue(variables, 0, k);
    ZeroBits(|variables| - k - 1);
  }

  lemma {:induction false} ZeroBits(b: nat)
    ensures Bit(0, b) == 0
  {
    if b > 0 {
      ZeroBits(b - 1);
    }
  }

  /** The last row makes every variable false. */
  lemma LastRowAllFalse(variables: seq<char>, k: nat)
    requires Distinct(variables) && k < |variables|
    ensures !Lookup(TruthAssignments(variables)[Pow2(|variables|) - 1], variables[k])
  {
    var n := |variables|;
    RowValue(variables, Pow2(n) - 1, k);
    AllOnesBit(n - k - 1, n);
  }

  /** Every bit below `n` of `2^n - 1` is set. */
  lemma {:induction false} AllOnesBit(b: nat, n: nat)
    requires b < n
    ensures Bit(Pow2(n) - 1, b) == 1
  {
    assert (Pow2(n) - 1) / 2 == Pow2(n - 1) - 1;
    if b > 0 {
      AllOnesBit(b - 1, n - 1);
    }
  }

  // ----- Reading a row back as its index -----

  /** The index a record stands for: its first `k` variables read as binary digits, most
      significant first, a false value being a 1. */
  function RowIndex(variables: seq<char>, row: map<char, bool>, k: nat): nat
    requires k <= |variables|
  {
    if k == 0 then 0
    else 2 * RowIndex(variables, row, k - 1) + (if Lookup(row, variables[k - 1]) then 0 else 1)
  }

  /** `i` without its lowest `m` bits. */
  function Shift(i: nat, m: nat): nat
  {
    if m == 0 then i else Shift(i / 2, m - 1)
  }

  lemma {:induction false} ShiftStep(i: nat, m: nat)
    ensures 2 * Shift(i, m + 1) + Bit(i, m) == Shift(i, m)
  {
    if m > 0 {
      ShiftStep(i / 2, m - 1);
    }
  }

  lemma {:induction false} ShiftBelow(i: nat, n: nat)
    requires i < Pow2(n)
    ensures Shift(i, n) == 0
  {
    if n > 0 {
      ShiftBelow(i / 2, n - 1);
    }
  }

  lemma {:induction false} RowIndexPrefix(variables: seq<char>, i: nat, k: nat)
    requires Distinct(variables) && k <= |variables| && i < Pow2(|variables|)
    ensures RowIndex(variables, Assignment(variables, i), k) == Shift(i, |variables| - k)
  {
    if k == 0 {
      ShiftBelow(i, |variables|);
    } else {
      var n := |variables|;
      RowIndexPrefix(variables, i, k - 1);
      RowValue(variables, i, k - 1);
      ShiftStep(i, n - k);
      var row := Assignment(variables, i);
      assert RowIndex(variables, row, k - 1) == Shift(i, n - k + 1);
      assert (if Lookup(row, variables[k - 1]) then 0 else 1) == Bit(i, n - k);
    }
  }

  /** Row `i` encodes `i`: reading it back yields its index. */
  lemma RowIndexOfRow(variables: seq<char>, i: nat)
    requires Distinct(variables) && i < Pow2(|variables|)
    ensures RowIndex(variables, TruthAssignments(variables)[i], |variables|) == i
  {
    RowIndexPrefix(variables, i, |variables|);
  }

  /** For distinct variables, no two rows are the same assignment. */
  lemma RowsDistinct(variables: seq<char>, i: nat, i': nat)
    requires Distinct(variables) && i < i' < Pow2(|variables|)
    ensures TruthAssignments(variables)[i] != TruthAssignments(variables)[i']
  {
    RowIndexOfRow(variables, i);
    RowIndexOfRow(variables, i');
  }

  lemma {:induction false} RowIndexBound(variables: seq<char>, row: map<char, bool>, k: nat)
    requires k <= |variables|
    ensures RowIndex(variables, row, k) < Pow2(k)
  {
    if k > 0 {
      RowIndexBound(variables, row, k - 1);
    }
  }

  /** Bit `k - j - 1` of the index read from the first `k` variables is the digit of variable `j`. */
  lemma {:induction false} RowIndexBit(variables: seq<char>, row: map<char, bool>, k: nat, j: nat)
    requires j < k <= |variables|
    ensures Bit(RowIndex(variables, row, k), k - j - 1) == (if Lookup(row, variables[j]) then 0 else 1)
  {
    var x := RowIndex(variables, row, k);
    assert x / 2 == RowIndex(variables, row, k - 1);
    if j < k - 1 {
      RowIndexBit(variables, row, k - 1, j);
    }
  }

  /** Every assignment of the variables is listed: a record whose keys are exactly the
      variables is the row at the index it encodes. */
  lemma EveryAssignmentListed(variables: seq<char>, row: map<char, bool>)
    requires Distinct(variables)
    requires forall c :: c in row <==> c in variables
    ensures RowIndex(variables, row, |variables|) < Pow2(|variables|)
    ensures TruthAssignments(variables)[RowIndex(variables, row, |variables|)] == row
  {
    var n := |variables|;
    var i := RowIndex(variables, row, n);
    RowIndexBound(variables, row, n);
    var listed := Assignment(variables, i);
    RowKeys(variables, i);
    forall c | c in row ensures listed[c] == row[c] {
      var j :| 0 <= j < n && variables[j] == c;
      RowValue(variables, i, j);
      RowIndexBit(variables, row, n, j);
    }
    assert listed == row;
  }
}
