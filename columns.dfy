/** The column list of src/index.ts: candidate expressions are keyed by their rendering and
    inserted into a JavaScript `Map`, whose values, in key order, become the columns. */
module Columns {
  import opened Node

  /** A JavaScript `Map` from rendered text to expression: its keys in insertion order, and
      the entry each key currently holds. */
  datatype OrderedMap = OrderedMap(keys: seq<string>, entries: map<string, ExpressionNode>)

  ghost predicate Valid(m: OrderedMap)
  {
    && (forall i, j :: 0 <= i < j < |m.keys| ==> m.keys[i] != m.keys[j])
    && (forall k :: k in m.entries <==> k in m.keys)
  }

  const Empty := OrderedMap([], map[])

  /** `Map.prototype.set`: a new key goes to the end; a key already present keeps its place
      and takes the new value. */
  function Set(m: OrderedMap, key: string, value: ExpressionNode): (r: OrderedMap)
    requires Valid(m)
    ensures Valid(r) && key in r.entries && r.entries[key] == value
    ensures m.keys <= r.keys && |r.keys| <= |m.keys| + 1
    ensures key in m.entries ==> r.keys == m.keys
    ensures key !in m.entries ==> r.keys == m.keys + [key]
    ensures forall k :: k in m.entries && k != key ==> k in r.entries && r.entries[k] == m.entries[k]
  {
    if key in m.entries then OrderedMap(m.keys, m.entries[key := value])
    else OrderedMap(m.keys + [key], m.entries[key := value])
  }

  /** `Map.prototype.values`, in key order. */
  function ValuesInOrder(m: OrderedMap): (vs: seq<ExpressionNode>)
    requires Valid(m)
    ensures |vs| == |m.keys|
    ensures forall i :: 0 <= i < |vs| ==> m.keys[i] in m.entries && vs[i] == m.entries[m.keys[i]]
  {
    seq(|m.keys|, i requires 0 <= i < |m.keys| => m.entries[m.keys[i]])
  }

  /** Setting every candidate under its rendering, in order, starting from an empty map. */
  function SetAll(candidates: seq<ExpressionNode>): (m: OrderedMap)
    ensures Valid(m)
  {
    if |candidates| == 0 then Empty
    else
      var last := candidates[|candidates| - 1];
      Set(SetAll(candidates[..|candidates| - 1]), ToString(last), last)
  }

  function Renders(cs: seq<ExpressionNode>): (rs: seq<string>)
  {
    seq(|cs|, i requires 0 <= i < |cs| => ToString(cs[i]))
  }

  /** The deduplication block of `processExpression`: key every candidate by its rendering,
      drop those whose key the map already has, set the rest, and read the values back. The
      filter runs over the whole array before the first `set`, so it asks an empty map and
      keeps every candidate. */
  method CollectColumns(candidates: seq<ExpressionNode>) returns (expressions: seq<ExpressionNode>)
    ensures expressions == ValuesInOrder(SetAll(candidates))
  {
    var expressionMap := Empty;

    var kept: seq<ExpressionNode> := [];
    for i := 0 to |candidates|
      invariant kept == candidates[..i]
    {
      if ToString(candidates[i]) !in expressionMap.entries {
        kept := kept + [candidates[i]];
      }
    }

    for i := 0 to |kept|
      invariant expressionMap == SetAll(kept[..i])
    {
      SetAllStep(kept, i);
      expressionMap := Set(expressionMap, ToString(kept[i]), kept[i]);
    }
    assert kept[..|kept|] == candidates;

    expressions := ValuesInOrder(expressionMap);
  }

  /** Setting one more candidate extends the map built from the ones before it. */
  lemma SetAllStep(cs: seq<ExpressionNode>, i: nat)
    requires i < |cs|
    ensures SetAll(cs[..i + 1]) == Set(SetAll(cs[..i]), ToString(cs[i]), cs[i])
  {
    assert cs[..i + 1][..i] == cs[..i];
  }

  /** The reference deduplication: keep a candidate exactly when no earlier one rendered the
      same, in their original order. */
  function FirstOccurrences(cs: seq<ExpressionNode>): (d: seq<ExpressionNode>)
    ensures forall i, j :: 0 <= i < j < |d| ==> ToString(d[i]) != ToString(d[j])
    ensures forall x :: x in d ==> x in cs
  {
    if |cs| == 0 then []
    else
      var init := cs[..|cs| - 1];
      var last := cs[|cs| - 1];
      var d := FirstOccurrences(init);
      if ToString(last) in Renders(d) then d
      else
        assert forall i :: 0 <= i < |d| ==> Renders(d)[i] == ToString(d[i]);
        d + [last]
  }

  /** Every candidate's rendering heads some kept column. */
  lemma {:induction false} FirstOccurrencesCover(cs: seq<ExpressionNode>)
    ensures forall x :: x in cs ==> ToString(x) in Renders(FirstOccurrences(cs))
  {
    if |cs| > 0 {
      var init := cs[..|cs| - 1];
      FirstOccurrencesCover(init);
      assert cs == init + [cs[|cs| - 1]];
      var d := FirstOccurrences(init);
      forall x | x in cs ensures ToString(x) in Renders(FirstOccurrences(cs)) {
        if x in init {
          var i :| 0 <= i < |d| && Renders(d)[i] == ToString(x);
          assert Renders(FirstOccurrences(cs))[i] == ToString(x);
        } else if ToString(x) !in Renders(d) {
          assert Renders(FirstOccurrences(cs))[|d|] == ToString(x);
        }
      }
    }
  }

  /** When a rendering names one candidate only, that candidate is kept. */
  lemma FirstOccurrencesKeep(cs: seq<ExpressionNode>, x: ExpressionNode)
    requires RenderDetermines(cs) && x in cs
    ensures x in FirstOccurrences(cs)
  {
    FirstOccurrencesCover(cs);
    var d := FirstOccurrences(cs);
    var c :| 0 <= c < |d| && Renders(d)[c] == ToString(x);
    assert d[c] in cs;
  }

  /** Later candidates only ever add columns after the earlier ones. */
  lemma {:induction false} FirstOccurrencesPrefix(a: seq<ExpressionNode>, b: seq<ExpressionNode>)
    ensures FirstOccurrences(a) <= FirstOccurrences(a + b)
    decreases |b|
  {
    if |b| > 0 {
      var b' := b[..|b| - 1];
      assert (a + b)[..|a + b| - 1] == a + b';
      FirstOccurrencesPrefix(a, b');
    } else {
      assert a + b == a;
    }
  }

  /** Candidates with pairwise distinct renderings are all kept, in order. */
  lemma {:induction false} FirstOccurrencesOfDistinct(cs: seq<ExpressionNode>)
    requires forall i, j :: 0 <= i < j < |cs| ==> ToString(cs[i]) != ToString(cs[j])
    ensures FirstOccurrences(cs) == cs
  {
    if |cs| > 0 {
      var init := cs[..|cs| - 1];
      var last := cs[|cs| - 1];
      FirstOccurrencesOfDistinct(init);
      forall i | 0 <= i < |init| ensures Renders(init)[i] != ToString(last) {
        assert init[i] == cs[i];
      }
      assert init + [last] == cs;
    }
  }

  /** Equal renderings among the candidates only ever come from equal trees. */
  ghost predicate RenderDetermines(cs: seq<ExpressionNode>)
  {
    forall x, y :: x in cs && y in cs && ToString(x) == ToString(y) ==> x == y
  }

  /** Every entry of the map is a candidate stored under its own rendering. */
  lemma {:induction false} SetAllEntries(cs: seq<ExpressionNode>)
    ensures forall k :: k in SetAll(cs).entries ==> SetAll(cs).entries[k] in cs && ToString(SetAll(cs).entries[k]) == k
  {
    if |cs| > 0 {
      var init := cs[..|cs| - 1];
      assert forall x :: x in init ==> x in cs;
      SetAllEntries(init);
    }
  }

  /** The map's keys are the renderings of the reference columns, in order. */
  lemma {:induction false} SetAllKeys(cs: seq<ExpressionNode>)
    ensures SetAll(cs).keys == Renders(FirstOccurrences(cs))
  {
    if |cs| > 0 {
      var init := cs[..|cs| - 1];
      SetAllKeys(init);
      SetKeys(SetAll(init), FirstOccurrences(init), cs[|cs| - 1]);
    }
  }

  lemma SetKeys(m: OrderedMap, d: seq<ExpressionNode>, last: ExpressionNode)
    requires Valid(m) && m.keys == Renders(d)
    ensures Set(m, ToString(last), last).keys
      == Renders(if ToString(last) in Renders(d) then d else d + [last])
  {
    RendersSnoc(d, last);
  }

  lemma RendersSnoc(d: seq<ExpressionNode>, last: ExpressionNode)
    ensures Renders(d + [last]) == Renders(d) + [ToString(last)]
  {
    assert forall i :: 0 <= i < |d| ==> (d + [last])[i] == d[i];
  }

  /** The map the source builds, read back in key order, is the reference deduplication
      whenever equal renderings come only from equal trees. */
  lemma SetAllIsFirstOccurrences(cs: seq<ExpressionNode>)
    requires RenderDetermines(cs)
    ensures ValuesInOrder(SetAll(cs)) == FirstOccurrences(cs)
  {
    SetAllKeys(cs);
    SetAllEntries(cs);
    var m := SetAll(cs);
    var d := FirstOccurrences(cs);
    forall i | 0 <= i < |d| ensures ValuesInOrder(m)[i] == d[i] {
      assert m.keys[i] == ToString(d[i]);
    }
  }

  /** Without that condition the two differ: the source keeps the first key position but the
      last value stored under it, while the reference keeps the first tree. */
  lemma LastValueWins()
    ensures var first := BinaryOperatorNode(And, VariableNode('A'), BinaryOperatorNode(Or, VariableNode('B'), VariableNode('C')));
      var second := BinaryOperatorNode(Or, BinaryOperatorNode(And, VariableNode('A'), VariableNode('B')), VariableNode('C'));
      && ToString(first) == ToString(second)
      && ValuesInOrder(SetAll([first, second])) == [second]
      && FirstOccurrences([first, second]) == [first]
  {
    var first := BinaryOperatorNode(And, VariableNode('A'), BinaryOperatorNode(Or, VariableNode('B'), VariableNode('C')));
    var second := BinaryOperatorNode(Or, BinaryOperatorNode(And, VariableNode('A'), VariableNode('B')), VariableNode('C'));
    var key := ToString(first);
    assert key == "A ∧ B ∨ C";
    assert ToString(second) == "A ∧ B ∨ C";
    assert [first, second][..1] == [first];
    assert [first][..0] == [];
    assert SetAll([first]) == OrderedMap([key], map[key := first]);
    assert SetAll([first, second]) == OrderedMap([key], map[key := second]);
    assert FirstOccurrences([first]) == [first];
    assert Renders([first]) == [key];
  }
}
