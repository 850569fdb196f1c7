/** Python floats that may be `math.inf` or `-math.inf`, and the two strict folds the source
    writes by hand: "first index of the minimum" and "first index of the maximum". */
module ExtReals {

  datatype ExtReal = NegInf | Fin(r: real) | PosInf

  /** Python's `<` on floats restricted to the values the source produces (no NaN). */
  predicate Lt(a: ExtReal, b: ExtReal)
  {
    match a
    case NegInf => !b.NegInf?
    case Fin(x) => (b.Fin? && x < b.r) || b.PosInf?
    case PosInf => false
  }

  predicate Le(a: ExtReal, b: ExtReal)
  {
    a == b || Lt(a, b)
  }

  lemma LtTransitive(a: ExtReal, b: ExtReal, c: ExtReal)
    requires Lt(a, b) && Lt(b, c)
    ensures Lt(a, c)
  {
  }

  /** Some value is strictly below `inf`, so a `< minValue` scan starting at `inf` picks one. */
  predicate SomeBelowInf(values: seq<ExtReal>)
  {
    exists i :: 0 <= i < |values| && values[i] != PosInf
  }

  /** Some value is strictly above `-inf`, so a `> maxValue` scan starting at `-inf` picks one. */
  predicate SomeAboveNegInf(values: seq<ExtReal>)
  {
    exists i :: 0 <= i < |values| && values[i] != NegInf
  }

  /** `k` is where a left-to-right scan with strict `<`, started at `inf`, ends:
      the minimum is at `k`, it is below `inf`, and every earlier value is strictly larger. */
  ghost predicate IsFirstMinimum(values: seq<ExtReal>, k: int)
  {
    && 0 <= k < |values|
    && values[k] != PosInf
    && (forall j :: 0 <= j < |values| ==> Le(values[k], values[j]))
    && (forall j :: 0 <= j < k ==> Lt(values[k], values[j]))
  }

  /** Mirror image of IsFirstMinimum for a strict `>` scan started at `-inf`. */
  ghost predicate IsFirstMaximum(values: seq<ExtReal>, k: int)
  {
    && 0 <= k < |values|
    && values[k] != NegInf
    && (forall j :: 0 <= j < |values| ==> Le(values[j], values[k]))
    && (forall j :: 0 <= j < k ==> Lt(values[j], values[k]))
  }

  /** The index a strict-`<` scan selects, defined by the same recursion on prefixes. */
  function ArgMin(values: seq<ExtReal>): (k: nat)
    requires SomeBelowInf(values)
    ensures IsFirstMinimum(values, k)
    decreases |values|
  {
    var n := |values| - 1;
    var front := values[..n];
    if !SomeBelowInf(front) then
      assert forall j :: 0 <= j < n ==> front[j] == values[j] == PosInf;
      n
    else
      var k := ArgMin(front);
      assert forall j :: 0 <= j < n ==> front[j] == values[j];
      if Lt(values[n], values[k]) then
        assert forall j :: 0 <= j < n ==> Lt(values[n], values[j]) by {
          forall j | 0 <= j < n ensures Lt(values[n], values[j]) {
            if values[k] != values[j] { LtTransitive(values[n], values[k], values[j]); }
          }
        }
        n
      else
        k
  }

  /** The index a strict-`>` scan selects. */
  function ArgMax(values: seq<ExtReal>): (k: nat)
    requires SomeAboveNegInf(values)
    ensures IsFirstMaximum(values, k)
    decreases |values|
  {
    var n := |values| - 1;
    var front := values[..n];
    if !SomeAboveNegInf(front) then
      assert forall j :: 0 <= j < n ==> front[j] == values[j] == NegInf;
      n
    else
      var k := ArgMax(front);
      assert forall j :: 0 <= j < n ==> front[j] == values[j];
      if Lt(values[k], values[n]) then
        assert forall j :: 0 <= j < n ==> Lt(values[j], values[n]) by {
          forall j | 0 <= j < n ensures Lt(values[j], values[n]) {
            if values[j] != values[k] { LtTransitive(values[j], values[k], values[n]); }
          }
        }
        n
      else
        k
  }

  /** Only one index can be the first minimum. */
  lemma FirstMinimumUnique(values: seq<ExtReal>, k1: int, k2: int)
    requires IsFirstMinimum(values, k1) && IsFirstMinimum(values, k2)
    ensures k1 == k2
  {
  }

  /** Appending a value moves the selection to it only when it is strictly below the current
      minimum: a later entry with an equal value never overtakes an earlier one. */
  lemma {:induction false} ArgMinAppend(values: seq<ExtReal>, v: ExtReal)
    requires SomeBelowInf(values)
    ensures SomeBelowInf(values + [v])
    ensures ArgMin(values + [v]) == if Lt(v, values[ArgMin(values)]) then |values| else ArgMin(values)
  {
    var k := ArgMin(values);
    assert (values + [v])[k] == values[k];
    assert (values + [v])[..|values|] == values;
  }

  /** One step of a strict-`<` scan: how the selection on `values[..i+1]` follows from the
      selection on `values[..i]`. */
  lemma ArgMinStep(values: seq<ExtReal>, i: nat)
    requires i < |values|
    ensures SomeBelowInf(values[..i+1]) <==> SomeBelowInf(values[..i]) || values[i] != PosInf
    ensures SomeBelowInf(values[..i+1]) ==>
      ArgMin(values[..i+1]) ==
        if !SomeBelowInf(values[..i]) || Lt(values[i], values[ArgMin(values[..i])]) then i
        else ArgMin(values[..i])
  {
    assert values[..i+1] == values[..i] + [values[i]];
    if SomeBelowInf(values[..i]) {
      ArgMinAppend(values[..i], values[i]);
    } else {
      assert values[..i+1][..i] == values[..i];
    }
  }

  /** One step of a strict-`>` scan. */
  lemma ArgMaxStep(values: seq<ExtReal>, i: nat)
    requires i < |values|
    ensures SomeAboveNegInf(values[..i+1]) <==> SomeAboveNegInf(values[..i]) || values[i] != NegInf
    ensures SomeAboveNegInf(values[..i+1]) ==>
      ArgMax(values[..i+1]) ==
        if !SomeAboveNegInf(values[..i]) || Lt(values[ArgMax(values[..i])], values[i]) then i
        else ArgMax(values[..i])
  {
    assert values[..i+1][..i] == values[..i];
    assert forall j :: 0 <= j < i ==> values[..i+1][j] == values[..i][j];
  }
}
