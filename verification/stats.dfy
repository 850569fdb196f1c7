/** Value-level pieces of AgentList's statistics: sums, Python's stable `list.sort(key=...)`
    on (key, item) pairs, and the index arithmetic of `median`. */
module Stats {
  import opened Wrappers

  function Sum(values: seq<real>): real
  {
    if values == [] then 0.0 else values[0] + Sum(values[1..])
  }

  lemma {:induction false} SumConcat(a: seq<real>, b: seq<real>)
    ensures Sum(a + b) == Sum(a) + Sum(b)
  {
    if a == [] {
      assert a + b == b;
    } else {
      assert (a + b)[1..] == a[1..] + b;
      SumConcat(a[1..], b);
    }
  }

  /** A sum does not depend on the order of its terms: the average over a Python set is the
      same whichever order the set is iterated in. */
  lemma {:induction false} SumPermutation(a: seq<real>, b: seq<real>)
    requires multiset(a) == multiset(b)
    ensures Sum(a) == Sum(b)
    decreases |a|
  {
    if a != [] {
      assert a[0] in multiset(b);
      var i :| 0 <= i < |b| && b[i] == a[0];
      var rest := b[..i] + b[i+1..];
      MultisetRemoveAt(b, i);
      MultisetTail(a);
      SumPermutation(a[1..], rest);
      SplitAt(b, i);
      SumConcat(b[..i] + [b[i]], b[i+1..]);
      SumConcat(b[..i], [b[i]]);
      SumConcat(b[..i], b[i+1..]);
    } else {
      assert |multiset(b)| == 0;
    }
  }

  /** `x` sorts strictly before `y`: ascending, or descending for `reverse=True`. */
  predicate Before(x: real, y: real, descending: bool)
  {
    if descending then x > y else x < y
  }

  ghost predicate SortedBy<T>(s: seq<(real, T)>, descending: bool)
  {
    forall i, j :: 0 <= i < j < |s| ==> !Before(s[j].0, s[i].0, descending)
  }

  /** No element of `s` sorts strictly before `k`. */
  ghost predicate NoneBefore<T>(k: real, s: seq<(real, T)>, descending: bool)
  {
    forall i :: 0 <= i < |s| ==> !Before(s[i].0, k, descending)
  }

  /** Insert `x` after every element that does not sort strictly after it, so equal keys keep
      their arrival order. */
  function Insert<T>(x: (real, T), s: seq<(real, T)>, descending: bool): seq<(real, T)>
  {
    if s == [] then [x]
    else if Before(x.0, s[0].0, descending) then [x] + s
    else [s[0]] + Insert(x, s[1..], descending)
  }

  lemma {:induction false} InsertMultiset<T>(x: (real, T), s: seq<(real, T)>, descending: bool)
    ensures multiset(Insert(x, s, descending)) == multiset(s) + multiset{x}
  {
    if s != [] && !Before(x.0, s[0].0, descending) {
      assert s == [s[0]] + s[1..];
      InsertMultiset(x, s[1..], descending);
    }
  }

  /** A lower bound of `s` and of `x` is a lower bound of the insertion. */
  lemma {:induction false} InsertNoneBefore<T>(k: real, x: (real, T), s: seq<(real, T)>, descending: bool)
    requires NoneBefore(k, s, descending) && !Before(x.0, k, descending)
    ensures NoneBefore(k, Insert(x, s, descending), descending)
  {
    if s != [] && !Before(x.0, s[0].0, descending) {
      assert NoneBefore(k, s[1..], descending);
      InsertNoneBefore(k, x, s[1..], descending);
    }
  }

  lemma {:induction false} InsertSorted<T>(x: (real, T), s: seq<(real, T)>, descending: bool)
    requires SortedBy(s, descending)
    ensures SortedBy(Insert(x, s, descending), descending)
  {
    if s == [] {
    } else if Before(x.0, s[0].0, descending) {
      var r := [x] + s;
      forall i, j | 0 <= i < j < |r| ensures !Before(r[j].0, r[i].0, descending) {
        if i == 0 {
          assert r[j] == s[j - 1];
          if j > 1 {
            assert !Before(s[j - 1].0, s[0].0, descending);
          }
        } else {
          assert r[i] == s[i - 1] && r[j] == s[j - 1];
        }
      }
    } else {
      var tail := Insert(x, s[1..], descending);
      assert SortedBy(s[1..], descending);
      InsertSorted(x, s[1..], descending);
      assert NoneBefore(s[0].0, s[1..], descending);
      InsertNoneBefore(s[0].0, x, s[1..], descending);
      var r := [s[0]] + tail;
      forall i, j | 0 <= i < j < |r| ensures !Before(r[j].0, r[i].0, descending) {
        assert r[j] == tail[j - 1];
        if i > 0 {
          assert r[i] == tail[i - 1];
        }
      }
    }
  }

  /** Dropping the element at `i` removes one copy of it from the multiset. */
  lemma MultisetRemoveAt<T>(s: seq<T>, i: nat)
    requires i < |s|
    ensures multiset(s[..i] + s[i+1..]) == multiset(s) - multiset{s[i]}
  {
    SplitAt(s, i);
    assert multiset(s) == multiset(s[..i]) + multiset{s[i]} + multiset(s[i+1..]);
  }

  /** Dropping the element at `i`, in the additive form the solver handles cheaply. */
  lemma RemoveAtAdds<T>(s: seq<T>, i: nat)
    requires i < |s|
    ensures multiset(s) == multiset(s[..i] + s[i+1..]) + multiset{s[i]}
  {
    SplitAt(s, i);
    assert multiset(s) == multiset(s[..i]) + multiset{s[i]} + multiset(s[i+1..]);
  }

  /** Putting one element back on both sides of an equation of multisets. */
  lemma MultisetRejoin<T>(a: multiset<T>, b: multiset<T>, c: multiset<T>, d: multiset<T>, x: T)
    requires a == multiset{x} + b && b == c && d == c + multiset{x}
    ensures a == d
  {
  }

  lemma MultisetCancel<T>(a: multiset<T>, b: multiset<T>, x: T)
    requires a + multiset{x} == b + multiset{x}
    ensures a == b
  {
    assert forall y :: a[y] == (a + multiset{x})[y] - multiset{x}[y];
    assert forall y :: b[y] == (b + multiset{x})[y] - multiset{x}[y];
  }

  lemma MultisetTail<T>(s: seq<T>)
    requires s != []
    ensures multiset(s[1..]) == multiset(s) - multiset{s[0]}
  {
    assert s == [s[0]] + s[1..];
  }

  /** `list.sort(key=..., reverse=descending)` on (key, item) pairs. */
  function SortByKey<T>(s: seq<(real, T)>, descending: bool): (r: seq<(real, T)>)
    ensures SortedBy(r, descending)
    ensures multiset(r) == multiset(s)
    ensures |r| == |s|
  {
    if s == [] then []
    else
      var front := s[..|s| - 1];
      assert s == front + [s[|s| - 1]];
      var sortedFront := SortByKey(front, descending);
      InsertSorted(s[|s| - 1], sortedFront, descending);
      InsertMultiset(s[|s| - 1], sortedFront, descending);
      var r := Insert(s[|s| - 1], sortedFront, descending);
      assert |r| == |multiset(r)|;
      r
  }

  function Keys<T>(s: seq<(real, T)>): (ks: seq<real>)
    ensures |ks| == |s|
  {
    if s == [] then [] else [s[0].0] + Keys(s[1..])
  }

  lemma {:induction false} KeysIndex<T>(s: seq<(real, T)>, i: nat)
    requires i < |s|
    ensures Keys(s)[i] == s[i].0
  {
    if i > 0 {
      KeysIndex(s[1..], i - 1);
    }
  }

  lemma KeysConcat<T>(s: seq<(real, T)>, t: seq<(real, T)>)
    ensures Keys(s + t) == Keys(s) + Keys(t)
  {
    if s == [] {
      assert s + t == t;
    } else {
      assert (s + t)[0] == s[0] && (s + t)[1..] == s[1..] + t;
      KeysConcat(s[1..], t);
    }
  }

  lemma SplitAt<T>(t: seq<T>, i: nat)
    requires i < |t|
    ensures t == t[..i] + [t[i]] + t[i+1..]
  {
    assert t[i..] == [t[i]] + t[i+1..];
    assert t == t[..i] + t[i..];
  }

  lemma KeysThree<T>(left: seq<(real, T)>, mid: seq<(real, T)>, right: seq<(real, T)>)
    ensures Keys(left + mid + right) == Keys(left) + Keys(mid) + Keys(right)
  {
    KeysConcat(left + mid, right);
    KeysConcat(left, mid);
  }

  lemma KeysRemoveAt<T>(t: seq<(real, T)>, i: nat)
    requires i < |t|
    ensures multiset(Keys(t)) == multiset(Keys(t[..i] + t[i+1..])) + multiset{t[i].0}
  {
    SplitAt(t, i);
    KeysThree(t[..i], [t[i]], t[i+1..]);
    KeysConcat(t[..i], t[i+1..]);
    var kl, kr := Keys(t[..i]), Keys(t[i+1..]);
    assert Keys([t[i]]) == [t[i].0];
    assert multiset(Keys(t)) == multiset(kl) + multiset{t[i].0} + multiset(kr);
  }

  lemma {:induction false} KeysMultiset<T>(s: seq<(real, T)>, t: seq<(real, T)>)
    requires multiset(s) == multiset(t)
    ensures multiset(Keys(s)) == multiset(Keys(t))
    decreases |s|
  {
    if s != [] {
      assert s[0] in multiset(t);
      var i :| 0 <= i < |t| && t[i] == s[0];
      var rest := t[..i] + t[i+1..];
      MultisetRemoveAt(t, i);
      MultisetTail(s);
      KeysMultiset(s[1..], rest);
      KeysRemoveAt(t, i);
      assert Keys(s) == [s[0].0] + Keys(s[1..]);
    } else {
      assert |multiset(t)| == 0;
    }
  }

  /** Two ascending orderings of the same keys agree position by position. */
  lemma {:induction false} SortedKeysUnique(a: seq<real>, b: seq<real>)
    requires multiset(a) == multiset(b)
    requires forall i, j :: 0 <= i < j < |a| ==> a[i] <= a[j]
    requires forall i, j :: 0 <= i < j < |b| ==> b[i] <= b[j]
    ensures a == b
    decreases |a|
  {
    assert |a| == |multiset(a)| == |multiset(b)| == |b|;
    if a != [] {
      assert a[0] in multiset(b) && b[0] in multiset(a);
      var i :| 0 <= i < |b| && b[i] == a[0];
      var j :| 0 <= j < |a| && a[j] == b[0];
      assert a[0] <= a[j] && b[0] <= b[i];
      assert a[0] == b[0];
      MultisetTail(a);
      MultisetTail(b);
      SortedKeysUnique(a[1..], b[1..]);
    }
  }

  /** The keys of an ascending sequence of pairs are ascending. */
  lemma AscendingKeys<T>(s: seq<(real, T)>)
    requires SortedBy(s, false)
    ensures forall i, j :: 0 <= i < j < |Keys(s)| ==> Keys(s)[i] <= Keys(s)[j]
  {
    forall i, j | 0 <= i < j < |Keys(s)| ensures Keys(s)[i] <= Keys(s)[j] {
      KeysIndex(s, i);
      KeysIndex(s, j);
      assert !Before(s[j].0, s[i].0, false);
    }
  }

  lemma SortedKeysOrderIndependent<T>(s: seq<(real, T)>, t: seq<(real, T)>)
    requires multiset(s) == multiset(t)
    ensures Keys(SortByKey(s, false)) == Keys(SortByKey(t, false))
  {
    var a := SortByKey(s, false);
    var b := SortByKey(t, false);
    KeysMultiset(a, b);
    AscendingKeys(a);
    AscendingKeys(b);
    SortedKeysUnique(Keys(a), Keys(b));
  }

  /** `math.ceil` of a real. */
  function Ceil(x: real): int
  {
    -((-x).Floor)
  }

  /** The two indices median reads: `floor(n/2)` and `ceil((n+1)/2)`, which is always
      `floor(n/2) + 1`. */
  lemma MedianIndices(n: nat)
    ensures (n as real / 2.0).Floor == n / 2
    ensures Ceil((n + 1) as real / 2.0) == n / 2 + 1
  {
    var h := n / 2;
    if n % 2 == 0 {
      assert n as real / 2.0 == h as real;
      assert (-((n + 1) as real / 2.0)) == -(h as real) - 0.5;
      assert (-(h as real) - 0.5).Floor == -h - 1;
    } else {
      assert n == 2 * h + 1;
      assert n as real / 2.0 == h as real + 0.5;
      assert (n + 1) as real / 2.0 == (h + 1) as real;
    }
  }

  /** median's result from the ascending keys: 0 for none, the mean of the keys at
      `floor(n/2)` and `ceil((n+1)/2)` when both exist, and `None` (the caught IndexError)
      otherwise. */
  function MedianOf(sortedKeys: seq<real>): (r: Option<real>)
    ensures |sortedKeys| == 0 ==> r == Some(0.0)
    ensures 1 <= |sortedKeys| <= 2 ==> r == None
    ensures |sortedKeys| >= 3 ==>
      var n := |sortedKeys|;
      r == Some((sortedKeys[n / 2] + sortedKeys[n / 2 + 1]) / 2.0)
  {
    var n := |sortedKeys|;
    if n == 0 then Some(0.0)
    else
      var (lowMid, hiMid) := MedianBounds(n);
      if hiMid < n then Some((sortedKeys[lowMid] + sortedKeys[hiMid]) / 2.0)
      else None
  }

  /** MedianOf of three or more keys, given the two it averages. */
  lemma MedianOfMiddle(ks: seq<real>, low: real, high: real)
    requires |ks| >= 3 && ks[|ks| / 2] == low && ks[|ks| / 2 + 1] == high
    ensures MedianOf(ks) == Some((low + high) / 2.0)
  {
  }

  /** median's `lowMid` and `hiMid`, `floor(n/2)` and `ceil((n+1)/2)`. */
  function MedianBounds(n: nat): (b: (int, int))
    ensures b == (n / 2, n / 2 + 1)
    ensures b.1 < n <==> n >= 3
  {
    MedianIndices(n);
    ((n as real / 2.0).Floor, Ceil((n + 1) as real / 2.0))
  }

  /** For three values the formula averages the middle and the top one, not the middle one,
      and for one or two values it finds no median at all. */
  lemma MedianOfThreeIsNotMiddle()
    ensures MedianOf([1.0, 2.0, 3.0]) == Some(2.5) && MiddleOf([1.0, 2.0, 3.0]) == Some(2.0)
    ensures MedianOf([5.0]) == None && MiddleOf([5.0]) == Some(5.0)
  {
  }

  /** The median median evidently means: 0 for no keys (as the source answers), the middle
      key for an odd count, the mean of the two middle keys for an even one. */
  function MiddleOf(sortedKeys: seq<real>): (r: Option<real>)
    ensures r.Some?
  {
    var n := |sortedKeys|;
    if n == 0 then Some(0.0)
    else if n % 2 == 1 then Some(sortedKeys[n / 2])
    else Some((sortedKeys[n / 2 - 1] + sortedKeys[n / 2]) / 2.0)
  }

  /** MiddleOf splits ascending keys in halves: the first `ceil(n/2)` keys are at most it and
      the last `ceil(n/2)` keys at least it. */
  lemma MiddleOfSplits(ks: seq<real>)
    requires |ks| > 0
    requires forall i, j :: 0 <= i < j < |ks| ==> ks[i] <= ks[j]
    ensures var m := MiddleOf(ks).value;
      && (forall i :: 0 <= i < (|ks| + 1) / 2 ==> ks[i] <= m)
      && (forall i :: |ks| / 2 <= i < |ks| ==> m <= ks[i])
  {
    var n := |ks|;
    if n % 2 == 0 {
      assert ks[n / 2 - 1] <= ks[n / 2];
    }
  }

}
