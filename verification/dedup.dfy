/** `drop_duplicates(subset=key, keep='last')` on a sequence of rows: of
    all rows sharing a key, only the last survives, and the survivors keep
    their relative order. */
module Dedup {

  /** Row `i` is the last row with its key. */
  predicate IsLastAt<T, K(==)>(xs: seq<T>, key: T -> K, i: int) {
    0 <= i < |xs| && forall j :: i < j < |xs| ==> key(xs[j]) != key(xs[i])
  }

  /** Some row of `r` has the key of `x`. */
  predicate HasKeyOf<T, K(==)>(r: seq<T>, key: T -> K, x: T) {
    exists k :: 0 <= k < |r| && key(r[k]) == key(x)
  }

  /** `idx` lists, in increasing order, exactly the positions of `xs` that
      hold the last row of their key. */
  predicate Survivors<T, K(==)>(xs: seq<T>, key: T -> K, idx: seq<nat>) {
    && (forall k :: 0 <= k < |idx| ==> idx[k] < |xs|)
    && (forall a, b :: 0 <= a < b < |idx| ==> idx[a] < idx[b])
    && (forall i :: 0 <= i < |xs| ==> (i in idx <==> IsLastAt(xs, key, i)))
  }

  /** The positions at or after `from` holding the last row of their key. */
  function LastPositions<T, K(==)>(xs: seq<T>, key: T -> K, from: nat): (idx: seq<nat>)
    requires from <= |xs|
    ensures forall k :: 0 <= k < |idx| ==> from <= idx[k] < |xs|
    ensures forall a, b :: 0 <= a < b < |idx| ==> idx[a] < idx[b]
    ensures forall i :: from <= i < |xs| ==> (i in idx <==> IsLastAt(xs, key, i))
    ensures |idx| <= |xs| - from
    decreases |xs| - from
  {
    if from == |xs| then []
    else
      var rest := LastPositions(xs, key, from + 1);
      if forall j | from < j < |xs| :: key(xs[j]) != key(xs[from]) then [from] + rest else rest
  }

  /** Keep-last deduplication. The result is `xs` restricted to the
      positions that hold the last row of their key, in their original
      order; no two results share a key; and every key of the input is
      present in the result. */
  function DropDuplicatesKeepLast<T, K(==)>(xs: seq<T>, key: T -> K): (r: seq<T>)
    ensures exists idx :: Survivors(xs, key, idx) && |r| == |idx| && forall k :: 0 <= k < |r| ==> r[k] == xs[idx[k]]
    ensures forall a, b :: 0 <= a < b < |r| ==> key(r[a]) != key(r[b])
    ensures forall i :: 0 <= i < |xs| ==> HasKeyOf(r, key, xs[i])
    ensures |r| <= |xs|
  {
    var idx := LastPositions(xs, key, 0);
    var r := seq(|idx|, k requires 0 <= k < |idx| => xs[idx[k]]);
    KeptRows(xs, key, idx, r);
    r
  }

  lemma KeptRows<T, K>(xs: seq<T>, key: T -> K, idx: seq<nat>, r: seq<T>)
    requires idx == LastPositions(xs, key, 0)
    requires |r| == |idx| && forall k :: 0 <= k < |r| ==> r[k] == xs[idx[k]]
    ensures Survivors(xs, key, idx)
    ensures forall a, b :: 0 <= a < b < |r| ==> key(r[a]) != key(r[b])
    ensures forall i :: 0 <= i < |xs| ==> HasKeyOf(r, key, xs[i])
  {
    assert Survivors(xs, key, idx);
    EveryKeySurvives(xs, key, idx, r);
    forall a, b | 0 <= a < b < |r|
      ensures key(r[a]) != key(r[b])
    {
      assert idx[a] in idx;
      assert idx[a] < idx[b];
    }
  }

  lemma EveryKeySurvives<T, K>(xs: seq<T>, key: T -> K, idx: seq<nat>, r: seq<T>)
    requires Survivors(xs, key, idx)
    requires |r| == |idx| && forall k :: 0 <= k < |r| ==> r[k] == xs[idx[k]]
    ensures forall i :: 0 <= i < |xs| ==> HasKeyOf(r, key, xs[i])
  {
    forall i | 0 <= i < |xs|
      ensures HasKeyOf(r, key, xs[i])
    {
      LastWithKeyExists(xs, key, i);
      var j :| i <= j < |xs| && IsLastAt(xs, key, j) && key(xs[j]) == key(xs[i]);
      assert j in idx;
      var k :| 0 <= k < |idx| && idx[k] == j;
      assert r[k] == xs[j];
      assert 0 <= k < |r| && key(r[k]) == key(xs[i]);
    }
  }

  /** Every row has a last row with its key, at or after it. */
  lemma {:induction false} LastWithKeyExists<T, K>(xs: seq<T>, key: T -> K, i: int)
    requires 0 <= i < |xs|
    ensures exists j :: i <= j < |xs| && IsLastAt(xs, key, j) && key(xs[j]) == key(xs[i])
    decreases |xs| - i
  {
    if !IsLastAt(xs, key, i) {
      var j :| i < j < |xs| && key(xs[j]) == key(xs[i]);
      LastWithKeyExists(xs, key, j);
    }
  }

  /** Deduplication keeps any per-row attribute that was pairwise distinct
      pairwise distinct, and never makes up a row. */
  lemma DropKeepsDistinct<T, K, F>(xs: seq<T>, key: T -> K, f: T -> F)
    requires forall a, b :: 0 <= a < b < |xs| ==> f(xs[a]) != f(xs[b])
    ensures var r := DropDuplicatesKeepLast(xs, key);
            forall a, b :: 0 <= a < b < |r| ==> f(r[a]) != f(r[b])
  {
    var r := DropDuplicatesKeepLast(xs, key);
    var idx :| Survivors(xs, key, idx) && |r| == |idx| && forall k :: 0 <= k < |r| ==> r[k] == xs[idx[k]];
  }

  /** A non-empty input leaves a non-empty result. */
  lemma DropKeepsNonEmpty<T, K>(xs: seq<T>, key: T -> K)
    requires |xs| > 0
    ensures |DropDuplicatesKeepLast(xs, key)| > 0
  {
    assert HasKeyOf(DropDuplicatesKeepLast(xs, key), key, xs[0]);
  }

  /** Every surviving row is a row of the input. */
  lemma DropKeepsRows<T, K>(xs: seq<T>, key: T -> K)
    ensures forall y :: y in DropDuplicatesKeepLast(xs, key) ==> y in xs
  {
    var r := DropDuplicatesKeepLast(xs, key);
    var idx :| Survivors(xs, key, idx) && |r| == |idx| && forall k :: 0 <= k < |r| ==> r[k] == xs[idx[k]];
  }

  /** With no key repeated, deduplication changes nothing. */
  lemma DistinctKeysUnchanged<T, K>(xs: seq<T>, key: T -> K)
    requires forall a, b :: 0 <= a < b < |xs| ==> key(xs[a]) != key(xs[b])
    ensures DropDuplicatesKeepLast(xs, key) == xs
  {
    AllLast(xs, key, 0);
  }

  lemma {:induction false} AllLast<T, K>(xs: seq<T>, key: T -> K, from: nat)
    requires from <= |xs|
    requires forall a, b :: 0 <= a < b < |xs| ==> key(xs[a]) != key(xs[b])
    ensures LastPositions(xs, key, from) == seq(|xs| - from, k requires 0 <= k < |xs| - from => from + k)
    decreases |xs| - from
  {
    if from < |xs| {
      AllLast(xs, key, from + 1);
      assert IsLastAt(xs, key, from);
    }
  }

  /** A row that a later row with the same key replaces does not survive:
      when no other row shares its value of `f`, no survivor has that
      value of `f` either. */
  lemma SupersededDropped<T, K, F>(xs: seq<T>, key: T -> K, f: T -> F, p: int, q: int)
    requires 0 <= p < q < |xs| && key(xs[p]) == key(xs[q])
    requires forall j :: 0 <= j < |xs| && j != p ==> f(xs[j]) != f(xs[p])
    ensures forall k :: 0 <= k < |DropDuplicatesKeepLast(xs, key)| ==> f(DropDuplicatesKeepLast(xs, key)[k]) != f(xs[p])
  {
    var r := DropDuplicatesKeepLast(xs, key);
    var idx :| Survivors(xs, key, idx) && |r| == |idx| && forall k :: 0 <= k < |r| ==> r[k] == xs[idx[k]];
    forall k | 0 <= k < |r|
      ensures f(r[k]) != f(xs[p])
    {
      assert idx[k] in idx;
    }
  }
}
