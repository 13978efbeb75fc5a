/**
 * "Keep the first occurrence" over a sequence, keyed by a function: the policy
 * both loops of the redundancy cleaner implement with a `seen` set.
 */
module Dedup {

  /** The keys of all elements of `xs`. */
  function KeysOf<T, K(==)>(xs: seq<T>, key: T -> K): set<K> {
    set i | 0 <= i < |xs| :: key(xs[i])
  }

  /**
   * `xs` with every element dropped whose key already occurs earlier in `xs`:
   * the last element survives exactly when its key is new.
   */
  function KeepFirst<T, K(==)>(xs: seq<T>, key: T -> K): (r: seq<T>)
    ensures |r| <= |xs|
    decreases |xs|
  {
    if xs == [] then []
    else
      var init, last := xs[..|xs| - 1], xs[|xs| - 1];
      if key(last) in KeysOf(init, key) then KeepFirst(init, key)
      else KeepFirst(init, key) + [last]
  }

  predicate DistinctKeys<T, K(==)>(ys: seq<T>, key: T -> K) {
    forall p, q :: 0 <= p < q < |ys| ==> key(ys[p]) != key(ys[q])
  }

  /** `ys` is `xs` with some elements left out, the rest in their original order. */
  ghost predicate IsSubsequence<T>(ys: seq<T>, xs: seq<T>) {
    exists idx: seq<nat> ::
      && |idx| == |ys|
      && (forall p, q :: 0 <= p < q < |idx| ==> idx[p] < idx[q])
      && (forall p :: 0 <= p < |idx| ==> idx[p] < |xs| && ys[p] == xs[idx[p]])
  }

  lemma KeysOfTail<T, K>(xs: seq<T>, key: T -> K, k: K)
    requires k in KeysOf(xs, key) && key(xs[0]) != k
    ensures k in KeysOf(xs[1..], key)
  {
    var i :| 0 <= i < |xs| && key(xs[i]) == k;
    assert xs[1..][i - 1] == xs[i];
  }

  /** Where the key `k` first occurs in `xs`. */
  ghost function FirstIndexOf<T, K>(xs: seq<T>, key: T -> K, k: K): (i: nat)
    requires k in KeysOf(xs, key)
    ensures i < |xs| && key(xs[i]) == k
    ensures forall j :: 0 <= j < i ==> key(xs[j]) != k
    decreases |xs|
  {
    if key(xs[0]) == k then 0
    else
      KeysOfTail(xs, key, k);
      var i := FirstIndexOf(xs[1..], key, k);
      assert forall j :: 1 <= j <= i ==> xs[j] == xs[1..][j - 1];
      1 + i
  }

  lemma FirstIndexUnique<T, K>(xs: seq<T>, key: T -> K, k: K, i: nat)
    requires i < |xs| && key(xs[i]) == k
    requires forall j :: 0 <= j < i ==> key(xs[j]) != k
    ensures k in KeysOf(xs, key) && FirstIndexOf(xs, key, k) == i
  {
  }

  /** One step of `KeepFirst` and `KeysOf`, read from the front: `xs` then one more element. */
  lemma KeepFirstSnoc<T, K>(xs: seq<T>, x: T, key: T -> K)
    ensures KeysOf(xs + [x], key) == KeysOf(xs, key) + {key(x)}
    ensures KeepFirst(xs + [x], key)
         == if key(x) in KeysOf(xs, key) then KeepFirst(xs, key) else KeepFirst(xs, key) + [x]
  {
    var ys := xs + [x];
    assert ys[..|ys| - 1] == xs;
    KeysOfSnoc(ys, key);
  }

  lemma KeysOfSnoc<T, K>(xs: seq<T>, key: T -> K)
    requires xs != []
    ensures KeysOf(xs, key) == KeysOf(xs[..|xs| - 1], key) + {key(xs[|xs| - 1])}
  {
    var init := xs[..|xs| - 1];
    forall k | k in KeysOf(xs, key)
      ensures k in KeysOf(init, key) + {key(xs[|xs| - 1])}
    {
      var i :| 0 <= i < |xs| && key(xs[i]) == k;
      if i < |init| {
        assert init[i] == xs[i];
      }
    }
    forall k | k in KeysOf(init, key)
      ensures k in KeysOf(xs, key)
    {
      var i :| 0 <= i < |init| && key(init[i]) == k;
      assert xs[i] == init[i];
    }
  }

  /** The first occurrence of a key in a prefix is its first occurrence in the whole. */
  lemma FirstIndexOfInit<T, K>(xs: seq<T>, key: T -> K, k: K)
    requires xs != [] && k in KeysOf(xs[..|xs| - 1], key)
    ensures k in KeysOf(xs, key)
    ensures FirstIndexOf(xs, key, k) == FirstIndexOf(xs[..|xs| - 1], key, k)
  {
    var init := xs[..|xs| - 1];
    var i := FirstIndexOf(init, key, k);
    assert forall j :: 0 <= j <= i ==> xs[j] == init[j];
    FirstIndexUnique(xs, key, k, i);
  }

  /** What a kept element at position `p` of `r` is, relative to `xs`. */
  ghost predicate KeptFromFirst<T, K>(r: seq<T>, xs: seq<T>, key: T -> K, p: nat)
    requires p < |r|
  {
    key(r[p]) in KeysOf(xs, key) && r[p] == xs[FirstIndexOf(xs, key, key(r[p]))]
  }

  /**
   * The output of `KeepFirst`: its keys are pairwise distinct, it has every key of the
   * input, each element is the input's first element with that key, and the elements
   * come in the order of their keys' first occurrences. These four facts determine it.
   */
  lemma {:induction false} KeepFirstCharacterized<T, K>(xs: seq<T>, key: T -> K)
    ensures DistinctKeys(KeepFirst(xs, key), key)
    ensures KeysOf(KeepFirst(xs, key), key) == KeysOf(xs, key)
    ensures forall p :: 0 <= p < |KeepFirst(xs, key)| ==> KeptFromFirst(KeepFirst(xs, key), xs, key, p)
    ensures forall p, q :: 0 <= p < q < |KeepFirst(xs, key)| ==>
      KeptFromFirst(KeepFirst(xs, key), xs, key, p) && KeptFromFirst(KeepFirst(xs, key), xs, key, q) &&
      FirstIndexOf(xs, key, key(KeepFirst(xs, key)[p])) < FirstIndexOf(xs, key, key(KeepFirst(xs, key)[q]))
    decreases |xs|
  {
    if xs != [] {
      var init, last := xs[..|xs| - 1], xs[|xs| - 1];
      var r', r := KeepFirst(init, key), KeepFirst(xs, key);
      KeepFirstCharacterized(init, key);
      KeysOfSnoc(xs, key);
      forall p | 0 <= p < |r'|
        ensures key(r'[p]) in KeysOf(init, key)
        ensures FirstIndexOf(xs, key, key(r'[p])) == FirstIndexOf(init, key, key(r'[p]))
        ensures KeptFromFirst(r', xs, key, p)
      {
        assert KeptFromFirst(r', init, key, p);
        FirstIndexOfInit(xs, key, key(r'[p]));
        assert xs[FirstIndexOf(init, key, key(r'[p]))] == init[FirstIndexOf(init, key, key(r'[p]))];
      }
      if key(last) in KeysOf(init, key) {
        assert r == r';
      } else {
        assert r == r' + [last];
        assert r[..|r| - 1] == r';
        KeysOfSnoc(r, key);
        forall j | 0 <= j < |init|
          ensures key(xs[j]) != key(last)
        {
          assert xs[j] == init[j];
        }
        FirstIndexUnique(xs, key, key(last), |init|);
        forall p | 0 <= p < |r'|
          ensures key(r'[p]) != key(last)
        {
        }
        assert KeptFromFirst(r, xs, key, |r'|);
      }
    }
  }

  /** The kept elements are an order-preserving subsequence of the input. */
  lemma KeepFirstIsSubsequence<T, K>(xs: seq<T>, key: T -> K)
    ensures IsSubsequence(KeepFirst(xs, key), xs)
  {
    var r := KeepFirst(xs, key);
    KeepFirstCharacterized(xs, key);
    var idx := seq(|r|, p requires 0 <= p < |r| => FirstIndexOf(xs, key, key(r[p])));
    forall p | 0 <= p < |idx|
      ensures idx[p] < |xs| && r[p] == xs[idx[p]]
    {
      assert KeptFromFirst(r, xs, key, p);
      assert idx[p] == FirstIndexOf(xs, key, key(r[p]));
    }
    forall p, q | 0 <= p < q < |idx|
      ensures idx[p] < idx[q]
    {
      assert idx[p] == FirstIndexOf(xs, key, key(r[p])) && idx[q] == FirstIndexOf(xs, key, key(r[q]));
    }
  }

  /** Input whose keys are already distinct passes through unchanged. */
  lemma {:induction false} KeepFirstOfDistinct<T, K>(xs: seq<T>, key: T -> K)
    requires DistinctKeys(xs, key)
    ensures KeepFirst(xs, key) == xs
    decreases |xs|
  {
    if xs != [] {
      var init, last := xs[..|xs| - 1], xs[|xs| - 1];
      assert DistinctKeys(init, key);
      KeepFirstOfDistinct(init, key);
      assert key(last) !in KeysOf(init, key) by {
        forall i | 0 <= i < |init|
          ensures key(init[i]) != key(last)
        {
          assert init[i] == xs[i];
        }
      }
      assert init + [last] == xs;
    }
  }

  /** Keeping first occurrences twice is the same as doing it once. */
  lemma KeepFirstIdempotent<T, K>(xs: seq<T>, key: T -> K)
    ensures KeepFirst(KeepFirst(xs, key), key) == KeepFirst(xs, key)
  {
    KeepFirstCharacterized(xs, key);
    KeepFirstOfDistinct(KeepFirst(xs, key), key);
  }
}
