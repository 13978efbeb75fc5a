/**
 * The chunker: `[' '.join(sentences[i:i+chunk_size]) for i in range(0, len(sentences), chunk_size)]`.
 */
module Chunker {
  import opened TextOps
  import opened Outcomes

  function Flatten<T>(xss: seq<seq<T>>): seq<T> {
    if xss == [] then [] else xss[0] + Flatten(xss[1..])
  }

  function Min(a: int, b: int): int {
    if a <= b then a else b
  }

  /** The slices `xs[i:i+n]` for `i` in `range(0, len(xs), n)`. */
  function Groups<T>(xs: seq<T>, n: nat): (gs: seq<seq<T>>)
    requires n > 0
    ensures xs == [] <==> gs == []
    ensures forall k :: 0 <= k < |gs| ==> 0 < |gs[k]| <= n
    ensures forall k :: 0 <= k < |gs| - 1 ==> |gs[k]| == n
    decreases |xs|
  {
    if xs == [] then []
    else if |xs| <= n then [xs]
    else [xs[..n]] + Groups(xs[n..], n)
  }

  /** The groups, concatenated in order, give back `xs`: nothing lost, nothing reordered. */
  lemma {:induction false} GroupsFlatten<T>(xs: seq<T>, n: nat)
    requires n > 0
    ensures Flatten(Groups(xs, n)) == xs
    decreases |xs|
  {
    if |xs| > n {
      var gs := Groups(xs, n);
      GroupsFlatten(xs[n..], n);
      assert gs[1..] == Groups(xs[n..], n);
      assert xs == xs[..n] + xs[n..];
    }
  }

  lemma DivUnique(a: int, n: int, q: int, r: int)
    requires n > 0 && 0 <= r < n && a == q * n + r
    ensures a / n == q
  {
    var q', r' := a / n, a % n;
    assert a == q' * n + r';
    assert (q - q') * n == r' - r;
    MulBounds(q - q', n);
  }

  lemma MulBounds(d: int, n: int)
    requires n > 0
    ensures d >= 1 ==> d * n >= n
    ensures d <= -1 ==> d * n <= -n
  {
  }

  lemma DivStep(a: nat, n: nat)
    requires n > 0
    ensures (a + n) / n == a / n + 1
  {
    var q, r := a / n, a % n;
    assert a + n == (q + 1) * n + r;
    DivUnique(a + n, n, q + 1, r);
  }

  lemma DivOfRange(a: nat, n: nat)
    requires 0 < a <= n
    ensures (a + n - 1) / n == 1
  {
  }

  /** There are ceil(|xs| / n) groups. */
  lemma {:induction false} GroupsCount<T>(xs: seq<T>, n: nat)
    requires n > 0
    ensures |Groups(xs, n)| == (|xs| + n - 1) / n
    decreases |xs|
  {
    if xs == [] {
    } else if |xs| <= n {
      DivOfRange(|xs|, n);
    } else {
      var ys := xs[n..];
      assert |Groups(xs, n)| == 1 + |Groups(ys, n)|;
      GroupsCount(ys, n);
      var a := |xs| - 1;
      assert |ys| + n - 1 == a;
      DivStep(a, n);
      assert |xs| + n - 1 == a + n;
    }
  }

  lemma MulStep(k: nat, n: nat)
    requires k > 0
    ensures n + (k - 1) * n == k * n
    ensures (k - 1) * n >= 0
  {
  }

  lemma SliceOfSuffix<T>(xs: seq<T>, n: nat, a: nat, b: nat)
    requires n <= |xs| && a <= b <= |xs| - n
    ensures xs[n..][a..b] == xs[n + a..n + b]
  {
  }

  /** `k` groups of `n`, counted without multiplying. */
  function Offset(k: nat, n: nat): nat {
    if k == 0 then 0 else n + Offset(k - 1, n)
  }

  lemma {:induction false} OffsetIsProduct(k: nat, n: nat)
    ensures Offset(k, n) == k * n
  {
    if k > 0 {
      OffsetIsProduct(k - 1, n);
      MulStep(k, n);
    }
  }

  lemma GroupsHead<T>(xs: seq<T>, n: nat)
    requires n > 0 && xs != []
    ensures Groups(xs, n)[0] == xs[..Min(n, |xs|)]
  {
  }

  lemma GroupsTail<T>(xs: seq<T>, n: nat, k: nat)
    requires n > 0 && 0 < k < |Groups(xs, n)|
    ensures n < |xs|
    ensures k - 1 < |Groups(xs[n..], n)|
    ensures Groups(xs, n)[k] == Groups(xs[n..], n)[k - 1]
  {
  }

  /** Group `k` is `xs[Offset(k, n) : Offset(k, n) + n]`, cut short at the end of `xs`. */
  lemma {:induction false} GroupFrom<T>(xs: seq<T>, n: nat, k: nat)
    requires n > 0 && k < |Groups(xs, n)|
    ensures Offset(k, n) < |xs|
    ensures Groups(xs, n)[k] == xs[Offset(k, n)..Min(Offset(k, n) + n, |xs|)]
    decreases |xs|
  {
    if k == 0 {
      GroupsHead(xs, n);
    } else {
      var ys := xs[n..];
      GroupsTail(xs, n, k);
      GroupFrom(ys, n, k - 1);
      var lo, off := Offset(k - 1, n), Offset(k, n);
      assert off == n + lo;
      var hi := Min(lo + n, |ys|);
      assert |ys| == |xs| - n;
      assert n + hi == Min(off + n, |xs|);
      assert Groups(ys, n)[k - 1] == ys[lo..hi];
      SliceOfSuffix(xs, n, lo, hi);
      assert ys[lo..hi] == xs[n + lo..n + hi];
    }
  }

  /** Group `k` is the slice `xs[k*n : (k+1)*n]`, cut short at the end of `xs`. */
  lemma GroupAt<T>(xs: seq<T>, n: nat, k: nat)
    requires n > 0 && k < |Groups(xs, n)|
    ensures k * n < |xs|
    ensures Groups(xs, n)[k] == xs[k * n..Min((k + 1) * n, |xs|)]
  {
    GroupFrom(xs, n, k);
    OffsetIsProduct(k, n);
    MulStep(k + 1, n);
  }

  /**
   * The chunks of a sentence list. A zero size raises in Python (`range()` refuses
   * a zero step); a negative size makes the range empty, so there are no chunks.
   * For a positive size there are ceil(n / size) chunks, and chunk `k` joins
   * sentences `k*size` up to `(k+1)*size`, fewer for the last one, never none.
   */
  function Chunk(sentences: seq<string>, chunkSize: int): (r: Result<seq<string>>)
    ensures r.Failure? <==> chunkSize == 0
    ensures r.Failure? ==> r.error == InvalidConfiguration
    ensures chunkSize < 0 ==> r == Success([])
    ensures chunkSize > 0 ==> |r.value| == (|sentences| + chunkSize - 1) / chunkSize
    ensures chunkSize > 0 ==>
      forall k :: 0 <= k < |r.value| ==>
        k * chunkSize < |sentences| &&
        r.value[k] == JoinSpace(sentences[k * chunkSize..Min((k + 1) * chunkSize, |sentences|)])
  {
    if chunkSize == 0 then Failure(InvalidConfiguration)
    else if chunkSize < 0 then Success([])
    else
      var gs := Groups(sentences, chunkSize);
      GroupsCount(sentences, chunkSize);
      forall k | 0 <= k < |gs|
        ensures k * chunkSize < |sentences|
        ensures gs[k] == sentences[k * chunkSize..Min((k + 1) * chunkSize, |sentences|)]
      {
        GroupAt(sentences, chunkSize, k);
      }
      Success(seq(|gs|, k requires 0 <= k < |gs| => JoinSpace(gs[k])))
  }

  /** Six sentences in chunks of three give two chunks: sentences 0-2, then 3-5. */
  lemma SixSentencesTwoChunks(sentences: seq<string>)
    requires |sentences| == 6
    ensures Chunk(sentences, 3).value == [JoinSpace(sentences[..3]), JoinSpace(sentences[3..])]
  {
    var r := Chunk(sentences, 3).value;
    assert |r| == 2;
    assert r[0] == JoinSpace(sentences[0..3]);
    assert r[1] == JoinSpace(sentences[1 * 3..Min((1 + 1) * 3, 6)]);
    assert Min((1 + 1) * 3, 6) == 6;
    assert sentences[0..3] == sentences[..3] && sentences[3..6] == sentences[3..];
  }
}
