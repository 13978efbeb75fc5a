/**
 * The redundancy cleaner: `remove_repeated_phrases` drops repeated word tokens
 * (exact, case-sensitive match) and `clean_redundancies` drops sentences whose
 * word-cleaned, lower-cased form was already seen. Both keep a `seen` set and
 * append to an output list, as the methods below do; the functions beside them
 * state what they compute.
 */
module RedundancyCleaner {
  import opened TextOps
  import opened SentenceSplitter
  import opened Dedup

  /** Word tokens are compared as they are, case included. */
  function Exact(w: string): string {
    w
  }

  /** What `remove_repeated_phrases(sentence)` returns. */
  function DedupWords(sentence: string): string {
    JoinSpace(KeepFirst(Words(sentence), Exact))
  }

  /**
   * The sentences of `text`, each with its repeated words removed: cleaned
   * sentence `i` tokenizes to the first occurrences of the tokens of sentence `i`,
   * and is those tokens joined by single spaces.
   */
  function CleanedSentences(text: string): (cs: seq<string>)
    ensures |cs| == |Split(text)|
    ensures forall i :: 0 <= i < |cs| ==> Words(cs[i]) == KeepFirst(Words(Split(text)[i]), Exact)
    ensures forall i :: 0 <= i < |cs| ==> cs[i] == JoinSpace(Words(cs[i]))
  {
    var ss := Split(text);
    forall i | 0 <= i < |ss|
      ensures Words(DedupWords(ss[i])) == KeepFirst(Words(ss[i]), Exact)
    {
      WordsOfDedupWords(ss[i]);
    }
    seq(|ss|, i requires 0 <= i < |ss| => DedupWords(ss[i]))
  }

  /** The cleaned sentences that survive: first of each lower-cased form. */
  function KeptSentences(text: string): seq<string> {
    KeepFirst(CleanedSentences(text), LowerStr)
  }

  /** What `clean_redundancies(text)` returns. */
  function DedupSentences(text: string): string {
    JoinSpace(KeptSentences(text))
  }

  method RemoveRepeatedPhrases(sentence: string) returns (r: string)
    ensures r == DedupWords(sentence)
  {
    var words := Words(sentence);
    var seenWords: set<string> := {};
    var cleanedWords: seq<string> := [];
    for i := 0 to |words|
      invariant seenWords == KeysOf(words[..i], Exact)
      invariant cleanedWords == KeepFirst(words[..i], Exact)
    {
      var word := words[i];
      assert words[..i + 1][..i] == words[..i];
      KeysOfSnoc(words[..i + 1], Exact);
      if word !in seenWords {
        seenWords := seenWords + {word};
        cleanedWords := cleanedWords + [word];
      }
    }
    assert words[..|words|] == words;
    r := JoinSpace(cleanedWords);
  }

  method CleanRedundancies(text: string) returns (r: string)
    ensures r == DedupSentences(text)
  {
    var sentences := Split(text);
    ghost var cleaned := CleanedSentences(text);
    var seenSentences: set<string> := {};
    var cleanedSentences: seq<string> := [];
    for i := 0 to |sentences|
      invariant seenSentences == KeysOf(cleaned[..i], LowerStr)
      invariant cleanedSentences == KeepFirst(cleaned[..i], LowerStr)
    {
      var cleanedSentence := RemoveRepeatedPhrases(sentences[i]);
      assert cleaned[i] == cleanedSentence;
      assert cleaned[..i + 1][..i] == cleaned[..i];
      KeysOfSnoc(cleaned[..i + 1], LowerStr);
      if LowerStr(cleanedSentence) !in seenSentences {
        seenSentences := seenSentences + {LowerStr(cleanedSentence)};
        cleanedSentences := cleanedSentences + [cleanedSentence];
      }
    }
    assert cleaned[..|sentences|] == cleaned;
    r := JoinSpace(cleanedSentences);
  }

  lemma KeptWordsAreWords(ws: seq<string>)
    requires forall k :: 0 <= k < |ws| ==> IsWord(ws[k])
    ensures forall k :: 0 <= k < |KeepFirst(ws, Exact)| ==> IsWord(KeepFirst(ws, Exact)[k])
  {
    KeepFirstCharacterized(ws, Exact);
    forall k | 0 <= k < |KeepFirst(ws, Exact)|
      ensures IsWord(KeepFirst(ws, Exact)[k])
    {
      assert KeptFromFirst(KeepFirst(ws, Exact), ws, Exact, k);
    }
  }

  /** Re-tokenizing the output of `remove_repeated_phrases` gives the kept tokens. */
  lemma WordsOfDedupWords(sentence: string)
    ensures Words(DedupWords(sentence)) == KeepFirst(Words(sentence), Exact)
  {
    KeptWordsAreWords(Words(sentence));
    WordsOfJoin(KeepFirst(Words(sentence), Exact));
  }

  /**
   * The tokens of the output are pairwise distinct, are exactly the distinct input
   * tokens, appear in the order of their first occurrence in the input, and form
   * an order-preserving subsequence of the input tokens.
   */
  lemma DedupWordsTokens(sentence: string)
    ensures var ws, out := Words(sentence), Words(DedupWords(sentence));
      && (forall p, q :: 0 <= p < q < |out| ==> out[p] != out[q])
      && (forall w :: w in out <==> w in ws)
      && (forall p, q :: 0 <= p < q < |out| ==>
            out[p] in ws && out[q] in ws && FirstIndexOf(ws, Exact, out[p]) < FirstIndexOf(ws, Exact, out[q]))
      && IsSubsequence(out, ws)
  {
    var ws, out := Words(sentence), Words(DedupWords(sentence));
    WordsOfDedupWords(sentence);
    KeepFirstCharacterized(ws, Exact);
    KeepFirstIsSubsequence(ws, Exact);
    forall w
      ensures w in out <==> w in ws
    {
      if w in out {
        var p :| 0 <= p < |out| && out[p] == w;
        assert KeptFromFirst(out, ws, Exact, p);
      }
      if w in ws {
        var i :| 0 <= i < |ws| && ws[i] == w;
        assert Exact(w) in KeysOf(ws, Exact);
        assert Exact(w) in KeysOf(out, Exact);
      }
    }
    forall p, q | 0 <= p < q < |out|
      ensures out[p] in ws && out[q] in ws && FirstIndexOf(ws, Exact, out[p]) < FirstIndexOf(ws, Exact, out[q])
    {
      assert KeptFromFirst(out, ws, Exact, p) && KeptFromFirst(out, ws, Exact, q);
    }
  }

  /** Removing repeated words twice is the same as once. */
  lemma DedupWordsIdempotent(sentence: string)
    ensures DedupWords(DedupWords(sentence)) == DedupWords(sentence)
  {
    WordsOfDedupWords(sentence);
    KeepFirstIdempotent(Words(sentence), Exact);
  }

  /**
   * The kept sentences are pairwise distinct once lower-cased, include one sentence
   * for every lower-cased form among the cleaned sentences, each being the first
   * cleaned sentence of that form, in order; they are an order-preserving subsequence
   * of the cleaned sentences, and `clean_redundancies` joins them with single spaces.
   */
  lemma DedupSentencesSpec(text: string)
    ensures var cs, kept := CleanedSentences(text), KeptSentences(text);
      && DedupSentences(text) == JoinSpace(kept)
      && (forall p, q :: 0 <= p < q < |kept| ==> LowerStr(kept[p]) != LowerStr(kept[q]))
      && KeysOf(kept, LowerStr) == KeysOf(cs, LowerStr)
      && (forall p :: 0 <= p < |kept| ==> KeptFromFirst(kept, cs, LowerStr, p))
      && (forall p, q :: 0 <= p < q < |kept| ==>
            KeptFromFirst(kept, cs, LowerStr, p) && KeptFromFirst(kept, cs, LowerStr, q) &&
            FirstIndexOf(cs, LowerStr, LowerStr(kept[p])) < FirstIndexOf(cs, LowerStr, LowerStr(kept[q])))
      && IsSubsequence(kept, cs)
  {
    KeepFirstCharacterized(CleanedSentences(text), LowerStr);
    KeepFirstIsSubsequence(CleanedSentences(text), LowerStr);
  }
}
