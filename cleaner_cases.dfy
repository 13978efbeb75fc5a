/**
 * Worked inputs for the redundancy cleaner, each proved from the general lemmas:
 * the sentence-level and word-level behaviour on concrete text, and the choice of
 * computing the sentence key after word cleaning.
 */
module CleanerCases {
  import opened TextOps
  import opened SentenceSplitter
  import opened Dedup
  import opened RedundancyCleaner

  /** A sentence whose words are already distinct is left as it is by the word cleaner. */
  lemma DedupWordsOfDistinct(s: string, ws: seq<string>)
    requires forall k :: 0 <= k < |ws| ==> IsWord(ws[k])
    requires forall p, q :: 0 <= p < q < |ws| ==> ws[p] != ws[q]
    requires s == JoinSpace(ws)
    ensures DedupWords(s) == s
  {
    WordsOfJoin(ws);
    KeepFirstOfDistinct(ws, Exact);
  }

  lemma ThreeDistinctWords(s: string, x: string, y: string, z: string)
    requires IsWord(x) && IsWord(y) && IsWord(z) && x != y && x != z && y != z
    requires s == x + " " + y + " " + z
    ensures DedupWords(s) == s
  {
    JoinThree(x, y, z);
    DedupWordsOfDistinct(s, [x, y, z]);
  }

  lemma KeepFirstXXYZZ(x: string, y: string, z: string)
    requires x != y && x != z && y != z
    ensures KeepFirst([x, x, y, z, z], Exact) == [x, y, z]
  {
    KeepFirstXXY(x, y);
    KeepFirstSnoc([x, x, y], z, Exact);
    assert [x, x, y] + [z] == [x, x, y, z];
    assert KeysOf([x, x, y, z], Exact) == {x, y, z};
    assert KeepFirst([x, x, y, z], Exact) == [x, y, z];
    KeepFirstSnoc([x, x, y, z], z, Exact);
    assert [x, x, y, z] + [z] == [x, x, y, z, z];
  }

  lemma KeepFirstXXY(x: string, y: string)
    requires x != y
    ensures KeysOf([x, x, y], Exact) == {x, y}
    ensures KeepFirst([x, x, y], Exact) == [x, y]
  {
    KeepFirstSnoc([], x, Exact);
    assert [] + [x] == [x];
    assert KeysOf([x], Exact) == {x};
    KeepFirstSnoc([x], x, Exact);
    assert [x] + [x] == [x, x];
    assert KeepFirst([x, x], Exact) == [x];
    KeepFirstSnoc([x, x], y, Exact);
    assert [x, x] + [y] == [x, x, y];
  }

  lemma KeepFirstXYYZ(x: string, y: string, z: string)
    requires x != y && x != z && y != z
    ensures KeepFirst([x, y, y, z], Exact) == [x, y, z]
  {
    KeepFirstSnoc([], x, Exact);
    assert [] + [x] == [x];
    KeepFirstSnoc([x], y, Exact);
    assert [x] + [y] == [x, y];
    KeepFirstSnoc([x, y], y, Exact);
    assert [x, y] + [y] == [x, y, y];
    KeepFirstSnoc([x, y, y], z, Exact);
    assert [x, y, y] + [z] == [x, y, y, z];
  }

  /** "red red Red blue blue" cleans to "red Red blue": first occurrences, case-sensitive. */
  lemma RedRedRedBlueBlue(red: string, cap: string, blue: string, s: string)
    requires red == "red" && cap == "Red" && blue == "blue"
    requires s == red + " " + red + " " + cap + " " + blue + " " + blue
    ensures DedupWords(s) == red + " " + cap + " " + blue
  {
    var ws := [red, red, cap, blue, blue];
    assert IsWord(red) && IsWord(cap) && IsWord(blue);
    assert forall k :: 0 <= k < |ws| ==> IsWord(ws[k]);
    JoinFive(red, red, cap, blue, blue);
    WordsOfJoin(ws);
    assert red != cap && red != blue && cap != blue;
    KeepFirstXXYZZ(red, cap, blue);
    JoinThree(red, cap, blue);
  }

  lemma LowerCatDog(a: string, b: string)
    requires a == "The cat sat." && b == "The dog ran."
    ensures LowerStr(a) != LowerStr(b)
  {
    assert LowerStr(a)[4] == LowerChar(a[4]);
    assert a[4] == 'c';
    assert LowerChar('c') == 'c';
  }

  lemma CatDogWellFormed(a: string, b: string)
    requires a == "The cat sat." && b == "The dog ran."
    ensures WellFormedSentences([a, a, b])
  {
    assert !HasInnerCandidate(a) && EndsSentence(a);
    assert !HasInnerCandidate(b);
  }

  /** Both sentences of the example have three distinct words, so word cleaning keeps them. */
  lemma CatDogWords(a: string, b: string)
    requires a == "The cat sat." && b == "The dog ran."
    ensures DedupWords(a) == a && DedupWords(b) == b
  {
    var the, cat, sat, dog, ran := "The", "cat", "sat.", "dog", "ran.";
    assert IsWord(the) && IsWord(cat) && IsWord(sat) && IsWord(dog) && IsWord(ran);
    assert the != cat && the != sat && cat != sat;
    assert the != dog && the != ran && dog != ran;
    ThreeDistinctWords(a, the, cat, sat);
    ThreeDistinctWords(b, the, dog, ran);
  }

  lemma KeepFirstAAB(a: string, b: string)
    requires LowerStr(a) != LowerStr(b)
    ensures KeepFirst([a, a, b], LowerStr) == [a, b]
  {
    var cs := [a, a, b];
    assert cs[..2] == [a, a] && cs[..2][..1] == [a] && cs[..1][..0] == [];
    assert KeysOf(cs[..1], LowerStr) == {LowerStr(a)} by {
      assert cs[..1][0] == a;
    }
    assert KeysOf(cs[..2], LowerStr) == {LowerStr(a)} by {
      assert cs[..2][0] == a && cs[..2][1] == a;
    }
    assert KeepFirst(cs[..2], LowerStr) == [a];
    assert cs[..|cs| - 1] == cs[..2];
  }

  /** "The cat sat. The cat sat. The dog ran." cleans to "The cat sat. The dog ran.". */
  lemma CatCatDog(a: string, b: string, text: string)
    requires a == "The cat sat." && b == "The dog ran."
    requires text == a + " " + a + " " + b
    ensures DedupSentences(text) == a + " " + b
  {
    CatDogWellFormed(a, b);
    JoinThree(a, a, b);
    SplitOfJoin([a, a, b]);
    CatDogWords(a, b);
    assert CleanedSentences(text) == [a, a, b];
    LowerCatDog(a, b);
    KeepFirstAAB(a, b);
    JoinTwo(a, b);
  }

  lemma ItIsIsDone(it: string, verb: string, done: string, a: string)
    requires it == "It" && verb == "is" && done == "done."
    requires a == it + " " + verb + " " + verb + " " + done
    ensures DedupWords(a) == it + " " + verb + " " + done
  {
    assert IsWord(it) && IsWord(verb) && IsWord(done);
    assert it != verb && it != done && verb != done;
    var ws := [it, verb, verb, done];
    assert forall k :: 0 <= k < |ws| ==> IsWord(ws[k]);
    JoinFour(it, verb, verb, done);
    WordsOfJoin(ws);
    KeepFirstXYYZ(it, verb, done);
    JoinThree(it, verb, done);
  }

  lemma ItIsDone(it: string, verb: string, done: string, b: string)
    requires it == "It" && verb == "is" && done == "done."
    requires b == it + " " + verb + " " + done
    ensures DedupWords(b) == b
  {
    assert IsWord(it) && IsWord(verb) && IsWord(done);
    assert it != verb && it != done && verb != done;
    ThreeDistinctWords(b, it, verb, done);
  }

  lemma KeepFirstBB(b: string)
    ensures KeepFirst([b, b], LowerStr) == [b]
  {
    var cs := [b, b];
    assert cs[..1] == [b] && cs[..1][..0] == [];
    assert KeysOf(cs[..1], LowerStr) == {LowerStr(b)} by {
      assert cs[..1][0] == b;
    }
  }

  /**
   * The sentence key is taken after word cleaning: "It is is done. It is done."
   * cleans to "It is done.", the repeated word no longer telling the two apart.
   */
  lemma KeyAfterWordCleaning(it: string, verb: string, done: string, a: string, b: string, text: string)
    requires it == "It" && verb == "is" && done == "done."
    requires a == it + " " + verb + " " + verb + " " + done && b == it + " " + verb + " " + done
    requires text == a + " " + b
    ensures DedupSentences(text) == b
  {
    assert WellFormedSentences([a, b]) by {
      assert !HasInnerCandidate(a) && EndsSentence(a);
      assert !HasInnerCandidate(b);
    }
    JoinTwo(a, b);
    SplitOfJoin([a, b]);
    ItIsIsDone(it, verb, done, a);
    ItIsDone(it, verb, done, b);
    assert CleanedSentences(text) == [b, b];
    KeepFirstBB(b);
  }
}
