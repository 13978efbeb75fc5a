/**
 * The title of a summary: its first two whitespace-separated words, joined by a
 * space, followed by an ellipsis.
 */
module TitleExtractor {
  import opened TextOps

  /** How many words the title keeps. */
  const TitleWords: nat := 2

  /** `' '.join(summary.split()[:2]) + "..."`. */
  function Title(summary: string): (t: string)
    ensures |t| >= 3 && t[|t| - 3..] == "..."
  {
    var ws := Words(summary);
    var kept := if |ws| <= TitleWords then ws else ws[..TitleWords];
    JoinSpace(kept) + "..."
  }

  /**
   * Before the ellipsis, the title splits back into exactly the first
   * min(2, #words) words of the summary.
   */
  lemma TitleIsFirstWords(summary: string)
    ensures var t, ws := Title(summary), Words(summary);
      && Words(t[..|t| - 3]) == (if |ws| <= TitleWords then ws else ws[..TitleWords])
      && t[..|t| - 3] == JoinSpace(Words(t[..|t| - 3]))
  {
    var ws := Words(summary);
    var kept := if |ws| <= TitleWords then ws else ws[..TitleWords];
    var t := Title(summary);
    assert t[..|t| - 3] == JoinSpace(kept);
    assert forall k :: 0 <= k < |kept| ==> IsWord(kept[k]) by {
      assert forall k :: 0 <= k < |kept| ==> kept[k] == ws[k];
    }
    WordsOfJoin(kept);
  }

  /** A summary with no words, the empty one included, gets the title "...". */
  lemma TitleOfBlank(summary: string)
    requires forall i :: 0 <= i < |summary| ==> IsSpace(summary[i])
    ensures Title(summary) == "..."
  {
    BlankHasNoWords(summary);
  }

  lemma {:induction false} BlankHasNoWords(s: string)
    requires forall i :: 0 <= i < |s| ==> IsSpace(s[i])
    ensures Words(s) == []
    decreases |s|
  {
    if s != [] {
      BlankHasNoWords(s[1..]);
    }
  }

  /** A summary of two words or more has its first two words as title. */
  lemma TitleOfLongSummary(summary: string)
    requires |Words(summary)| >= 2
    ensures Title(summary) == Words(summary)[0] + " " + Words(summary)[1] + "..."
  {
    var ws := Words(summary);
    var kept := if |ws| <= TitleWords then ws else ws[..TitleWords];
    assert kept == [ws[0], ws[1]];
    assert Title(summary) == JoinSpace(kept) + "...";
    JoinTwo(ws[0], ws[1]);
  }

  /** "Deep learning models improve accuracy." has the title "Deep learning...". */
  lemma TitleOfDeepLearning(deep: string, learning: string, models: string, improve: string, accuracy: string,
                            summary: string)
    requires deep == "Deep" && learning == "learning"
    requires models == "models" && improve == "improve" && accuracy == "accuracy."
    requires summary == deep + " " + learning + " " + models + " " + improve + " " + accuracy
    ensures Title(summary) == deep + " " + learning + "..."
  {
    var ws := [deep, learning, models, improve, accuracy];
    assert forall k :: 0 <= k < |ws| ==> IsWord(ws[k]);
    JoinFive(deep, learning, models, improve, accuracy);
    WordsOfJoin(ws);
    TitleOfLongSummary(summary);
  }
}
