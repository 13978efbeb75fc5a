/**
 * The summary post-processor: strip the surrounding whitespace, capitalize,
 * collapse runs of spaces into one, and put a space after every `.` or `,`
 * that is directly followed by a non-whitespace character.
 */
module PostProcessor {
  import opened TextOps

  /** Number of whitespace characters that open `s`. */
  function LeadingSpace(s: string): (n: nat)
    ensures n <= |s|
    ensures forall i :: 0 <= i < n ==> IsSpace(s[i])
    ensures n < |s| ==> !IsSpace(s[n])
  {
    if s == [] || !IsSpace(s[0]) then 0 else 1 + LeadingSpace(s[1..])
  }

  /** Number of whitespace characters that close `s`. */
  function TrailingSpace(s: string): (n: nat)
    ensures n <= |s|
    ensures forall i :: |s| - n <= i < |s| ==> IsSpace(s[i])
    ensures n < |s| ==> !IsSpace(s[|s| - n - 1])
  {
    if s == [] || !IsSpace(s[|s| - 1]) then 0 else 1 + TrailingSpace(s[..|s| - 1])
  }

  /** Neither end of `s` is whitespace. */
  predicate Trimmed(s: string) {
    s == [] || (!IsSpace(s[0]) && !IsSpace(s[|s| - 1]))
  }

  /** `str.strip()`: `s` without its leading and trailing whitespace. */
  function Strip(s: string): (r: string)
    ensures Trimmed(r)
    ensures Trimmed(s) ==> r == s
  {
    var a, e := LeadingSpace(s), |s| - TrailingSpace(s);
    if a < e then s[a..e] else []
  }

  /**
   * Stripping only removes whitespace, and only at the two ends: the result is
   * the slice `s[a..e]`, with whitespace before `a` and from `e` on, and it is
   * empty exactly when `s` is all whitespace.
   */
  lemma StripInfix(s: string)
    ensures exists a, e ::
      && 0 <= a <= e <= |s|
      && Strip(s) == s[a..e]
      && (forall i :: 0 <= i < a ==> IsSpace(s[i]))
      && (forall i :: e <= i < |s| ==> IsSpace(s[i]))
    ensures Strip(s) == [] <==> forall i :: 0 <= i < |s| ==> IsSpace(s[i])
  {
    var a, e := LeadingSpace(s), |s| - TrailingSpace(s);
    if a < e {
      assert Strip(s) == s[a..e];
    } else {
      assert Strip(s) == s[a..a];
    }
  }

  /** The first character is an upper-case fixed point, all others lower-case fixed points. */
  predicate Capitalized(s: string) {
    && (s != [] ==> UpperChar(s[0]) == s[0])
    && forall i :: 0 < i < |s| ==> LowerChar(s[i]) == s[i]
  }

  /** `str.capitalize()`: the first character upper-cased and the rest lower-cased. */
  function Capitalize(s: string): (r: string)
    ensures |r| == |s|
    ensures s != [] ==> r[0] == UpperChar(s[0])
    ensures forall i :: 0 < i < |s| ==> r[i] == LowerChar(s[i])
    ensures forall i :: 0 <= i < |s| ==> (IsSpace(r[i]) <==> IsSpace(s[i]))
    ensures Capitalized(r)
    ensures Capitalized(s) ==> r == s
  {
    forall c: char ensures LowerChar(LowerChar(c)) == LowerChar(c) && UpperChar(UpperChar(c)) == UpperChar(c) {
      CaseMapsIdempotent(c);
    }
    if s == [] then [] else [UpperChar(s[0])] + LowerStr(s[1..])
  }

  /** No space is directly followed by another. */
  predicate NoDoubleSpace(s: string) {
    forall i :: 0 <= i < |s| - 1 ==> !(s[i] == ' ' && s[i + 1] == ' ')
  }

  /** `re.sub(" +", " ", s)`: every run of spaces becomes a single space. */
  function CollapseSpaces(s: string): (r: string)
    ensures NoDoubleSpace(r)
    ensures s != [] ==> r != [] && r[0] == s[0] && r[|r| - 1] == s[|s| - 1]
    decreases |s|
  {
    if |s| < 2 then s
    else if s[0] == ' ' && s[1] == ' ' then CollapseSpaces(s[1..])
    else [s[0]] + CollapseSpaces(s[1..])
  }

  /** Text without a double space is left as it is. */
  lemma {:induction false} CollapseFixed(s: string)
    requires NoDoubleSpace(s)
    ensures CollapseSpaces(s) == s
    decreases |s|
  {
    if |s| >= 2 {
      assert NoDoubleSpace(s[1..]) by {
        assert forall i :: 0 <= i < |s| - 1 ==> s[1..][i] == s[i + 1];
      }
      CollapseFixed(s[1..]);
      assert s == [s[0]] + s[1..];
    }
  }

  /** Every character after the first comes from after the first character of the input. */
  lemma {:induction false} CollapseKeepsTail(s: string, p: char -> bool)
    requires forall i :: 0 < i < |s| ==> p(s[i])
    ensures forall i :: 0 < i < |CollapseSpaces(s)| ==> p(CollapseSpaces(s)[i])
    decreases |s|
  {
    if |s| >= 2 {
      assert forall i :: 0 < i < |s| - 1 ==> s[1..][i] == s[i + 1];
      CollapseKeepsTail(s[1..], p);
      var rest := CollapseSpaces(s[1..]);
      if s[0] == ' ' && s[1] == ' ' {
        assert CollapseSpaces(s) == rest;
      } else {
        var r := [s[0]] + rest;
        assert CollapseSpaces(s) == r;
        assert rest[0] == s[1] && p(s[1]);
        assert forall i :: 0 < i < |r| ==> r[i] == rest[i - 1];
      }
    }
  }

  /** Collapsing removes spaces only. */
  lemma {:induction false} CollapseKeepsNonSpace(s: string)
    ensures NonSpace(CollapseSpaces(s)) == NonSpace(s)
    decreases |s|
  {
    if |s| >= 2 {
      CollapseKeepsNonSpace(s[1..]);
      if !(s[0] == ' ' && s[1] == ' ') {
        var rest := CollapseSpaces(s[1..]);
        assert ([s[0]] + rest)[1..] == rest;
      }
    }
  }

  /** The space at `j` is one that collapsing removes: it is followed by another space. */
  predicate DoubledSpace(s: string, j: nat) {
    j + 1 < |s| && s[j] == ' ' && s[j + 1] == ' '
  }

  /** How many of the first `i` characters of `s` are doubled spaces. */
  function DoubledBefore(s: string, i: nat): (n: nat)
    requires i <= |s|
    ensures n <= i
  {
    if i == 0 then 0
    else (if DoubledSpace(s, 0) then 1 else 0) + DoubledBefore(s[1..], i - 1)
  }

  /**
   * `r` is `s` with its doubled spaces removed: every other character `i` of `s`
   * lands at `i` minus the doubled spaces before it, and `r` has no other character.
   */
  predicate CollapsedFrom(s: string, r: string) {
    && |r| == |s| - DoubledBefore(s, |s|)
    && forall i {:trigger DoubledBefore(s, i)} :: 0 <= i < |s| && !DoubledSpace(s, i) ==>
         i - DoubledBefore(s, i) < |r| && r[i - DoubledBefore(s, i)] == s[i]
  }

  /**
   * Collapsing removes exactly the doubled spaces, one space of every run of two
   * or more, and keeps every other character in order.
   */
  lemma {:induction false} CollapseDropsOnlyDoubled(s: string)
    ensures CollapsedFrom(s, CollapseSpaces(s))
    decreases |s|
  {
    if |s| < 2 {
      assert !DoubledSpace(s, 0);
      assert |s| == 1 ==> DoubledBefore(s[1..], 0) == 0;
    } else {
      CollapseDropsOnlyDoubled(s[1..]);
      CollapseCons(s, CollapseSpaces(s[1..]));
    }
  }

  /** One step of `CollapseDropsOnlyDoubled`: from the collapsed tail to the collapsed text. */
  lemma CollapseCons(s: string, rt: string)
    requires |s| >= 2 && CollapsedFrom(s[1..], rt)
    ensures CollapsedFrom(s, if DoubledSpace(s, 0) then rt else [s[0]] + rt)
  {
    var t := s[1..];
    var d := if DoubledSpace(s, 0) then 1 else 0;
    var r := if DoubledSpace(s, 0) then rt else [s[0]] + rt;
    assert DoubledBefore(s, 0) == 0;
    assert DoubledBefore(s, |s|) == d + DoubledBefore(t, |t|);
    forall i | 0 <= i < |s| && !DoubledSpace(s, i)
      ensures i - DoubledBefore(s, i) < |r| && r[i - DoubledBefore(s, i)] == s[i]
    {
      if i > 0 {
        assert DoubledBefore(s, i) == d + DoubledBefore(t, i - 1);
        assert DoubledSpace(s, i) == DoubledSpace(t, i - 1);
        var k := i - 1 - DoubledBefore(t, i - 1);
        assert rt[k] == t[i - 1];
        assert i - DoubledBefore(s, i) == 1 - d + k;
        assert r[1 - d + k] == rt[k];
      }
    }
  }

  /** Every `.` or `,` that is not the last character is followed by whitespace. */
  predicate SpacedPunctuation(s: string) {
    forall i :: 0 <= i < |s| - 1 && (s[i] == '.' || s[i] == ',') ==> IsSpace(s[i + 1])
  }

  /** A `.` or `,` right before a non-whitespace character: where the pattern inserts a space. */
  predicate NeedsSpace(a: char, b: char) {
    (a == '.' || a == ',') && !IsSpace(b)
  }

  /**
   * `re.sub(r"(?<=[.,])(?=[^\s])", " ", s)`: a space goes into every position
   * that follows a `.` or `,` and precedes a non-whitespace character.
   */
  function SpaceAfterPunctuation(s: string): (r: string)
    ensures SpacedPunctuation(r)
    ensures s != [] ==> r != [] && r[0] == s[0] && r[|r| - 1] == s[|s| - 1]
    decreases |s|
  {
    if |s| < 2 then s
    else if NeedsSpace(s[0], s[1]) then [s[0], ' '] + SpaceAfterPunctuation(s[1..])
    else [s[0]] + SpaceAfterPunctuation(s[1..])
  }

  /** A space goes in right after position `j`. */
  predicate SpaceAfter(s: string, j: nat) {
    j + 1 < |s| && NeedsSpace(s[j], s[j + 1])
  }

  /** How many spaces go in after the first `i` characters of `s`. */
  function InsertedBefore(s: string, i: nat): nat
    requires i <= |s|
  {
    if i == 0 then 0
    else (if SpaceAfter(s, 0) then 1 else 0) + InsertedBefore(s[1..], i - 1)
  }

  /**
   * `r` is `s` with a space inserted at every `SpaceAfter` point: character `i` of
   * `s` moves right by the spaces inserted before it, a space follows it when one
   * goes in there, and `r` has no other character.
   */
  predicate SpacedFrom(s: string, r: string) {
    && |r| == |s| + InsertedBefore(s, |s|)
    && (forall i {:trigger InsertedBefore(s, i)} :: 0 <= i < |s| ==>
          i + InsertedBefore(s, i) < |r| && r[i + InsertedBefore(s, i)] == s[i])
    && (forall i {:trigger InsertedBefore(s, i)} :: 0 <= i < |s| && SpaceAfter(s, i) ==>
          i + InsertedBefore(s, i) + 1 < |r| && r[i + InsertedBefore(s, i) + 1] == ' ')
  }

  /**
   * The insertion keeps every character of `s` in order, character `i` moving
   * right by the spaces inserted before it; exactly one space goes in after each
   * `.` or `,` that is followed by non-whitespace, and nothing else is added.
   */
  lemma {:induction false} SpacingInsertsExactly(s: string)
    ensures SpacedFrom(s, SpaceAfterPunctuation(s))
    decreases |s|
  {
    if |s| < 2 {
      assert !SpaceAfter(s, 0);
    } else {
      SpacingInsertsExactly(s[1..]);
      SpacingCons(s, SpaceAfterPunctuation(s[1..]));
    }
  }

  /** One step of `SpacingInsertsExactly`: from the spaced tail to the spaced text. */
  lemma SpacingCons(s: string, rt: string)
    requires |s| >= 2 && SpacedFrom(s[1..], rt)
    ensures SpacedFrom(s, (if SpaceAfter(s, 0) then [s[0], ' '] else [s[0]]) + rt)
  {
    var t := s[1..];
    var d := if SpaceAfter(s, 0) then 1 else 0;
    var pre := if SpaceAfter(s, 0) then [s[0], ' '] else [s[0]];
    var r := pre + rt;
    assert |pre| == 1 + d && r[0] == s[0];
    assert InsertedBefore(s, 0) == 0;
    assert InsertedBefore(s, |s|) == d + InsertedBefore(t, |t|);
    forall i | 0 <= i < |s|
      ensures i + InsertedBefore(s, i) < |r| && r[i + InsertedBefore(s, i)] == s[i]
      ensures SpaceAfter(s, i) ==> i + InsertedBefore(s, i) + 1 < |r| && r[i + InsertedBefore(s, i) + 1] == ' '
    {
      if i > 0 {
        assert InsertedBefore(s, i) == d + InsertedBefore(t, i - 1);
        assert SpaceAfter(s, i) == SpaceAfter(t, i - 1);
        var k := i - 1 + InsertedBefore(t, i - 1);
        assert rt[k] == t[i - 1];
        assert r[1 + d + k] == rt[k];
        if SpaceAfter(t, i - 1) {
          assert r[1 + d + k + 1] == rt[k + 1];
        }
      } else if d == 1 {
        assert r[1] == ' ';
      }
    }
  }

  /** Text already spaced after its punctuation is left as it is. */
  lemma {:induction false} SpacingFixed(s: string)
    requires SpacedPunctuation(s)
    ensures SpaceAfterPunctuation(s) == s
    decreases |s|
  {
    if |s| >= 2 {
      assert SpacedPunctuation(s[1..]) by {
        assert forall i :: 0 <= i < |s| - 1 ==> s[1..][i] == s[i + 1];
      }
      SpacingFixed(s[1..]);
      assert s == [s[0]] + s[1..];
    }
  }

  /** The inserted spaces never make a double space. */
  lemma {:induction false} SpacingKeepsNoDoubleSpace(s: string)
    requires NoDoubleSpace(s)
    ensures NoDoubleSpace(SpaceAfterPunctuation(s))
    decreases |s|
  {
    if |s| >= 2 {
      assert NoDoubleSpace(s[1..]) by {
        assert forall i :: 0 <= i < |s| - 1 ==> s[1..][i] == s[i + 1];
      }
      SpacingKeepsNoDoubleSpace(s[1..]);
      var rest := SpaceAfterPunctuation(s[1..]);
      if NeedsSpace(s[0], s[1]) {
        var r := [s[0], ' '] + rest;
        assert SpaceAfterPunctuation(s) == r;
        assert r[2] == s[1];
        assert forall i :: 2 <= i < |r| ==> r[i] == rest[i - 2];
      } else {
        var r := [s[0]] + rest;
        assert SpaceAfterPunctuation(s) == r;
        assert forall i :: 1 <= i < |r| ==> r[i] == rest[i - 1];
      }
    }
  }

  /** Every character after the first is an inserted space or comes from after the input's first. */
  lemma {:induction false} SpacingKeepsTail(s: string, p: char -> bool)
    requires p(' ')
    requires forall i :: 0 < i < |s| ==> p(s[i])
    ensures forall i :: 0 < i < |SpaceAfterPunctuation(s)| ==> p(SpaceAfterPunctuation(s)[i])
    decreases |s|
  {
    if |s| >= 2 {
      assert forall i :: 0 < i < |s| - 1 ==> s[1..][i] == s[i + 1];
      SpacingKeepsTail(s[1..], p);
      var rest := SpaceAfterPunctuation(s[1..]);
      assert rest[0] == s[1] && p(s[1]);
      if NeedsSpace(s[0], s[1]) {
        var r := [s[0], ' '] + rest;
        assert SpaceAfterPunctuation(s) == r;
        assert r[1] == ' ';
        assert forall i :: 2 <= i < |r| ==> r[i] == rest[i - 2];
      } else {
        var r := [s[0]] + rest;
        assert SpaceAfterPunctuation(s) == r;
        assert forall i :: 1 <= i < |r| ==> r[i] == rest[i - 1];
      }
    }
  }

  /** Inserting spaces after punctuation adds spaces only. */
  lemma {:induction false} SpacingKeepsNonSpace(s: string)
    ensures NonSpace(SpaceAfterPunctuation(s)) == NonSpace(s)
    decreases |s|
  {
    if |s| >= 2 {
      SpacingKeepsNonSpace(s[1..]);
      var rest := SpaceAfterPunctuation(s[1..]);
      if NeedsSpace(s[0], s[1]) {
        assert ([s[0], ' '] + rest)[1..] == [' '] + rest;
        assert ([' '] + rest)[1..] == rest;
      } else {
        assert ([s[0]] + rest)[1..] == rest;
      }
    }
  }

  /**
   * `post_process_summary`: strip, capitalize, collapse runs of spaces, then space
   * the punctuation. The result has no whitespace at either end, no two spaces in
   * a row, whitespace after every `.` and `,` but a final one, its first
   * character upper-case and the others lower-case.
   */
  function PostProcess(summary: string): (r: string)
    ensures Trimmed(r)
    ensures NoDoubleSpace(r)
    ensures SpacedPunctuation(r)
    ensures Capitalized(r)
  {
    var c := Capitalize(Strip(summary));
    var d := CollapseSpaces(c);
    CollapseKeepsCapitalized(c);
    SpacingKeepsCapitalized(d);
    SpacingKeepsNoDoubleSpace(d);
    SpaceAfterPunctuation(d)
  }

  lemma CollapseKeepsCapitalized(s: string)
    requires Capitalized(s)
    ensures Capitalized(CollapseSpaces(s))
  {
    CollapseKeepsTail(s, (ch: char) => LowerChar(ch) == ch);
  }

  lemma SpacingKeepsCapitalized(s: string)
    requires Capitalized(s)
    ensures Capitalized(SpaceAfterPunctuation(s))
  {
    SpacingKeepsTail(s, (ch: char) => LowerChar(ch) == ch);
  }

  /** Post-processing a post-processed summary changes nothing. */
  lemma PostProcessIdempotent(summary: string)
    ensures PostProcess(PostProcess(summary)) == PostProcess(summary)
  {
    var r := PostProcess(summary);
    assert Strip(r) == r;
    assert Capitalize(r) == r;
    CollapseFixed(r);
    SpacingFixed(r);
  }

  /** Post-processing keeps the summary's characters, up to case, and changes only whitespace. */
  lemma PostProcessKeepsText(summary: string)
    ensures NonSpace(PostProcess(summary)) == NonSpace(Capitalize(Strip(summary)))
  {
    var c := Capitalize(Strip(summary));
    CollapseKeepsNonSpace(c);
    SpacingKeepsNonSpace(CollapseSpaces(c));
  }
}
