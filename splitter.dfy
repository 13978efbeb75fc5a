/**
 * The sentence splitter: `re.split` with the pattern
 * `(?<!\w\.\w.)(?<![A-ZİĞÜŞÖÇ][a-zığüşöç]\.)(?<=\.|\?)\s`,
 * used both before chunking and again by the redundancy cleaner.
 */
module SentenceSplitter {
  import opened TextOps

  predicate IsTerminal(c: char) {
    c == '.' || c == '?'
  }

  /** The four characters before `i` look like "U.S." or "e.g.": word, dot, word, any but newline. */
  predicate AfterDottedAbbreviation(text: string, i: nat)
    requires i <= |text|
  {
    4 <= i && IsWordChar(text[i - 4]) && text[i - 3] == '.' && IsWordChar(text[i - 2]) && text[i - 1] != '\n'
  }

  /** The three characters before `i` look like "Mr." or "Dr.": capital, small letter, dot. */
  predicate AfterTitleAbbreviation(text: string, i: nat)
    requires i <= |text|
  {
    3 <= i && IsUpperLetter(text[i - 3]) && IsLowerLetter(text[i - 2]) && text[i - 1] == '.'
  }

  /** The pattern matches the single character at `i` (which the split then consumes). */
  predicate IsBoundary(text: string, i: nat) {
    && i < |text|
    && IsSpace(text[i])
    && 1 <= i && IsTerminal(text[i - 1])
    && !AfterDottedAbbreviation(text, i)
    && !AfterTitleAbbreviation(text, i)
  }

  /**
   * The scanning below is written for any boundary test, so that the proofs
   * need not look inside the pattern; `Split` fixes it to `IsBoundary`.
   */
  type BoundaryTest = (string, nat) -> bool

  /** The boundary positions at or after `i`, in increasing order. */
  function BoundariesFrom(text: string, isBoundary: BoundaryTest, i: nat): (bs: seq<nat>)
    requires i <= |text|
    ensures forall k :: 0 <= k < |bs| ==> i <= bs[k] < |text|
    ensures forall k, l :: 0 <= k < l < |bs| ==> bs[k] < bs[l]
    decreases |text| - i
  {
    if i == |text| then []
    else if isBoundary(text, i) then [i] + BoundariesFrom(text, isBoundary, i + 1)
    else BoundariesFrom(text, isBoundary, i + 1)
  }

  /** The list holds exactly the positions from `i` on where the test holds. */
  lemma {:induction false} BoundariesFromExact(text: string, isBoundary: BoundaryTest, i: nat)
    requires i <= |text|
    ensures forall j :: i <= j < |text| ==> (isBoundary(text, j) <==> j in BoundariesFrom(text, isBoundary, i))
    decreases |text| - i
  {
    if i < |text| {
      BoundariesFromExact(text, isBoundary, i + 1);
    }
  }

  lemma {:induction false} BoundariesFromNone(text: string, isBoundary: BoundaryTest, i: nat)
    requires i <= |text|
    requires forall j :: i <= j < |text| ==> !isBoundary(text, j)
    ensures BoundariesFrom(text, isBoundary, i) == []
    decreases |text| - i
  {
    if i < |text| {
      BoundariesFromNone(text, isBoundary, i + 1);
    }
  }

  /** Every position where the pattern matches, in increasing order. */
  function Boundaries(text: string): (bs: seq<nat>)
    ensures forall k :: 0 <= k < |bs| ==> bs[k] < |text|
  {
    BoundariesFrom(text, IsBoundary, 0)
  }

  lemma BoundariesExact(text: string)
    ensures forall j :: 0 <= j < |text| ==> (IsBoundary(text, j) <==> j in Boundaries(text))
  {
    BoundariesFromExact(text, IsBoundary, 0);
  }

  /** The characters found at `positions`. */
  function CharsAt(text: string, positions: seq<nat>): (cs: string)
    requires forall k :: 0 <= k < |positions| ==> positions[k] < |text|
    ensures |cs| == |positions|
  {
    if positions == [] then [] else [text[positions[0]]] + CharsAt(text, positions[1..])
  }

  /** The characters the split consumes, in order. */
  function Separators(text: string): string {
    CharsAt(text, Boundaries(text))
  }

  /** The pieces of `text[start..]`, scanning from `i`; no boundary lies in `start..i`. */
  function SplitFrom(text: string, isBoundary: BoundaryTest, start: nat, i: nat): seq<string>
    requires start <= i <= |text|
    decreases |text| - i
  {
    if i == |text| then [text[start..]]
    else if isBoundary(text, i) then [text[start..i]] + SplitFrom(text, isBoundary, i + 1, i + 1)
    else SplitFrom(text, isBoundary, start, i + 1)
  }

  /** `re.split(pattern, text)`: empty pieces are kept, so "" gives [""]. */
  function Split(text: string): (pieces: seq<string>)
    ensures text == [] ==> pieces == [""]
  {
    SplitFrom(text, IsBoundary, 0, 0)
  }

  /** Puts the consumed characters back between the pieces. */
  function Rejoin(pieces: seq<string>, seps: string): string
    requires |pieces| == |seps| + 1
  {
    if seps == [] then pieces[0] else pieces[0] + [seps[0]] + Rejoin(pieces[1..], seps[1..])
  }

  /** Where the `k`-th piece starts and ends, given the boundaries `bs` after `start`. */
  function PieceStart(start: nat, bs: seq<nat>, k: nat): nat
    requires k <= |bs|
  {
    if k == 0 then start else bs[k - 1] + 1
  }

  function PieceEnd(len: nat, bs: seq<nat>, k: nat): nat
    requires k <= |bs|
  {
    if k < |bs| then bs[k] else len
  }

  /** Piece `k` of `r` is the text between boundary `k - 1` (or `start`) and boundary `k` (or the end). */
  predicate PieceAt(text: string, start: nat, bs: seq<nat>, r: seq<string>, k: nat)
    requires |r| == |bs| + 1 && k < |r|
  {
    PieceStart(start, bs, k) <= PieceEnd(|text|, bs, k) <= |text|
    && r[k] == text[PieceStart(start, bs, k)..PieceEnd(|text|, bs, k)]
  }

  lemma {:induction false} SplitFromPieces(text: string, isBoundary: BoundaryTest, start: nat, i: nat)
    requires start <= i <= |text|
    ensures |SplitFrom(text, isBoundary, start, i)| == |BoundariesFrom(text, isBoundary, i)| + 1
    ensures forall k :: 0 <= k < |SplitFrom(text, isBoundary, start, i)| ==>
              PieceAt(text, start, BoundariesFrom(text, isBoundary, i), SplitFrom(text, isBoundary, start, i), k)
    decreases |text| - i
  {
    var r, bs := SplitFrom(text, isBoundary, start, i), BoundariesFrom(text, isBoundary, i);
    if i == |text| {
      assert r == [text[start..]] && bs == [];
      assert PieceAt(text, start, bs, r, 0);
    } else if isBoundary(text, i) {
      SplitFromPieces(text, isBoundary, i + 1, i + 1);
      var r', bs' := SplitFrom(text, isBoundary, i + 1, i + 1), BoundariesFrom(text, isBoundary, i + 1);
      assert r == [text[start..i]] + r';
      assert bs == [i] + bs';
      forall k | 0 <= k < |r|
        ensures PieceAt(text, start, bs, r, k)
      {
        if k == 0 {
          assert PieceEnd(|text|, bs, 0) == i;
        } else {
          assert PieceAt(text, i + 1, bs', r', k - 1);
          assert PieceStart(start, bs, k) == PieceStart(i + 1, bs', k - 1);
          assert PieceEnd(|text|, bs, k) == PieceEnd(|text|, bs', k - 1);
        }
      }
    } else {
      SplitFromPieces(text, isBoundary, start, i + 1);
    }
  }

  /**
   * Each piece is the text strictly between two consecutive boundaries
   * (or the start or end of the text): no boundary is missed, none is invented.
   */
  lemma SplitPieces(text: string)
    ensures |Split(text)| == |Boundaries(text)| + 1
    ensures forall k :: 0 <= k < |Split(text)| ==> PieceAt(text, 0, Boundaries(text), Split(text), k)
  {
    SplitFromPieces(text, IsBoundary, 0, 0);
  }

  lemma RejoinCons(p: string, c: char, r: seq<string>, cs: string)
    requires |r| == |cs| + 1
    ensures Rejoin([p] + r, [c] + cs) == p + [c] + Rejoin(r, cs)
  {
    assert ([p] + r)[1..] == r;
    assert ([c] + cs)[1..] == cs;
  }

  lemma {:induction false} SplitFromRejoins(text: string, isBoundary: BoundaryTest, start: nat, i: nat)
    requires start <= i <= |text|
    ensures |SplitFrom(text, isBoundary, start, i)| == |BoundariesFrom(text, isBoundary, i)| + 1
    ensures Rejoin(SplitFrom(text, isBoundary, start, i), CharsAt(text, BoundariesFrom(text, isBoundary, i))) == text[start..]
    decreases |text| - i
  {
    if i == |text| {
    } else if isBoundary(text, i) {
      SplitFromRejoins(text, isBoundary, i + 1, i + 1);
      var r' := SplitFrom(text, isBoundary, i + 1, i + 1);
      var bs' := BoundariesFrom(text, isBoundary, i + 1);
      var cs' := CharsAt(text, bs');
      assert BoundariesFrom(text, isBoundary, i) == [i] + bs';
      assert CharsAt(text, [i] + bs') == [text[i]] + cs' by {
        assert ([i] + bs')[1..] == bs';
      }
      assert SplitFrom(text, isBoundary, start, i) == [text[start..i]] + r';
      RejoinCons(text[start..i], text[i], r', cs');
      assert text[start..] == text[start..i] + [text[i]] + text[i + 1..];
    } else {
      SplitFromRejoins(text, isBoundary, start, i + 1);
    }
  }

  lemma {:induction false} SeparatorsAreSpaces(text: string, bs: seq<nat>)
    requires forall k :: 0 <= k < |bs| ==> bs[k] < |text| && IsBoundary(text, bs[k])
    ensures forall k :: 0 <= k < |bs| ==> IsSpace(CharsAt(text, bs)[k])
    decreases |bs|
  {
    if bs != [] {
      SeparatorsAreSpaces(text, bs[1..]);
    }
  }

  /** Re-inserting each consumed whitespace character at its boundary gives back the input. */
  lemma SplitReconstructs(text: string)
    ensures |Split(text)| == |Separators(text)| + 1
    ensures Rejoin(Split(text), Separators(text)) == text
    ensures forall k :: 0 <= k < |Separators(text)| ==> IsSpace(Separators(text)[k])
  {
    SplitFromRejoins(text, IsBoundary, 0, 0);
    BoundariesExact(text);
    SeparatorsAreSpaces(text, Boundaries(text));
  }

  /** One piece comes back exactly when the pattern matches nowhere, and that piece is the input. */
  lemma SplitSingle(text: string)
    ensures |Split(text)| == 1 <==> Boundaries(text) == []
    ensures Boundaries(text) == [] ==> Split(text) == [text]
  {
    SplitPieces(text);
    if Boundaries(text) == [] {
      assert PieceAt(text, 0, [], Split(text), 0);
      assert text[0..|text|] == text;
    }
  }

  /** Text in which no `.` or `?` is followed by whitespace is one sentence. */
  lemma NoTerminalNoSplit(text: string)
    requires forall i :: 1 <= i < |text| && IsSpace(text[i]) ==> !IsTerminal(text[i - 1])
    ensures Split(text) == [text]
  {
    SplitSingle(text);
    BoundariesFromNone(text, IsBoundary, 0);
  }

  /** Some `.` or `?` inside `s` is followed by whitespace: a place the pattern could match. */
  predicate HasInnerCandidate(s: string) {
    exists i :: 1 <= i < |s| && IsSpace(s[i]) && IsTerminal(s[i - 1])
  }

  /**
   * A sentence that the splitter ends where it should when another follows it:
   * at least four characters (so the look-behinds stay inside it), a final `.` or `?`
   * that is not part of an abbreviation, and no other place the pattern could match.
   */
  predicate EndsSentence(s: string) {
    && |s| >= 4
    && IsTerminal(s[|s| - 1])
    && !AfterDottedAbbreviation(s, |s|)
    && !AfterTitleAbbreviation(s, |s|)
  }

  predicate WellFormedSentences(ss: seq<string>) {
    && (forall k :: 0 <= k < |ss| ==> !HasInnerCandidate(ss[k]))
    && (forall k :: 0 <= k < |ss| - 1 ==> EndsSentence(ss[k]))
  }

  lemma {:induction false} SplitFromSkip(text: string, isBoundary: BoundaryTest, start: nat, i: nat, j: nat)
    requires start <= i <= j <= |text|
    requires forall p :: i <= p < j ==> !isBoundary(text, p)
    ensures SplitFrom(text, isBoundary, start, i) == SplitFrom(text, isBoundary, start, j)
    decreases j - i
  {
    if i < j {
      SplitFromSkip(text, isBoundary, start, i + 1, j);
    }
  }

  /** Where the first sentence of a space-joined list sits in `text`, and what follows it. */
  lemma JoinLayout(text: string, start: nat, ss: seq<string>)
    requires |ss| >= 1 && start <= |text| && text[start..] == JoinSpace(ss)
    ensures start + |ss[0]| <= |text|
    ensures text[start..start + |ss[0]|] == ss[0]
    ensures |ss| == 1 ==> start + |ss[0]| == |text|
    ensures |ss| > 1 ==>
      && start + |ss[0]| < |text|
      && text[start + |ss[0]|] == ' '
      && text[start + |ss[0]| + 1..] == JoinSpace(ss[1..])
  {
    var s, e := ss[0], start + |ss[0]|;
    if |ss| > 1 {
      var rest := JoinSpace(ss[1..]);
      assert text[start..] == s + " " + rest;
      assert text[start..][..|s|] == s;
      assert text[start..][|s|] == ' ';
      assert text[start..][|s| + 1..] == rest;
    }
  }

  /** No boundary falls inside a sentence without inner candidates, nor right at its start. */
  lemma NoBoundaryWithin(text: string, start: nat, s: string)
    requires start + |s| <= |text| && text[start..start + |s|] == s
    requires !HasInnerCandidate(s)
    requires start > 0 ==> text[start - 1] == ' '
    ensures forall p :: start <= p < start + |s| ==> !IsBoundary(text, p)
  {
    forall p | start <= p < start + |s|
      ensures !IsBoundary(text, p)
    {
      if p > start {
        assert text[p] == s[p - start] && text[p - 1] == s[p - start - 1];
        assert !(IsSpace(s[p - start]) && IsTerminal(s[p - start - 1]));
      }
    }
  }

  /** The space right after a sentence that ends one is a boundary. */
  lemma BoundaryAfter(text: string, start: nat, s: string)
    requires start + |s| < |text| && text[start..start + |s|] == s
    requires EndsSentence(s) && text[start + |s|] == ' '
    ensures IsBoundary(text, start + |s|)
  {
    var e := start + |s|;
    assert text[e - 4..e] == s[|s| - 4..];
    assert text[e - 1] == s[|s| - 1];
  }

  lemma {:induction false} SplitFromJoin(text: string, start: nat, ss: seq<string>)
    requires |ss| >= 1 && WellFormedSentences(ss)
    requires start <= |text| && text[start..] == JoinSpace(ss)
    requires start > 0 ==> text[start - 1] == ' '
    ensures SplitFrom(text, IsBoundary, start, start) == ss
    decreases |ss|
  {
    var s := ss[0];
    var e := start + |s|;
    JoinLayout(text, start, ss);
    NoBoundaryWithin(text, start, s);
    SplitFromSkip(text, IsBoundary, start, start, e);
    if |ss| > 1 {
      BoundaryAfter(text, start, s);
      assert WellFormedSentences(ss[1..]);
      SplitFromJoin(text, e + 1, ss[1..]);
      assert ss == [s] + ss[1..];
    }
  }

  /** Splitting well-formed sentences joined by single spaces gives the sentences back. */
  lemma SplitOfJoin(ss: seq<string>)
    requires |ss| >= 1 && WellFormedSentences(ss)
    ensures Split(JoinSpace(ss)) == ss
  {
    var text := JoinSpace(ss);
    assert text[0..] == text;
    SplitFromJoin(text, 0, ss);
  }
}
