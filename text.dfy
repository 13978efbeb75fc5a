/**
 * Character classes and the two string primitives the pipeline leans on:
 * Python's `str.split()` (no argument) and `" ".join(...)`.
 */
module TextOps {

  /** Python's `str.isspace()`; the same set is what `\s` matches in a str pattern. */
  predicate IsSpace(c: char) {
    || c == ' '
    || ('\t' <= c <= '\r')                 // \t \n \v \f \r
    || ('\U{1C}' <= c <= '\U{1F}')         // information separators
    || c == '\U{85}' || c == '\U{A0}' || c == '\U{1680}'
    || ('\U{2000}' <= c <= '\U{200A}')
    || c == '\U{2028}' || c == '\U{2029}' || c == '\U{202F}' || c == '\U{205F}' || c == '\U{3000}'
  }

  /** The upper-case letters of the splitter's abbreviation class: A-Z and İĞÜŞÖÇ. */
  predicate IsUpperLetter(c: char) {
    || ('A' <= c <= 'Z')
    || c == '\U{130}' || c == '\U{11E}' || c == '\U{DC}' || c == '\U{15E}' || c == '\U{D6}' || c == '\U{C7}'
  }

  /** The lower-case letters of the splitter's abbreviation class: a-z and ığüşöç. */
  predicate IsLowerLetter(c: char) {
    || ('a' <= c <= 'z')
    || c == '\U{131}' || c == '\U{11F}' || c == '\U{FC}' || c == '\U{15F}' || c == '\U{F6}' || c == '\U{E7}'
  }

  /** Python's `\w`, restricted to ASCII letters and digits, the underscore and the Turkish letters above. */
  predicate IsWordChar(c: char) {
    IsUpperLetter(c) || IsLowerLetter(c) || ('0' <= c <= '9') || c == '_'
  }

  /** `str.lower()` on one character: ASCII and the Turkish pairs ÇĞÖŞÜ. */
  function LowerChar(c: char): (d: char)
    ensures IsSpace(d) <==> IsSpace(c)
  {
    if 'A' <= c <= 'Z' then (c as int + 32) as char
    else if c == '\U{C7}' then '\U{E7}'
    else if c == '\U{D6}' then '\U{F6}'
    else if c == '\U{DC}' then '\U{FC}'
    else if c == '\U{11E}' then '\U{11F}'
    else if c == '\U{15E}' then '\U{15F}'
    else c
  }

  /** `str.upper()` (and the title case `str.capitalize` uses) on one character. */
  function UpperChar(c: char): (d: char)
    ensures IsSpace(d) <==> IsSpace(c)
  {
    if 'a' <= c <= 'z' then (c as int - 32) as char
    else if c == '\U{E7}' then '\U{C7}'
    else if c == '\U{F6}' then '\U{D6}'
    else if c == '\U{FC}' then '\U{DC}'
    else if c == '\U{11F}' then '\U{11E}'
    else if c == '\U{15F}' then '\U{15E}'
    else if c == '\U{131}' then 'I'
    else c
  }

  /** Both case maps are idempotent on the characters they cover. */
  lemma CaseMapsIdempotent(c: char)
    ensures LowerChar(LowerChar(c)) == LowerChar(c)
    ensures UpperChar(UpperChar(c)) == UpperChar(c)
  {
  }

  /** `str.lower()`. */
  function LowerStr(s: string): (r: string)
    ensures |r| == |s|
    ensures forall i :: 0 <= i < |s| ==> r[i] == LowerChar(s[i])
  {
    seq(|s|, i requires 0 <= i < |s| => LowerChar(s[i]))
  }

  /** A token of `str.split()`: non-empty and free of whitespace. */
  predicate IsWord(w: string) {
    |w| > 0 && forall i :: 0 <= i < |w| ==> !IsSpace(w[i])
  }

  /** Length of the run of non-whitespace characters that starts `s`. */
  function WordLength(s: string): (n: nat)
    ensures n <= |s|
    ensures forall i :: 0 <= i < n ==> !IsSpace(s[i])
    ensures n < |s| ==> IsSpace(s[n])
  {
    if s == [] || IsSpace(s[0]) then 0 else 1 + WordLength(s[1..])
  }

  /** `s.split()`: the maximal runs of non-whitespace characters, in order. */
  function Words(s: string): (ws: seq<string>)
    ensures forall k :: 0 <= k < |ws| ==> IsWord(ws[k])
    decreases |s|
  {
    if s == [] then []
    else if IsSpace(s[0]) then Words(s[1..])
    else
      var n := WordLength(s);
      [s[..n]] + Words(s[n..])
  }

  /** `" ".join(xs)`. */
  function JoinSpace(xs: seq<string>): string {
    if xs == [] then ""
    else if |xs| == 1 then xs[0]
    else xs[0] + " " + JoinSpace(xs[1..])
  }

  /** All characters of `s`, whitespace removed. */
  function NonSpace(s: string): (r: string)
    ensures forall i :: 0 <= i < |r| ==> !IsSpace(r[i])
  {
    if s == [] then []
    else if IsSpace(s[0]) then NonSpace(s[1..])
    else [s[0]] + NonSpace(s[1..])
  }

  function Concat(xs: seq<string>): string {
    if xs == [] then "" else xs[0] + Concat(xs[1..])
  }

  lemma {:induction false} NonSpaceAppend(a: string, b: string)
    ensures NonSpace(a + b) == NonSpace(a) + NonSpace(b)
    decreases |a|
  {
    if a == [] {
      assert a + b == b;
    } else {
      assert (a + b)[0] == a[0];
      assert (a + b)[1..] == a[1..] + b;
      NonSpaceAppend(a[1..], b);
    }
  }

  lemma {:induction false} NonSpaceOfWord(w: string)
    requires forall i :: 0 <= i < |w| ==> !IsSpace(w[i])
    ensures NonSpace(w) == w
    decreases |w|
  {
    if w != [] {
      NonSpaceOfWord(w[1..]);
    }
  }

  /** The tokens of `s`, concatenated, are exactly the non-whitespace characters of `s`. */
  lemma {:induction false} WordsCoverNonSpace(s: string)
    ensures Concat(Words(s)) == NonSpace(s)
    decreases |s|
  {
    if s == [] {
    } else if IsSpace(s[0]) {
      WordsCoverNonSpace(s[1..]);
    } else {
      var n := WordLength(s);
      assert s == s[..n] + s[n..];
      WordsCoverNonSpace(s[n..]);
      NonSpaceOfWord(s[..n]);
      NonSpaceAppend(s[..n], s[n..]);
      assert Words(s) == [s[..n]] + Words(s[n..]);
    }
  }

  lemma WordLengthOfWordThenSpace(w: string, rest: string)
    requires IsWord(w)
    ensures WordLength(w + rest) >= |w|
    ensures rest != [] && IsSpace(rest[0]) ==> WordLength(w + rest) == |w|
  {
    var s := w + rest;
    assert forall i :: 0 <= i < |w| ==> s[i] == w[i];
    assert rest != [] ==> s[|w|] == rest[0];
  }

  /** Splitting a space-joined list of tokens gives the tokens back. */
  lemma {:induction false} WordsOfJoin(xs: seq<string>)
    requires forall k :: 0 <= k < |xs| ==> IsWord(xs[k])
    ensures Words(JoinSpace(xs)) == xs
    decreases |xs|
  {
    if xs == [] {
    } else if |xs| == 1 {
      var w := xs[0];
      WordLengthOfWordThenSpace(w, []);
      assert w + [] == w;
      assert w[|w|..] == [];
    } else {
      var w, j := xs[0], JoinSpace(xs[1..]);
      var s := w + " " + j;
      assert s == w + (" " + j);
      WordLengthOfWordThenSpace(w, " " + j);
      assert s[..|w|] == w;
      assert s[|w|..] == " " + j;
      assert (" " + j)[1..] == j;
      WordsOfJoin(xs[1..]);
    }
  }

  lemma JoinCons(x: string, xs: seq<string>)
    requires xs != []
    ensures JoinSpace([x] + xs) == x + " " + JoinSpace(xs)
  {
    assert ([x] + xs)[1..] == xs;
  }

  lemma JoinTwo(a: string, b: string)
    ensures JoinSpace([a, b]) == a + " " + b
  {
    assert [a, b][1..] == [b];
  }

  lemma JoinThree(a: string, b: string, c: string)
    ensures JoinSpace([a, b, c]) == a + " " + b + " " + c
  {
    assert [a, b, c][1..] == [b, c];
    JoinTwo(b, c);
  }

  lemma JoinFour(a: string, b: string, c: string, d: string)
    ensures JoinSpace([a, b, c, d]) == a + " " + b + " " + c + " " + d
  {
    JoinThree(b, c, d);
    JoinCons(a, [b, c, d]);
    assert [a] + [b, c, d] == [a, b, c, d];
  }

  lemma JoinFive(a: string, b: string, c: string, d: string, e: string)
    ensures JoinSpace([a, b, c, d, e]) == a + " " + b + " " + c + " " + d + " " + e
  {
    JoinFour(b, c, d, e);
    JoinCons(a, [b, c, d, e]);
    assert [a] + [b, c, d, e] == [a, b, c, d, e];
  }
}
