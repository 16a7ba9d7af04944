/**
 * `toSentenceCase` of `src/utils/strings.ts`: lower-case the whole string,
 * then upper-case the first letter (after any leading white space) and every
 * letter that follows '.', '!' or '?' and at least one white-space character.
 */
module Strings {
  import opened Wrappers
  import opened Chars

  /** The punctuation that ends a sentence. */
  predicate IsSentenceEnd(c: char) {
    c == '.' || c == '!' || c == '?'
  }

  /** The end of the run of white space starting at `i`. */
  function SpaceRun(s: string, i: nat): (k: nat)
    requires i <= |s|
    ensures i <= k <= |s|
    ensures forall j :: i <= j < k ==> IsSpace(s[j])
    ensures k == |s| || !IsSpace(s[k])
    decreases |s| - i
  {
    if i < |s| && IsSpace(s[i]) then SpaceRun(s, i + 1) else i
  }

  /**
   * The match of `/(^\s*\p{L}|[.!?]\s+\p{L})/u` at `p`, as the index just past
   * it: `^` holds only at 0; in both alternatives the white-space run is
   * maximal, since a letter is never white space.
   */
  function MatchAt(s: string, p: nat): Option<nat>
    requires p < |s|
  {
    var lead := SpaceRun(s, 0);
    var after := SpaceRun(s, p + 1);
    if p == 0 && lead < |s| && IsLetter(s[lead]) then Some(lead + 1)
    else if IsSentenceEnd(s[p]) && after > p + 1 && after < |s| && IsLetter(s[after]) then Some(after + 1)
    else None
  }

  /** The global `replace` from `p` on, each match upper-cased and the scan resumed after it. */
  function CapitalizeFrom(s: string, p: nat): (r: string)
    requires p <= |s|
    ensures |r| == |s| - p
    decreases |s| - p
  {
    if p == |s| then []
    else
      var m := MatchAt(s, p);
      if m.Some? then
        assert p < m.value <= |s| by { assert m.value == SpaceRun(s, 0) + 1 || m.value == SpaceRun(s, p + 1) + 1; }
        UpperStr(s[p..m.value]) + CapitalizeFrom(s, m.value)
      else [s[p]] + CapitalizeFrom(s, p + 1)
  }

  /** `toSentenceCase`: the empty string is returned as it is; no case change alters the length. */
  function SentenceCase(str: string): (r: string)
    ensures |r| == |str|
  {
    if str == [] then str else CapitalizeFrom(LowerStr(str), 0)
  }

  // ------------------------------------------------------- reference reading

  /** The last index before `i` that is not white space, or -1. */
  function PrevNonSpace(s: string, i: nat): (j: int)
    requires i <= |s|
    ensures -1 <= j < i
    ensures j >= 0 ==> !IsSpace(s[j])
    ensures forall k :: j < k < i ==> IsSpace(s[k])
  {
    if i == 0 then -1
    else if !IsSpace(s[i - 1]) then i - 1
    else PrevNonSpace(s, i - 1)
  }

  /**
   * The letters sentence case capitalizes: a letter with nothing but white
   * space before it, or one whose previous non-space character ends a
   * sentence and is separated from it by white space.
   */
  predicate Capital(s: string, i: nat)
    requires i < |s|
  {
    var j := PrevNonSpace(s, i);
    IsLetter(s[i]) && (j == -1 || (IsSentenceEnd(s[j]) && j < i - 1))
  }

  /** The character sentence case puts at `i`. */
  function Expected(s: string, i: nat): char
    requires i < |s|
  {
    if Capital(s, i) then Upper(s[i]) else s[i]
  }

  /**
   * The scan may start at `p` without having missed a capital: the first
   * character after the white space at `p` is not a capital whose sentence
   * starts before `p`.
   */
  predicate Clean(s: string, p: nat)
    requires p <= |s|
  {
    var i := SpaceRun(s, p);
    p == 0 || i == |s| || !Capital(s, i) || PrevNonSpace(s, i) >= p
  }

  /** Sentence punctuation and white space have no case; punctuation is not white space. */
  lemma CaselessBeforeLetter(c: char)
    requires IsSentenceEnd(c) || IsSpace(c)
    ensures Upper(c) == c && !IsLetter(c)
    ensures IsSentenceEnd(c) ==> !IsSpace(c)
  {
  }

  /** A letter is neither white space nor sentence punctuation. */
  lemma LetterIsNoSeparator(c: char)
    requires IsLetter(c)
    ensures !IsSpace(c) && !IsSentenceEnd(c)
  {
  }

  /** Looking back for a non-space character skips a run of white space. */
  lemma {:induction false} PrevNonSpaceSkips(s: string, a: nat, i: nat)
    requires a <= i <= |s|
    requires forall k :: a <= k < i ==> IsSpace(s[k])
    ensures PrevNonSpace(s, i) == PrevNonSpace(s, a)
    decreases i - a
  {
    if a < i {
      PrevNonSpaceSkips(s, a, i - 1);
    }
  }

  /** One character of a match: upper-casing it gives the expected character. */
  lemma MatchedChar(s: string, p: nat, i: nat)
    requires p < |s| && MatchAt(s, p).Some?
    requires p <= i < MatchAt(s, p).value
    ensures i < |s| && Upper(s[i]) == Expected(s, i)
  {
    var e := MatchAt(s, p).value;
    var lead := SpaceRun(s, 0);
    var after := SpaceRun(s, p + 1);
    if p == 0 && lead < |s| && IsLetter(s[lead]) {
      assert e == lead + 1;
      if i < lead {
        CaselessBeforeLetter(s[i]);
      } else {
        PrevNonSpaceSkips(s, 0, i);
      }
    } else {
      assert e == after + 1 && IsSentenceEnd(s[p]);
      CaselessBeforeLetter(s[p]);
      if i < after {
        CaselessBeforeLetter(s[i]);
      } else {
        PrevNonSpaceSkips(s, p + 1, i);
      }
    }
  }

  /** A position where nothing matches keeps its character. */
  lemma NoMatchKeeps(s: string, p: nat)
    requires p < |s| && Clean(s, p) && MatchAt(s, p).None?
    ensures !Capital(s, p)
  {
    assert IsLetter(s[p]) ==> SpaceRun(s, p) == p;
  }

  /** After a position where nothing matches, the scan is still clean. */
  lemma NoMatchClean(s: string, p: nat)
    requires p < |s| && Clean(s, p) && MatchAt(s, p).None?
    ensures Clean(s, p + 1)
  {
    var i := SpaceRun(s, p + 1);
    PrevNonSpaceSkips(s, p + 1, i);
    assert IsSpace(s[p]) ==> SpaceRun(s, p) == i;
  }

  /** After a match the scan is clean: the match ends in a letter. */
  lemma MatchClean(s: string, p: nat)
    requires p < |s| && MatchAt(s, p).Some?
    ensures var e := MatchAt(s, p).value; e <= |s| && Clean(s, e)
  {
    var e := MatchAt(s, p).value;
    assert IsLetter(s[e - 1]) by {
      assert e == SpaceRun(s, 0) + 1 || e == SpaceRun(s, p + 1) + 1;
    }
    LetterIsNoSeparator(s[e - 1]);
    var i := SpaceRun(s, e);
    PrevNonSpaceSkips(s, e, i);
  }

  /** The expected characters from `p` on. */
  function ExpectedFrom(s: string, p: nat): string
    requires p <= |s|
    decreases |s| - p
  {
    if p == |s| then [] else [Expected(s, p)] + ExpectedFrom(s, p + 1)
  }

  /** `ExpectedFrom` lists `Expected` position by position. */
  lemma {:induction false} ExpectedFromIndex(s: string, p: nat)
    requires p <= |s|
    ensures |ExpectedFrom(s, p)| == |s| - p
    ensures forall k :: 0 <= k < |s| - p ==> ExpectedFrom(s, p)[k] == Expected(s, p + k)
    decreases |s| - p
  {
    if p < |s| {
      ExpectedFromIndex(s, p + 1);
      var r, tail := ExpectedFrom(s, p), ExpectedFrom(s, p + 1);
      forall k | 0 < k < |s| - p ensures r[k] == Expected(s, p + k) {
        assert r[k] == tail[k - 1];
      }
    }
  }

  /** Upper-casing a stretch of characters whose expected form is their upper case. */
  lemma UpperStretch(s: string, p: nat, e: nat)
    requires p <= e <= |s|
    requires forall i :: p <= i < e ==> Upper(s[i]) == Expected(s, i)
    ensures UpperStr(s[p..e]) + ExpectedFrom(s, e) == ExpectedFrom(s, p)
  {
    ExpectedFromIndex(s, p);
    ExpectedFromIndex(s, e);
    var u, rest, whole := UpperStr(s[p..e]), ExpectedFrom(s, e), ExpectedFrom(s, p);
    var joined := u + rest;
    forall k | 0 <= k < |whole| ensures joined[k] == whole[k] {
      if k < e - p {
        assert joined[k] == u[k] == Upper(s[p..e][k]);
      } else {
        assert joined[k] == rest[k - (e - p)];
      }
    }
  }

  /** The scan from a clean position produces exactly the expected characters. */
  lemma {:induction false} CapitalizeFromExpected(s: string, p: nat)
    requires p <= |s| && Clean(s, p)
    ensures CapitalizeFrom(s, p) == ExpectedFrom(s, p)
    decreases |s| - p, 1
  {
    if p < |s| {
      if MatchAt(s, p).Some? {
        ExpectedAfterMatch(s, p);
      } else {
        ExpectedAfterKeep(s, p);
      }
    }
  }

  /** The induction step where the scan upper-cases a match. */
  lemma {:induction false} ExpectedAfterMatch(s: string, p: nat)
    requires p < |s| && MatchAt(s, p).Some?
    ensures CapitalizeFrom(s, p) == ExpectedFrom(s, p)
    decreases |s| - p, 0
  {
    MatchStep(s, p);
    CapitalizeFromExpected(s, MatchAt(s, p).value);
  }

  /** The induction step where the scan keeps a character. */
  lemma {:induction false} ExpectedAfterKeep(s: string, p: nat)
    requires p < |s| && Clean(s, p) && MatchAt(s, p).None?
    ensures CapitalizeFrom(s, p) == ExpectedFrom(s, p)
    decreases |s| - p, 0
  {
    KeepStep(s, p);
    CapitalizeFromExpected(s, p + 1);
  }

  /** Where a match is upper-cased, it becomes the expected characters and the scan goes on cleanly. */
  lemma MatchStep(s: string, p: nat)
    requires p < |s| && MatchAt(s, p).Some?
    ensures var e := MatchAt(s, p).value;
      p < e <= |s| && Clean(s, e) && UpperStr(s[p..e]) + ExpectedFrom(s, e) == ExpectedFrom(s, p)
  {
    var e := MatchAt(s, p).value;
    MatchClean(s, p);
    forall i | p <= i < e ensures Upper(s[i]) == Expected(s, i) {
      MatchedChar(s, p, i);
    }
    UpperStretch(s, p, e);
  }

  /** Where nothing matches the scan keeps the expected character and goes on cleanly. */
  lemma KeepStep(s: string, p: nat)
    requires p < |s| && Clean(s, p) && MatchAt(s, p).None?
    ensures Expected(s, p) == s[p] && Clean(s, p + 1)
  {
    NoMatchKeeps(s, p);
    NoMatchClean(s, p);
  }

  /**
   * Sentence case keeps the length and, character by character, lower-cases
   * everything but the capitals, which it upper-cases.
   */
  lemma SentenceCasePointwise(str: string)
    ensures |SentenceCase(str)| == |str|
    ensures forall i :: 0 <= i < |str| ==>
      SentenceCase(str)[i] == Expected(LowerStr(str), i)
  {
    if str != [] {
      CapitalizeFromExpected(LowerStr(str), 0);
      ExpectedFromIndex(LowerStr(str), 0);
      assert forall i :: 0 <= i < |str| ==> SentenceCase(str)[i] == Expected(LowerStr(str), 0 + i);
    }
  }

  /** A letter straight after '.', '!' or '?' is not capitalized: the pattern needs white space between. */
  lemma NoSpaceNoCapital(str: string, i: nat)
    requires 0 < i < |str| && IsSentenceEnd(str[i - 1])
    ensures SentenceCase(str)[i] == Lower(str[i])
  {
    SentenceCasePointwise(str);
    var s := LowerStr(str);
    CaselessBeforeLetter(str[i - 1]);
    CaseMappingKeepsLetters(str[i - 1]);
    assert PrevNonSpace(s, i) == i - 1;
  }

  /** Two strings with white space at the same places look back to the same non-space character. */
  lemma {:induction false} PrevNonSpaceAgrees(s: string, t: string, i: nat)
    requires |s| == |t| && i <= |s|
    requires forall k :: 0 <= k < |s| ==> IsSpace(s[k]) == IsSpace(t[k])
    ensures PrevNonSpace(s, i) == PrevNonSpace(t, i)
    decreases i
  {
    if i > 0 {
      PrevNonSpaceAgrees(s, t, i - 1);
    }
  }

  /** Whether a letter is capitalized depends only on where the letters, white space and sentence ends are. */
  lemma CapitalsAgree(s: string, t: string, i: nat)
    requires |s| == |t| && i < |s|
    requires forall k :: 0 <= k < |s| ==> IsSpace(s[k]) == IsSpace(t[k]) && IsSentenceEnd(s[k]) == IsSentenceEnd(t[k])
    requires IsLetter(s[i]) == IsLetter(t[i])
    ensures Capital(s, i) == Capital(t, i)
  {
    PrevNonSpaceAgrees(s, t, i);
  }

  /**
   * Sentence-casing twice is sentence-casing once. Lower-casing the result
   * gives back the lower-cased text, except that a capital may come back as
   * another letter with the same capital (ı becomes I and then i).
   */
  lemma SentenceCaseIdempotent(str: string)
    ensures SentenceCase(SentenceCase(str)) == SentenceCase(str)
  {
    if str != [] {
      var once := SentenceCase(str);
      SentenceCasePointwise(str);
      SentenceCasePointwise(once);
      var s := LowerStr(str);
      var t := LowerStr(once);
      forall k | 0 <= k < |s|
        ensures IsSpace(s[k]) == IsSpace(t[k]) && IsSentenceEnd(s[k]) == IsSentenceEnd(t[k])
        ensures IsLetter(s[k]) == IsLetter(t[k])
        ensures if Capital(s, k) then Upper(t[k]) == Upper(s[k]) else t[k] == s[k]
      {
        LowerIdempotent(str[k]);
        CapitalIsStable(str[k]);
        CaseMappingKeepsLetters(s[k]);
        CaseMappingKeepsLetters(Upper(s[k]));
        if IsLetter(s[k]) {
          LetterIsNoSeparator(s[k]);
          LetterIsNoSeparator(t[k]);
        }
      }
      forall i | 0 <= i < |str| ensures SentenceCase(once)[i] == once[i] {
        CapitalsAgree(s, t, i);
      }
    }
  }
}
