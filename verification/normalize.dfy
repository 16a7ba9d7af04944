/**
 * The Normalizer of `src/utils/lookup.ts`: Chinese character-variant
 * substitution (`normalizeHanzi`), the Pali cleaning shared by both Pali
 * paths (`cleanPaliWord`) and the dot-below spelling used only against the
 * inflection and deconstructor tables (`normalizeDpdWord`).
 */
module Normalize {
  import opened Chars
  import opened Text

  /** `normalizeHanzi`: each character replaced by its variant-table image, if it has one. */
  function NormalizeHanzi(text: string, variants: map<char, char>): (r: string)
    ensures |r| == |text|
    ensures forall i :: 0 <= i < |text| ==>
      r[i] == (if text[i] in variants then variants[text[i]] else text[i])
  {
    if text == [] then []
    else [if text[0] in variants then variants[text[0]] else text[0]] + NormalizeHanzi(text[1..], variants)
  }

  /** The marks the first `replace` of `cleanPaliWord` deletes. */
  const Punctuation: set<char> := {
    '~', '`', '!', '@', '#', '$', '%', '^', '&', '*', '(', ')', '{', '}', '[', ']',
    ';', ':', '"', '\'', '<', ',', '.', '>', '?', '/', '\\', '|', '-', '_', '+', '=',
    '\U{201C}', '\U{201D}', '\U{2018}', '\U{2019}', '\U{2014}'
  }

  const SoftHyphen: char := '\U{00AD}'
  const SyllableBreak: char := '\U{2027}'

  /** Niggahita with dot above (ṁ), with dot below (ṃ), and velar nasal (ṅ). */
  const NiggahitaAbove: char := '\U{1E41}'
  const NiggahitaBelow: char := '\U{1E43}'
  const VelarNasal: char := '\U{1E45}'

  /** A character that survives `cleanPaliWord`. */
  predicate IsClean(c: char) {
    c !in Punctuation && c != SoftHyphen && c != SyllableBreak && Lower(c) == c
  }

  /**
   * `cleanPaliWord`: delete punctuation, lower-case, trim, delete soft
   * hyphens and syllable breakers, then spell ṁ before g and k as ṅ.
   * Every stage deletes or replaces characters one for one, so the word
   * never grows.
   */
  function CleanPaliWord(word: string): (r: string)
    ensures |r| <= |word|
  {
    var a := RemoveAll(word, Punctuation);
    var b := Trim(LowerStr(a));
    var d := RemoveAll(RemoveAll(b, {SoftHyphen}), {SyllableBreak});
    var e := ReplaceAll(d, [NiggahitaAbove, 'g'], [VelarNasal, 'g']);
    ReplaceAll(e, [NiggahitaAbove, 'k'], [VelarNasal, 'k'])
  }

  /** A word of nothing but punctuation and white space cleans to the empty string. */
  lemma BlankCleansToEmpty(word: string)
    requires forall c :: c in word ==> c in Punctuation || IsSpace(c)
    ensures CleanPaliWord(word) == []
  {
    var a := RemoveAll(word, Punctuation);
    RemoveAllMembers(word, Punctuation);
    var l := LowerStr(a);
    forall i | 0 <= i < |l| ensures IsSpace(l[i]) {
      assert a[i] in a;
      SpaceIsCaseless(a[i]);
    }
    TrimBlank(l);
    CleanFromStages(word, [], []);
  }

  /**
   * What `cleanPaliWord` guarantees: no listed punctuation, soft hyphen or
   * syllable breaker, only lower-case characters, and no ṁ before g or k.
   */
  lemma CleanPaliWordIsClean(word: string)
    ensures forall c :: c in CleanPaliWord(word) ==> IsClean(c)
    ensures !Contains(CleanPaliWord(word), [NiggahitaAbove, 'g'])
    ensures !Contains(CleanPaliWord(word), [NiggahitaAbove, 'k'])
  {
    var a := RemoveAll(word, Punctuation);
    var b := Trim(LowerStr(a));
    var d := RemoveAll(RemoveAll(b, {SoftHyphen}), {SyllableBreak});
    var e := ReplaceAll(d, [NiggahitaAbove, 'g'], [VelarNasal, 'g']);
    var r := ReplaceAll(e, [NiggahitaAbove, 'k'], [VelarNasal, 'k']);
    assert r == CleanPaliWord(word);
    RemoveAllMembers(word, Punctuation);
    LowerKeepsNonPunctuation(a);
    TrimChars(LowerStr(a));
    var b1 := RemoveAll(b, {SoftHyphen});
    RemoveAllMembers(b, {SoftHyphen});
    RemoveAllMembers(b1, {SyllableBreak});
    assert forall c :: c in b ==> c !in Punctuation && Lower(c) == c;
    assert forall c :: c in b1 ==> c in b && c != SoftHyphen;
    assert forall c :: c in d ==> c in b1 && c != SyllableBreak;
    assert forall c :: c in d ==> IsClean(c);
    VelarNasalIsClean();
    ReplacePairChars(d, NiggahitaAbove, 'g', VelarNasal);
    ReplacePairChars(e, NiggahitaAbove, 'k', VelarNasal);
    ReplacePairRemovesPair(d, NiggahitaAbove, 'g', VelarNasal);
    ReplacePairRemovesPair(e, NiggahitaAbove, 'k', VelarNasal);
    ReplacingKeepsPairAbsent(e, r);
  }

  lemma VelarNasalIsClean()
    ensures IsClean(VelarNasal)
  {
  }

  lemma PunctuationIsNotLetter(c: char)
    requires c in Punctuation
    ensures !IsLetter(c)
  {
  }

  /** Lower-casing a punctuation-free string gives lower-case, punctuation-free characters. */
  lemma LowerKeepsNonPunctuation(a: string)
    requires forall c :: c in a ==> c !in Punctuation
    ensures forall c :: c in LowerStr(a) ==> c !in Punctuation && Lower(c) == c
  {
    var l := LowerStr(a);
    forall c | c in l ensures c !in Punctuation && Lower(c) == c {
      var i :| 0 <= i < |l| && l[i] == c;
      LowerIdempotent(a[i]);
      assert a[i] in a;
      CaseMappingKeepsLetters(a[i]);
      if c in Punctuation {
        PunctuationIsNotLetter(c);
      }
    }
  }

  /** Turning some ṁ of "ṁk" into ṅ cannot create a "ṁg". */
  lemma ReplacingKeepsPairAbsent(e: string, r: string)
    requires r == ReplaceAll(e, [NiggahitaAbove, 'k'], [VelarNasal, 'k'])
    requires !Contains(e, [NiggahitaAbove, 'g'])
    ensures !Contains(r, [NiggahitaAbove, 'g'])
  {
    ReplacePairPointwise(e, NiggahitaAbove, 'k', VelarNasal);
    ContainsIffOccurs(e, [NiggahitaAbove, 'g']);
    ContainsIffOccurs(r, [NiggahitaAbove, 'g']);
  }

  /** `normalizeDpdWord`: drop straight quotes and write ṁ as ṃ (the inflection tables' spelling). */
  function NormalizeDpdWord(word: string): (r: string)
    ensures |r| <= |word|
    ensures NiggahitaAbove !in r && '\'' !in r && '"' !in r
    ensures '\'' !in word && '"' !in word ==>
      |r| == |word| && forall i :: 0 <= i < |word| ==> r[i] == if word[i] == NiggahitaAbove then NiggahitaBelow else word[i]
  {
    var q := RemoveAll(word, {'\'', '"'});
    RemoveAllMembers(word, {'\'', '"'});
    ReplaceCharPointwise(q, NiggahitaAbove, NiggahitaBelow);
    QuoteFreeKept(word);
    ReplaceAll(q, [NiggahitaAbove], [NiggahitaBelow])
  }

  lemma QuoteFreeKept(word: string)
    ensures '\'' !in word && '"' !in word ==> RemoveAll(word, {'\'', '"'}) == word
  {
    if '\'' !in word && '"' !in word {
      RemoveAllAbsent(word, {'\'', '"'});
    }
  }

  /** `normalizeDpdWord` works character by character: the result for a concatenation is the concatenation of the results. */
  lemma NormalizeDpdWordAppend(a: string, b: string)
    ensures NormalizeDpdWord(a + b) == NormalizeDpdWord(a) + NormalizeDpdWord(b)
  {
    var qa, qb := RemoveAll(a, {'\'', '"'}), RemoveAll(b, {'\'', '"'});
    RemoveAllAppend(a, b, {'\'', '"'});
    ReplaceCharPointwise(qa, NiggahitaAbove, NiggahitaBelow);
    ReplaceCharPointwise(qb, NiggahitaAbove, NiggahitaBelow);
    ReplaceCharPointwise(qa + qb, NiggahitaAbove, NiggahitaBelow);
  }

  /** On one character: a straight quote is deleted, ṁ becomes ṃ, and anything else is kept. */
  lemma NormalizeDpdWordChar(c: char)
    ensures NormalizeDpdWord([c]) ==
      if c == '\'' || c == '"' then [] else if c == NiggahitaAbove then [NiggahitaBelow] else [c]
  {
    RemoveAllChar(c, {'\'', '"'});
    ReplaceCharPointwise(RemoveAll([c], {'\'', '"'}), NiggahitaAbove, NiggahitaBelow);
  }

  /** Removing characters a string does not hold changes nothing. */
  lemma {:induction false} RemoveAllAbsent(s: string, cs: set<char>)
    requires forall c :: c in s ==> c !in cs
    ensures RemoveAll(s, cs) == s
    decreases |s|
  {
    if s != [] {
      assert s[0] in s;
      forall c | c in s[1..] ensures c !in cs { assert c in s; }
      RemoveAllAbsent(s[1..], cs);
    }
  }

  /** A clean word without outer white space and without "ṁg"/"ṁk" is left unchanged by cleaning. */
  lemma CleanPaliWordFixedPoint(r: string)
    requires forall c :: c in r ==> IsClean(c)
    requires NoOuterSpace(r)
    requires !Contains(r, [NiggahitaAbove, 'g']) && !Contains(r, [NiggahitaAbove, 'k'])
    ensures CleanPaliWord(r) == r
  {
    CleanCharsAreNotBreaks(r);
    FirstStagesFixed(r);
    LastStagesFixed(r);
  }

  lemma CleanCharsAreNotBreaks(r: string)
    requires forall c :: c in r ==> IsClean(c)
    ensures SoftHyphen !in r && SyllableBreak !in r
  {
    assert !IsClean(SoftHyphen) && !IsClean(SyllableBreak);
  }

  lemma FirstStagesFixed(r: string)
    requires forall c :: c in r ==> IsClean(c)
    requires NoOuterSpace(r)
    ensures Trim(LowerStr(RemoveAll(r, Punctuation))) == r
  {
    RemoveAllAbsent(r, Punctuation);
    forall i | 0 <= i < |r| ensures Lower(r[i]) == r[i] {
      assert r[i] in r;
    }
    LowerStrFixed(r);
    TrimFixed(r);
  }

  lemma LastStagesFixed(r: string)
    requires SoftHyphen !in r && SyllableBreak !in r
    requires !Contains(r, [NiggahitaAbove, 'g']) && !Contains(r, [NiggahitaAbove, 'k'])
    ensures RemoveAll(RemoveAll(r, {SoftHyphen}), {SyllableBreak}) == r
    ensures ReplaceAll(r, [NiggahitaAbove, 'g'], [VelarNasal, 'g']) == r
    ensures ReplaceAll(r, [NiggahitaAbove, 'k'], [VelarNasal, 'k']) == r
  {
    RemoveAllAbsent(r, {SoftHyphen});
    RemoveAllAbsent(r, {SyllableBreak});
    ReplaceAllAbsent(r, [NiggahitaAbove, 'g'], [VelarNasal, 'g']);
    ReplaceAllAbsent(r, [NiggahitaAbove, 'k'], [VelarNasal, 'k']);
  }

  /**
   * Cleaning is idempotent on words without soft hyphens or syllable breakers.
   * It is not idempotent in general: see `CleanPaliWordNotIdempotent`.
   */
  lemma CleanPaliWordIdempotent(word: string)
    requires SoftHyphen !in word && SyllableBreak !in word
    ensures CleanPaliWord(CleanPaliWord(word)) == CleanPaliWord(word)
  {
    CleanOutputIsTrimmed(word);
    CleanPaliWordIsClean(word);
    CleanPaliWordFixedPoint(CleanPaliWord(word));
  }

  /** Without break marks, nothing removed after `trim` can expose white space. */
  lemma CleanOutputIsTrimmed(word: string)
    requires SoftHyphen !in word && SyllableBreak !in word
    ensures NoOuterSpace(CleanPaliWord(word))
  {
    var b := Trim(LowerStr(RemoveAll(word, Punctuation)));
    NoBreakMarksAfterTrim(word);
    RemoveAllAbsent(b, {SoftHyphen});
    RemoveAllAbsent(b, {SyllableBreak});
    var e := ReplaceAll(b, [NiggahitaAbove, 'g'], [VelarNasal, 'g']);
    var r := ReplaceAll(e, [NiggahitaAbove, 'k'], [VelarNasal, 'k']);
    assert r == CleanPaliWord(word);
    NoOuterSpaceAfterReplacing(b, e, r);
  }

  lemma NoBreakMarksAfterTrim(word: string)
    requires SoftHyphen !in word && SyllableBreak !in word
    ensures var b := Trim(LowerStr(RemoveAll(word, Punctuation)));
      SoftHyphen !in b && SyllableBreak !in b
  {
    var a := RemoveAll(word, Punctuation);
    RemoveAllMembers(word, Punctuation);
    assert SoftHyphen !in a && SyllableBreak !in a;
    LowerKeepsBreakMarksOut(a);
    TrimChars(LowerStr(a));
  }

  lemma LowerKeepsBreakMarksOut(a: string)
    requires SoftHyphen !in a && SyllableBreak !in a
    ensures SoftHyphen !in LowerStr(a) && SyllableBreak !in LowerStr(a)
  {
    var l := LowerStr(a);
    assert !IsLetter(SoftHyphen) && !IsLetter(SyllableBreak);
    forall i | 0 <= i < |l| ensures l[i] != SoftHyphen && l[i] != SyllableBreak {
      assert a[i] in a;
      CaseMappingKeepsLetters(a[i]);
    }
  }

  lemma NoOuterSpaceAfterReplacing(b: string, e: string, r: string)
    requires NoOuterSpace(b)
    requires e == ReplaceAll(b, [NiggahitaAbove, 'g'], [VelarNasal, 'g'])
    requires r == ReplaceAll(e, [NiggahitaAbove, 'k'], [VelarNasal, 'k'])
    ensures NoOuterSpace(r)
  {
    ReplacePairPointwise(b, NiggahitaAbove, 'g', VelarNasal);
    ReplacePairPointwise(e, NiggahitaAbove, 'k', VelarNasal);
    assert !IsSpace(VelarNasal);
    if r != [] {
      assert |r| == |e| == |b|;
      assert e[0] == b[0] || e[0] == VelarNasal;
      assert r[0] == e[0] || r[0] == VelarNasal;
      assert e[|e| - 1] == b[|b| - 1];
      assert r[|r| - 1] == e[|e| - 1];
    }
  }

  /**
   * `trim` runs before soft hyphens are removed, so white space next to one
   * survives the first cleaning and is trimmed by the second: cleaning a soft
   * hyphen, a space and "a" gives " a", and cleaning that gives "a".
   */
  lemma CleanPaliWordNotIdempotent(w: string)
    requires |w| == 3 && w[0] == SoftHyphen && w[1] == ' ' && w[2] == 'a'
    ensures CleanPaliWord(w) == w[1..]
    ensures CleanPaliWord(w[1..]) == w[2..]
    ensures CleanPaliWord(CleanPaliWord(w)) != CleanPaliWord(w)
  {
    CleanSoftHyphenSpaceA(w);
    CleanSpaceA(w[1..]);
    assert |w[2..]| < |w[1..]|;
  }

  lemma CleanSoftHyphenSpaceA(w: string)
    requires |w| == 3 && w[0] == SoftHyphen && w[1] == ' ' && w[2] == 'a'
    ensures CleanPaliWord(w) == w[1..]
  {
    SoftHyphenFirstStages(w);
    SoftHyphenRemoval(w);
    NoNasalPair(w[1..]);
    CleanFromStages(w, w, w[1..]);
  }

  lemma CleanSpaceA(v: string)
    requires |v| == 2 && v[0] == ' ' && v[1] == 'a'
    ensures CleanPaliWord(v) == v[1..]
  {
    SpaceAFirstStages(v);
    SpaceARemoval(v[1..]);
    NoNasalPair(v[1..]);
    CleanFromStages(v, v[1..], v[1..]);
  }

  /** `cleanPaliWord` read stage by stage. */
  lemma CleanFromStages(w: string, b: string, d: string)
    requires Trim(LowerStr(RemoveAll(w, Punctuation))) == b
    requires RemoveAll(RemoveAll(b, {SoftHyphen}), {SyllableBreak}) == d
    requires ReplaceAll(d, [NiggahitaAbove, 'g'], [VelarNasal, 'g']) == d
    requires ReplaceAll(d, [NiggahitaAbove, 'k'], [VelarNasal, 'k']) == d
    ensures CleanPaliWord(w) == d
  {
  }

  lemma NoNasalPair(d: string)
    requires NiggahitaAbove !in d
    ensures ReplaceAll(d, [NiggahitaAbove, 'g'], [VelarNasal, 'g']) == d
    ensures ReplaceAll(d, [NiggahitaAbove, 'k'], [VelarNasal, 'k']) == d
  {
    ReplaceAllWithoutHead(d, [NiggahitaAbove, 'g'], [VelarNasal, 'g']);
    ReplaceAllWithoutHead(d, [NiggahitaAbove, 'k'], [VelarNasal, 'k']);
  }

  /** Punctuation removal, lower-casing and trimming leave a soft hyphen, a space and "a" alone. */
  lemma SoftHyphenFirstStages(w: string)
    requires |w| == 3 && w[0] == SoftHyphen && w[1] == ' ' && w[2] == 'a'
    ensures Trim(LowerStr(RemoveAll(w, Punctuation))) == w
  {
    NoPunctuationIn(w);
    LowerCaseAlready(w);
    SoftHyphenIsNotSpace(w);
    TrimFixed(w);
  }

  lemma SoftHyphenIsNotSpace(w: string)
    requires |w| == 3 && w[0] == SoftHyphen && w[2] == 'a'
    ensures NoOuterSpace(w)
  {
  }

  lemma NoPunctuationIn(w: string)
    requires forall i :: 0 <= i < |w| ==> w[i] == SoftHyphen || w[i] == ' ' || w[i] == 'a'
    ensures RemoveAll(w, Punctuation) == w
  {
    assert SoftHyphen !in Punctuation && ' ' !in Punctuation && 'a' !in Punctuation;
    forall c | c in w ensures c !in Punctuation {
      var i :| 0 <= i < |w| && w[i] == c;
      assert c == SoftHyphen || c == ' ' || c == 'a';
    }
    RemoveAllAbsent(w, Punctuation);
  }

  lemma LowerCaseAlready(w: string)
    requires forall i :: 0 <= i < |w| ==> w[i] == SoftHyphen || w[i] == ' ' || w[i] == 'a'
    ensures LowerStr(w) == w
  {
    assert Lower(SoftHyphen) == SoftHyphen && Lower(' ') == ' ' && Lower('a') == 'a';
    LowerStrFixed(w);
  }

  /** Removing the break marks from a soft hyphen, a space and "a" leaves " a". */
  lemma SoftHyphenRemoval(w: string)
    requires |w| == 3 && w[0] == SoftHyphen && w[1] == ' ' && w[2] == 'a'
    ensures RemoveAll(RemoveAll(w, {SoftHyphen}), {SyllableBreak}) == w[1..]
  {
    var v := w[1..];
    assert forall c :: c in v ==> c == w[1] || c == w[2];
    assert RemoveAll(w, {SoftHyphen}) == RemoveAll(v, {SoftHyphen});
    RemoveAllAbsent(v, {SoftHyphen});
    RemoveAllAbsent(v, {SyllableBreak});
  }

  /** Punctuation removal, lower-casing and trimming turn " a" into "a". */
  lemma SpaceAFirstStages(v: string)
    requires |v| == 2 && v[0] == ' ' && v[1] == 'a'
    ensures Trim(LowerStr(RemoveAll(v, Punctuation))) == v[1..]
  {
    NoPunctuationIn(v);
    LowerCaseAlready(v);
    TrimLeadingSpace(v);
  }

  lemma TrimLeadingSpace(v: string)
    requires |v| == 2 && IsSpace(v[0]) && !IsSpace(v[1])
    ensures Trim(v) == v[1..]
  {
    assert TrimStart(v[1..]) == v[1..];
    assert TrimStart(v) == v[1..];
  }

  /** "a" holds no break mark. */
  lemma SpaceARemoval(a: string)
    requires a == ['a']
    ensures RemoveAll(RemoveAll(a, {SoftHyphen}), {SyllableBreak}) == a
  {
    RemoveAllAbsent(a, {SoftHyphen});
    RemoveAllAbsent(a, {SyllableBreak});
  }
}
