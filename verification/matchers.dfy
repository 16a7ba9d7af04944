/**
 * The Suffix Rule Matcher, the Orthographic Variant Expander and the
 * longest-prefix probe of `src/utils/lookup.ts`: `exactMatch`, `fuzzyMatch`,
 * `matchComplete` and `matchPartial`.
 *
 * Each loop of the source is a method whose postcondition equates its result
 * with a recursive specification function; the lemmas below state what those
 * functions mean (first hit in table order, longest prefix, and so on).
 */
module Matchers {
  import opened Wrappers
  import opened Text
  import opened LookupTypes

  // ---------------------------------------------------------------- exactMatch

  /** `exactMatch`: the word itself, when it is a key. */
  function ExactMatch(word: string, dict: Dict): (r: Option<Match>)
    ensures r.Some? <==> word in dict
    ensures r.Some? ==> r.value.base == word && IsDictHit(r.value, dict)
  {
    if word in dict then Some(Hit(word, dict[word])) else None
  }

  // ---------------------------------------------------------------- fuzzyMatch

  /** The rule's test: the word is longer than `minLen` and its tail equals the ending. */
  predicate RuleFires(word: string, rule: EndingRule) {
    |word| > rule.minLen && JsSubstring(word, |word| - |rule.ending|, |word|) == rule.ending
  }

  /** The candidate stem: the word without its ending, keeping `keepChars` of it, plus the replacement. */
  function Stem(word: string, rule: EndingRule): string {
    JsSubstring(word, 0, |word| - |rule.ending| + rule.keepChars) + rule.replacement
  }

  /** The rule fires and its stem is a key. */
  predicate RuleHits(word: string, dict: Dict, rule: EndingRule) {
    RuleFires(word, rule) && Stem(word, rule) in dict
  }

  /** The `substring` comparison of the source is exactly a suffix test. */
  lemma RuleFiresIffSuffix(word: string, rule: EndingRule)
    ensures RuleFires(word, rule) <==> |word| > rule.minLen && EndsWith(word, rule.ending)
  {
    if |rule.ending| > |word| {
      assert |JsSubstring(word, |word| - |rule.ending|, |word|)| == |word|;
    }
  }

  /** The first rule, in table order, that fires and whose stem is a key. */
  function Fuzzy(word: string, dict: Dict, rules: seq<EndingRule>): (r: Option<Match>)
    ensures r.Some? ==> IsDictHit(r.value, dict) && r.value == Hit(r.value.base, dict[r.value.base])
    decreases |rules|
  {
    if rules == [] then None
    else if RuleHits(word, dict, rules[0]) then Some(Hit(Stem(word, rules[0]), dict[Stem(word, rules[0])]))
    else Fuzzy(word, dict, rules[1..])
  }

  /** `fuzzyMatch`: the rule loop with its early return. */
  method FuzzyMatch(word: string, dict: Dict, rules: seq<EndingRule>) returns (r: Option<Match>)
    ensures r == Fuzzy(word, dict, rules)
  {
    var i := 0;
    while i < |rules|
      invariant 0 <= i <= |rules|
      invariant Fuzzy(word, dict, rules[i..]) == Fuzzy(word, dict, rules)
    {
      var rule := rules[i];
      assert rules[i..][0] == rule && rules[i..][1..] == rules[i + 1..];
      if |word| > rule.minLen && JsSubstring(word, |word| - |rule.ending|, |word|) == rule.ending {
        var stem := JsSubstring(word, 0, |word| - |rule.ending| + rule.keepChars) + rule.replacement;
        if stem in dict {
          return Some(Hit(stem, dict[stem]));
        }
      }
      i := i + 1;
    }
    return None;
  }

  /** A rule whose stem is absent does not stop the scan: the first rule that hits decides. */
  lemma {:induction false} FuzzyPicksFirstHit(word: string, dict: Dict, rules: seq<EndingRule>, k: nat)
    requires k < |rules| && RuleHits(word, dict, rules[k])
    requires forall j :: 0 <= j < k ==> !RuleHits(word, dict, rules[j])
    ensures Fuzzy(word, dict, rules) == Some(Hit(Stem(word, rules[k]), dict[Stem(word, rules[k])]))
    decreases k
  {
    if k > 0 {
      assert !RuleHits(word, dict, rules[0]);
      FuzzyPicksFirstHit(word, dict, rules[1..], k - 1);
    }
  }

  /** No result exactly when no rule hits. */
  lemma {:induction false} FuzzyNoneIffNoHit(word: string, dict: Dict, rules: seq<EndingRule>)
    ensures Fuzzy(word, dict, rules).None? <==> forall k :: 0 <= k < |rules| ==> !RuleHits(word, dict, rules[k])
    decreases |rules|
  {
    if rules != [] {
      FuzzyNoneIffNoHit(word, dict, rules[1..]);
      if !RuleHits(word, dict, rules[0]) {
        forall k | 1 <= k < |rules| ensures rules[k] == rules[1..][k - 1] {}
      }
    }
  }

  /** `exactMatch(w, dict) || fuzzyMatch(w, dict)`. */
  function Probe(w: string, dict: Dict, rules: seq<EndingRule>): (r: Option<Match>)
    ensures r.Some? ==> IsDictHit(r.value, dict) && r.value == Hit(r.value.base, dict[r.value.base])
  {
    match ExactMatch(w, dict)
    case Some(m) => Some(m)
    case None => Fuzzy(w, dict, rules)
  }

  // ------------------------------------------------------------- matchComplete

  /** `w.replace(/c$/, rep)`: the final character, if it is `c`, replaced. */
  function ReplaceFinal(w: string, c: char, rep: string): string {
    if |w| > 0 && w[|w| - 1] == c then w[..|w| - 1] + rep else w
  }

  /** The quoted-ti shortening: final ī, ā, ū become i; a final n is dropped, and a second final n becomes ṁ. */
  function TiShorten(w: string): string {
    var w1 := ReplaceFinal(w, '\U{012B}', "i");
    var w2 := ReplaceFinal(w1, '\U{0101}', "i");
    var w3 := ReplaceFinal(w2, '\U{016B}', "i");
    var w4 := ReplaceFinal(w3, 'n', "");
    ReplaceFinal(w4, 'n', "\U{1E41}")
  }

  /** The vy/by interchange: every "vy" becomes "by" if there is one, else every "by" becomes "vy". */
  function Swap(w: string): (r: Option<string>)
    ensures r.Some? <==> Contains(w, "vy") || Contains(w, "by")
    ensures r.Some? ==> |r.value| == |w|
  {
    if Contains(w, "vy") then Some(ReplaceAll(w, "vy", "by"))
    else if Contains(w, "by") then Some(ReplaceAll(w, "by", "vy"))
    else None
  }

  /** After the interchange, the spelling that was replaced is gone. */
  lemma SwapRemovesReplaced(w: string)
    ensures Contains(w, "vy") ==> Swap(w) == Some(ReplaceAll(w, "vy", "by")) && !Contains(Swap(w).value, "vy")
    ensures !Contains(w, "vy") && Contains(w, "by") ==> !Contains(Swap(w).value, "by")
  {
    ReplacePairRemovesPair(w, 'v', 'y', 'b');
    ReplacePairRemovesPair(w, 'b', 'y', 'v');
  }

  /** The word probed under the flags, or None when the source `continue`s past them. */
  function Variant(word: string, isTi: bool, pi: bool, vy: bool, ti: bool): Option<string> {
    var w1 := if ti && isTi then TiShorten(word) else word;
    if pi && !EndsWith(w1, "pi") then None
    else
      var w2 := if pi then w1[..|w1| - 2] else w1;
      if vy then Swap(w2) else Some(w2)
  }

  /** What one pass of the innermost loop yields: the hit, then the "pi" gloss under the pi flag. */
  function Outcome(word: string, dict: Dict, rules: seq<EndingRule>, isTi: bool, pi: bool, vy: bool, ti: bool): (r: Option<seq<Match>>)
    ensures r.Some? ==> |r.value| == (if pi then 2 else 1) && IsDictHit(r.value[0], dict)
    ensures r.Some? && pi ==> r.value[1] == PiGloss
  {
    match Variant(word, isTi, pi, vy, ti)
    case None => None
    case Some(w) =>
      match Probe(w, dict, rules)
      case None => None
      case Some(m) => Some([m] + (if pi then [PiGloss] else []))
  }

  /** The first of two outcomes that is present. */
  function FirstOf<T>(a: Option<T>, b: Option<T>): (r: Option<T>)
    ensures r.Some? <==> a.Some? || b.Some?
    ensures a.Some? ==> r == a
  {
    if a.Some? then a else b
  }

  /** A complete reading: a dictionary hit, followed by the "pi" gloss or by nothing. */
  predicate IsReading(ms: seq<Match>, dict: Dict) {
    && |ms| >= 1
    && IsDictHit(ms[0], dict)
    && (|ms| == 1 || (|ms| == 2 && ms[1] == PiGloss))
  }

  /** The innermost loop from iteration `ti` on: the outcome of its first pass that hits. */
  function TiLoop(word: string, dict: Dict, rules: seq<EndingRule>, isTi: bool, pi: bool, vy: bool, ti: nat): (r: Option<seq<Match>>)
    ensures r.Some? ==> IsReading(r.value, dict)
    decreases 2 - ti
  {
    if ti >= 2 then None
    else
      var o := Outcome(word, dict, rules, isTi, pi, vy, ti == 1);
      if o.Some? then o else TiLoop(word, dict, rules, isTi, pi, vy, ti + 1)
  }

  /** The middle loop from iteration `vy` on. */
  function VyLoop(word: string, dict: Dict, rules: seq<EndingRule>, isTi: bool, pi: bool, vy: nat): (r: Option<seq<Match>>)
    ensures r.Some? ==> IsReading(r.value, dict)
    decreases 2 - vy
  {
    if vy >= 2 then None
    else
      var o := TiLoop(word, dict, rules, isTi, pi, vy == 1, 0);
      if o.Some? then o else VyLoop(word, dict, rules, isTi, pi, vy + 1)
  }

  /** The outer loop from iteration `pi` on. */
  function PiLoop(word: string, dict: Dict, rules: seq<EndingRule>, isTi: bool, pi: nat): (r: Option<seq<Match>>)
    ensures r.Some? ==> IsReading(r.value, dict)
    decreases 2 - pi
  {
    if pi >= 2 then None
    else
      var o := VyLoop(word, dict, rules, isTi, pi == 1, 0);
      if o.Some? then o else PiLoop(word, dict, rules, isTi, pi + 1)
  }

  /** The result of `matchComplete`: the passes tried in loop order, pi outermost and ti innermost. */
  function Complete(word: string, dict: Dict, rules: seq<EndingRule>, isTi: bool): (r: Option<seq<Match>>)
    ensures r.Some? ==> IsReading(r.value, dict)
  {
    PiLoop(word, dict, rules, isTi, 0)
  }

  /** The innermost loop is the first present outcome of its two passes. */
  lemma TiLevel(word: string, dict: Dict, rules: seq<EndingRule>, isTi: bool, pi: bool, vy: bool)
    ensures TiLoop(word, dict, rules, isTi, pi, vy, 0) ==
      FirstOf(Outcome(word, dict, rules, isTi, pi, vy, false), Outcome(word, dict, rules, isTi, pi, vy, true))
  {
  }

  /** The middle loop is the first present result of its two iterations. */
  lemma VyLevel(word: string, dict: Dict, rules: seq<EndingRule>, isTi: bool, pi: bool)
    ensures VyLoop(word, dict, rules, isTi, pi, 0) ==
      FirstOf(TiLoop(word, dict, rules, isTi, pi, false, 0), TiLoop(word, dict, rules, isTi, pi, true, 0))
  {
    assert VyLoop(word, dict, rules, isTi, pi, 1) == TiLoop(word, dict, rules, isTi, pi, true, 0);
  }

  /** The three loops unrolled into their eight passes. */
  lemma LoopLevels(word: string, dict: Dict, rules: seq<EndingRule>, isTi: bool)
    ensures Complete(word, dict, rules, isTi) ==
      FirstOf(VyLoop(word, dict, rules, isTi, false, 0), VyLoop(word, dict, rules, isTi, true, 0))
    ensures VyLoop(word, dict, rules, isTi, false, 0) ==
      FirstOf(TiLoop(word, dict, rules, isTi, false, false, 0), TiLoop(word, dict, rules, isTi, false, true, 0))
    ensures VyLoop(word, dict, rules, isTi, true, 0) ==
      FirstOf(TiLoop(word, dict, rules, isTi, true, false, 0), TiLoop(word, dict, rules, isTi, true, true, 0))
    ensures TiLoop(word, dict, rules, isTi, false, false, 0) ==
      FirstOf(Outcome(word, dict, rules, isTi, false, false, false), Outcome(word, dict, rules, isTi, false, false, true))
    ensures TiLoop(word, dict, rules, isTi, false, true, 0) ==
      FirstOf(Outcome(word, dict, rules, isTi, false, true, false), Outcome(word, dict, rules, isTi, false, true, true))
    ensures TiLoop(word, dict, rules, isTi, true, false, 0) ==
      FirstOf(Outcome(word, dict, rules, isTi, true, false, false), Outcome(word, dict, rules, isTi, true, false, true))
    ensures TiLoop(word, dict, rules, isTi, true, true, 0) ==
      FirstOf(Outcome(word, dict, rules, isTi, true, true, false), Outcome(word, dict, rules, isTi, true, true, true))
  {
    assert PiLoop(word, dict, rules, isTi, 1) == VyLoop(word, dict, rules, isTi, true, 0);
    VyLevel(word, dict, rules, isTi, false);
    VyLevel(word, dict, rules, isTi, true);
    TiLevel(word, dict, rules, isTi, false, false);
    TiLevel(word, dict, rules, isTi, false, true);
    TiLevel(word, dict, rules, isTi, true, false);
    TiLevel(word, dict, rules, isTi, true, true);
  }

  /** The word one pass of `matchComplete` probes, or None where the source `continue`s. */
  method PassWord(word: string, isTi: bool, pi: nat, vy: nat, ti: nat) returns (r: Option<string>)
    ensures r == Variant(word, isTi, pi == 1, vy == 1, ti == 1)
  {
    var w := word;
    if ti == 1 && isTi {
      w := TiShorten(w);
    }
    if pi == 1 {
      if !EndsWith(w, "pi") {
        return None;
      }
      w := w[..|w| - 2];
    }
    if vy == 1 {
      if Contains(w, "vy") {
        w := ReplaceAll(w, "vy", "by");
      } else if Contains(w, "by") {
        w := ReplaceAll(w, "by", "vy");
      } else {
        return None;
      }
    }
    return Some(w);
  }

  /** One pass of `matchComplete`'s innermost loop body; returning None stands for `continue` or a miss. */
  method TryCombination(word: string, dict: Dict, rules: seq<EndingRule>, isTi: bool, pi: nat, vy: nat, ti: nat)
    returns (r: Option<seq<Match>>)
    ensures r == Outcome(word, dict, rules, isTi, pi == 1, vy == 1, ti == 1)
  {
    var v := PassWord(word, isTi, pi, vy, ti);
    if v.None? {
      return None;
    }
    var w := v.value;
    var m := ExactMatch(w, dict);
    if m.None? {
      m := FuzzyMatch(w, dict, rules);
    }
    assert m == Probe(w, dict, rules);
    if m.Some? {
      var matches := [m.value];
      if pi == 1 {
        matches := matches + [PiGloss];
      } else {
        assert matches == [m.value] + [];
      }
      return Some(matches);
    }
    return None;
  }

  /** `matchComplete`: the triple loop over pi, vy and ti with its early return. */
  method MatchComplete(word: string, dict: Dict, rules: seq<EndingRule>, isTi: bool) returns (r: Option<seq<Match>>)
    ensures r == Complete(word, dict, rules, isTi)
  {
    for pi := 0 to 2
      invariant PiLoop(word, dict, rules, isTi, pi) == Complete(word, dict, rules, isTi)
    {
      for vy := 0 to 2
        invariant VyLoop(word, dict, rules, isTi, pi == 1, vy) == VyLoop(word, dict, rules, isTi, pi == 1, 0)
      {
        for ti := 0 to 2
          invariant TiLoop(word, dict, rules, isTi, pi == 1, vy == 1, ti) == TiLoop(word, dict, rules, isTi, pi == 1, vy == 1, 0)
        {
          var m := TryCombination(word, dict, rules, isTi, pi, vy, ti);
          if m.Some? {
            assert TiLoop(word, dict, rules, isTi, pi == 1, vy == 1, 0) == m;
            assert VyLoop(word, dict, rules, isTi, pi == 1, 0) == m;
            return m;
          }
        }
      }
    }
    return None;
  }

  /** The position of a pass in the loop order. */
  function Rank(pi: bool, vy: bool, ti: bool): nat {
    (if pi then 4 else 0) + (if vy then 2 else 0) + (if ti then 1 else 0)
  }

  /** `matchComplete` finds nothing exactly when no pass hits. */
  lemma CompleteNoneIffNoHit(word: string, dict: Dict, rules: seq<EndingRule>, isTi: bool)
    ensures Complete(word, dict, rules, isTi).None? <==>
      forall pi: bool, vy: bool, ti: bool :: Outcome(word, dict, rules, isTi, pi, vy, ti).None?
  {
    LoopLevels(word, dict, rules, isTi);
    if Complete(word, dict, rules, isTi).None? {
      forall pi: bool, vy: bool, ti: bool ensures Outcome(word, dict, rules, isTi, pi, vy, ti).None? {
      }
    }
  }

  /**
   * A result of `matchComplete` is the outcome of the first pass, in loop
   * order, that hits; the "pi" gloss follows the hit exactly when that pass
   * removed a final "pi".
   */
  lemma CompleteIsFirstHit(word: string, dict: Dict, rules: seq<EndingRule>, isTi: bool)
    ensures Complete(word, dict, rules, isTi).Some? ==>
      exists pi: bool, vy: bool, ti: bool ::
        && Complete(word, dict, rules, isTi) == Outcome(word, dict, rules, isTi, pi, vy, ti)
        && (|Complete(word, dict, rules, isTi).value| == 2 <==> pi)
        && forall p: bool, v: bool, t: bool :: Rank(p, v, t) < Rank(pi, vy, ti) ==>
             Outcome(word, dict, rules, isTi, p, v, t).None?
  {
    var r := Complete(word, dict, rules, isTi);
    LoopLevels(word, dict, rules, isTi);
    if r.Some? {
      var pi := VyLoop(word, dict, rules, isTi, false, 0).None?;
      var vy := TiLoop(word, dict, rules, isTi, pi, false, 0).None?;
      var ti := Outcome(word, dict, rules, isTi, pi, vy, false).None?;
      assert r == Outcome(word, dict, rules, isTi, pi, vy, ti);
      assert |r.value| == 2 <==> pi;
      forall p: bool, v: bool, t: bool | Rank(p, v, t) < Rank(pi, vy, ti)
        ensures Outcome(word, dict, rules, isTi, p, v, t).None?
      {
      }
    }
  }

  // -------------------------------------------------------------- matchPartial

  /** `maxLength`'s default: the shortest prefix `matchPartial` accepts. */
  const MinPartLength: nat := 4

  /** The longest length `l`, `MinPartLength <= l <= len`, whose prefix of `w` is a key. */
  function LongestKeyPrefix(w: string, dict: Dict, len: nat): (r: Option<nat>)
    requires len <= |w|
    ensures r.Some? ==> MinPartLength <= r.value <= len && w[..r.value] in dict
    ensures r.Some? ==> forall l :: r.value < l <= len ==> w[..l] !in dict
    ensures r.None? ==> forall l :: MinPartLength <= l <= len ==> w[..l] !in dict
    decreases len
  {
    if len < MinPartLength then None
    else if w[..len] in dict then Some(len)
    else LongestKeyPrefix(w, dict, len - 1)
  }

  /** The prefix hit on `w` itself, carrying the rest of `w` as leftover. */
  function PrefixMatch(w: string, dict: Dict): (r: Option<Match>)
    ensures r.Some? ==> IsPrefixHit(r.value, dict) && r.value.base + r.value.leftover.value == w
  {
    match LongestKeyPrefix(w, dict, |w|)
    case Some(l) =>
      assert w[..l] + w[l..] == w;
      Some(Match(w[..l], Some(dict[w[..l]]), None, Some(w[l..])))
    case None => None
  }

  /** A prefix hit of the decomposer: a key of at least four characters, carrying its leftover. */
  predicate IsPrefixHit(m: Match, dict: Dict) {
    IsDictHit(m, dict) && m.meaning.None? && m.leftover.Some? && |m.base| >= MinPartLength
  }

  /** The spelling iteration `vy` of `matchPartial` probes: the word, then its vy/by interchange. */
  function Spelling(word: string, vy: nat): (r: Option<string>)
    ensures r.Some? ==> |r.value| == |word|
  {
    if vy == 0 then Some(word) else Swap(word)
  }

  /** The loop of `matchPartial` from iteration `vy` on: the first prefix hit found. */
  function PartialFrom(word: string, dict: Dict, vy: nat): (r: Option<Match>)
    ensures r.Some? ==> IsPrefixHit(r.value, dict) && |r.value.base| + |r.value.leftover.value| == |word|
    decreases 2 - vy
  {
    if vy >= 2 then None
    else
      var hit := if Spelling(word, vy).Some? then PrefixMatch(Spelling(word, vy).value, dict) else None;
      if hit.Some? then hit else PartialFrom(word, dict, vy + 1)
  }

  /** `matchPartial`: the word itself first, then its vy/by interchange. */
  function Partial(word: string, dict: Dict): (r: Option<Match>)
    ensures r.Some? ==> IsPrefixHit(r.value, dict) && |r.value.base| + |r.value.leftover.value| == |word|
  {
    PartialFrom(word, dict, 0)
  }

  /** The inner loop of `matchPartial`: progressively shorter prefixes, down to the minimum length. */
  method LongestPrefixHit(w: string, dict: Dict) returns (r: Option<Match>)
    ensures r == PrefixMatch(w, dict)
  {
    var i := 0;
    while i < |w|
      invariant 0 <= i <= |w|
      invariant LongestKeyPrefix(w, dict, |w| - i) == LongestKeyPrefix(w, dict, |w|)
    {
      var part := w[..|w| - i];
      if |part| < MinPartLength {
        break;
      }
      if part in dict {
        return Some(Match(part, Some(dict[part]), None, Some(w[|w| - i..])));
      }
      i := i + 1;
    }
    return None;
  }

  /** `matchPartial`: the loops over the interchange flag and the prefix length. */
  method MatchPartial(word: string, dict: Dict) returns (r: Option<Match>)
    ensures r == Partial(word, dict)
  {
    for vy := 0 to 2
      invariant PartialFrom(word, dict, vy) == Partial(word, dict)
    {
      var w := word;
      if vy == 1 {
        if Contains(w, "vy") {
          w := ReplaceAll(w, "vy", "by");
        } else if Contains(w, "by") {
          w := ReplaceAll(w, "by", "vy");
        } else {
          continue;
        }
      }
      assert Spelling(word, vy) == Some(w);
      r := LongestPrefixHit(w, dict);
      if r.Some? {
        return;
      }
    }
    return None;
  }

  /**
   * What `matchPartial` returns: a key of at least four characters that,
   * followed by the leftover, spells the word (or, failing any prefix of the
   * word, its vy/by interchange), and no longer prefix of that spelling is a key.
   */
  lemma PartialIsLongestPrefix(word: string, dict: Dict)
    ensures Partial(word, dict).Some? ==>
      var m := Partial(word, dict).value;
      var spelt := m.base + m.leftover.value;
      && (spelt == word || (Swap(word) == Some(spelt)
                            && forall l :: MinPartLength <= l <= |word| ==> word[..l] !in dict))
      && forall l :: |m.base| < l <= |spelt| ==> spelt[..l] !in dict
    ensures Partial(word, dict).None? <==>
      (forall l :: MinPartLength <= l <= |word| ==> word[..l] !in dict)
      && (Swap(word).Some? ==> forall l :: MinPartLength <= l <= |word| ==> Swap(word).value[..l] !in dict)
  {
    var p := LongestKeyPrefix(word, dict, |word|);
    if p.Some? {
      assert word[..p.value] + word[p.value..] == word;
    } else if Swap(word).Some? {
      var s := Swap(word).value;
      var q := LongestKeyPrefix(s, dict, |s|);
      if q.Some? {
        assert s[..q.value] + s[q.value..] == s;
      }
    }
  }
}
