/**
 * `lookupCompound` of `src/utils/lookup.ts`: the fallback that reads a word
 * as a whole (possibly after a negation prefix) or decomposes it into a
 * chain of longest dictionary prefixes, re-inserting vowels elided by sandhi
 * at each join.
 *
 * `Compound` is the specification; the methods follow the source's loops and
 * are proved equal to it.
 */
module Compound {
  import opened Wrappers
  import opened Chars
  import opened Text
  import opened LookupTypes
  import opened Matchers
  import Normalize

  // ----------------------------------------------------------- word preparation

  /** A quote mark that `[''‘’]ti$` accepts before the final "ti". */
  predicate IsTiQuote(c: char) {
    c == '\'' || c == '\U{2018}' || c == '\U{2019}'
  }

  /** The word ends in a quote mark followed by "ti". */
  predicate EndsWithQuotedTi(w: string) {
    |w| >= 3 && IsTiQuote(w[|w| - 3]) && w[|w| - 2..] == "ti"
  }

  /** The word with a quoted-ti ending cut off and every straight quote deleted. */
  function Unquoted(word: string): (r: string)
    ensures |r| <= |word|
    ensures '\'' !in r && '"' !in r
  {
    var w := if EndsWithQuotedTi(word) then word[..|word| - 3] else word;
    RemoveAllMembers(w, {'\'', '"'});
    RemoveAll(w, {'\'', '"'})
  }

  /** A quote and "ti" at the end are cut off; the straight quotes of the rest are deleted, the other characters kept in order. */
  lemma UnquotedCutsTi(stem: string, q: char)
    requires IsTiQuote(q)
    ensures Unquoted(stem + [q, 't', 'i']) == RemoveAll(stem, {'\'', '"'})
  {
    var w := stem + [q, 't', 'i'];
    assert w[|w| - 2..] == "ti" && w[..|w| - 3] == stem;
  }

  /** Without a quoted "ti" ending only the straight quotes are deleted, so a word without them is kept whole. */
  lemma UnquotedPlain(word: string)
    requires !EndsWithQuotedTi(word)
    ensures Unquoted(word) == RemoveAll(word, {'\'', '"'})
    ensures '\'' !in word && '"' !in word ==> Unquoted(word) == word
  {
    Normalize.QuoteFreeKept(word);
  }

  /** `/^an|^a(.)\1/`: "an", or "a" and then a doubled character that is not a line terminator. */
  predicate HasLongNegation(w: string) {
    || (|w| >= 2 && w[0] == 'a' && w[1] == 'n')
    || (|w| >= 3 && w[0] == 'a' && !IsLineTerminator(w[1]) && w[2] == w[1])
  }

  /**
   * `unword`: the word without its negation prefix. The empty string also
   * stands for `null`; the source only ever tests it for truthiness.
   */
  function NegationStem(w: string): (r: string)
    ensures r != [] ==> |r| < |w| && w[0] == 'a' && r == w[|w| - |r|..]
    ensures r != [] ==> |w| - |r| == (if HasLongNegation(w) then 2 else 1)
  {
    if HasLongNegation(w) then w[2..]
    else if |w| >= 1 && w[0] == 'a' then w[1..]
    else []
  }

  /** There is no stem exactly for a word not starting with "a", and for "a" and "an" themselves. */
  lemma NegationStemEmpty(w: string)
    ensures NegationStem(w) == [] <==> w == [] || w[0] != 'a' || w == "a" || w == "an"
  {
    if NegationStem(w) == [] && |w| == 2 && HasLongNegation(w) {
      assert w == "an";
    }
  }

  // ----------------------------------------------------------- sandhi starts

  /** The vowels re-inserted at a join: only short ones after a short a, i or u. */
  function Vowels(sandhi: char): seq<char> {
    if sandhi == 'a' || sandhi == 'i' || sandhi == 'u' then ['a', 'i', 'u']
    else ['a', '\U{0101}', 'i', '\U{012B}', 'u', '\U{016B}', 'o', 'e']
  }

  /** Each vowel followed by the first leftover character, in order. */
  function VowelStarts(vs: seq<char>, firstChar: char): (r: seq<string>)
    ensures |r| == |vs|
    ensures forall k :: 0 <= k < |vs| ==> r[k] == [vs[k], firstChar]
  {
    if vs == [] then [] else VowelStarts(vs[..|vs| - 1], firstChar) + [[vs[|vs| - 1], firstChar]]
  }

  /** Every start is at most two characters long. */
  predicate ShortStarts(starts: seq<string>) {
    forall k :: 0 <= k < |starts| ==> |starts[k]| <= 2
  }

  /**
   * `starts`: the first leftover character itself, nothing (the character
   * is dropped), the sandhi character restored before it, then each vowel
   * before it.
   */
  function Starts(firstChar: char, sandhi: char): (r: seq<string>)
    ensures |r| == 3 + |Vowels(sandhi)|
    ensures ShortStarts(r)
  {
    [[firstChar], [], [sandhi, firstChar]] + VowelStarts(Vowels(sandhi), firstChar)
  }

  // ----------------------------------------------------------- decomposition

  /** What the scan over `starts` found: a complete reading, a further prefix hit, or nothing. */
  datatype Step = Completed(matches: seq<Match>) | Continued(next: Match) | Unresolved

  /**
   * The inner `for (const start of starts)`: for each start in order, a
   * complete reading of `start + leftover` wins, then a prefix hit on it.
   */
  function TryStarts(starts: seq<string>, leftover: string, dict: Dict, rules: seq<EndingRule>, isTi: bool): (r: Step)
    requires ShortStarts(starts)
    ensures r.Completed? ==> IsReading(r.matches, dict)
    ensures r.Continued? ==> IsPrefixHit(r.next, dict) && |r.next.base| + |r.next.leftover.value| <= |leftover| + 2
    decreases |starts|
  {
    if starts == [] then Unresolved
    else
      var c := Complete(starts[0] + leftover, dict, rules, isTi);
      if c.Some? && |c.value| > 0 then Completed(c.value)
      else
        var p := Partial(starts[0] + leftover, dict);
        if p.Some? then Continued(p.value)
        else TryStarts(starts[1..], leftover, dict, rules, isTi)
  }

  /** The scan finds nothing exactly when no start gives a complete reading or a prefix hit. */
  lemma {:induction false} TryStartsUnresolved(starts: seq<string>, leftover: string, dict: Dict, rules: seq<EndingRule>, isTi: bool)
    requires ShortStarts(starts)
    ensures TryStarts(starts, leftover, dict, rules, isTi).Unresolved? <==>
      forall k :: 0 <= k < |starts| ==>
        Complete(starts[k] + leftover, dict, rules, isTi).None? && Partial(starts[k] + leftover, dict).None?
    decreases |starts|
  {
    if starts != [] {
      TryStartsUnresolved(starts[1..], leftover, dict, rules, isTi);
      assert forall k :: 1 <= k < |starts| ==> starts[k] == starts[1..][k - 1];
    }
  }

  /**
   * The scan at one join: the starts built from the first character after
   * the join and the sandhi character before it, each tried on the rest.
   */
  function ScanAfter(firstChar: char, sandhi: char, rest: string, dict: Dict, rules: seq<EndingRule>, isTi: bool): (r: Step)
    ensures r.Completed? ==> IsReading(r.matches, dict)
    ensures r.Continued? ==> IsPrefixHit(r.next, dict) && |r.next.base| + |r.next.leftover.value| <= |rest| + 2
  {
    TryStarts(Starts(firstChar, sandhi), rest, dict, rules, isTi)
  }

  /** A match the decomposition loop appends: a hit, the "pi" gloss, or an unresolved rest. */
  predicate IsPiece(m: Match, dict: Dict) {
    || IsDictHit(m, dict)
    || m == PiGloss
    || (m == Gloss(m.base, "?") && m.base != [] && m.base != [Normalize.NiggahitaAbove])
  }

  /**
   * One pass of the `while` body after the current prefix hit: split off the
   * leftover's first character and scan the starts. A further prefix hit
   * leaves a leftover at least three characters shorter than the last,
   * which is why the loop ends.
   */
  function NextStep(current: Match, dict: Dict, rules: seq<EndingRule>, isTi: bool): (r: Step)
    requires IsPrefixHit(current, dict) && current.leftover.value != []
    ensures r.Completed? ==> IsReading(r.matches, dict)
    ensures r.Continued? ==> IsPrefixHit(r.next, dict)
    ensures r.Continued? ==> |r.next.leftover.value| + 3 <= |current.leftover.value|
  {
    var lo := current.leftover.value;
    ScanAfter(lo[0], current.base[|current.base| - 1], lo[1..], dict, rules, isTi)
  }

  /**
   * The `while` loop from a prefix hit: the hit itself, then a complete
   * reading of the rest, or the decomposition from the next prefix hit, or
   * else the rest as a "?" gloss (dropped when it is just "ṁ").
   */
  function Resolve(current: Match, dict: Dict, rules: seq<EndingRule>, isTi: bool): (r: seq<Match>)
    requires IsPrefixHit(current, dict)
    ensures |r| >= 1 && r[0] == current
    decreases |current.leftover.value|
  {
    var lo := current.leftover.value;
    if lo == [] then [current]
    else
      match NextStep(current, dict, rules, isTi)
      case Completed(ms) => [current] + ms
      case Continued(next) => [current] + Resolve(next, dict, rules, isTi)
      case Unresolved => [current] + (if lo == [Normalize.NiggahitaAbove] then [] else [Gloss(lo, "?")])
  }

  /** A complete reading consists of pieces. */
  lemma ReadingPieces(ms: seq<Match>, dict: Dict)
    requires IsReading(ms, dict)
    ensures forall m :: m in ms ==> IsPiece(m, dict)
  {
  }

  /** Every match of the loop is a piece. */
  lemma {:induction false} ResolvePieces(current: Match, dict: Dict, rules: seq<EndingRule>, isTi: bool)
    requires IsPrefixHit(current, dict)
    ensures forall m :: m in Resolve(current, dict, rules, isTi) ==> IsPiece(m, dict)
    decreases |current.leftover.value|
  {
    var lo := current.leftover.value;
    assert IsPiece(current, dict);
    if lo != [] {
      match NextStep(current, dict, rules, isTi)
      case Completed(ms) =>
        ReadingPieces(ms, dict);
        assert Resolve(current, dict, rules, isTi) == [current] + ms;
      case Continued(next) =>
        ResolvePieces(next, dict, rules, isTi);
        assert Resolve(current, dict, rules, isTi) == [current] + Resolve(next, dict, rules, isTi);
      case Unresolved =>
    }
  }

  /** The decomposition loop from an optional prefix hit: nothing without one. */
  function Chain(start: Option<Match>, dict: Dict, rules: seq<EndingRule>, isTi: bool): seq<Match>
    requires start.Some? ==> IsPrefixHit(start.value, dict)
  {
    if start.Some? then Resolve(start.value, dict, rules, isTi) else []
  }

  /** The negation stem's prefix hit replaces the word's own only when its base is strictly longer. */
  predicate NegatedWins(plain: Option<Match>, negated: Option<Match>) {
    negated.Some? && (plain.None? || |negated.value.base| > |plain.value.base|)
  }

  /**
   * The partial branch: the decomposition from a prefix hit on the word, or
   * from one on the negation stem, announced by the negation gloss, when
   * that one wins.
   */
  function Decompose(w: string, unword: string, dict: Dict, rules: seq<EndingRule>, isTi: bool): seq<Match> {
    var plain := Partial(w, dict);
    var negated := if unword != [] then Partial(unword, dict) else None;
    if NegatedWins(plain, negated) then [NegGloss] + Chain(negated, dict, rules, isTi)
    else Chain(plain, dict, rules, isTi)
  }

  /** Which prefix hit the decomposition starts from; ties keep the plain word. */
  lemma DecomposeStart(w: string, unword: string, dict: Dict, rules: seq<EndingRule>, isTi: bool)
    ensures var r := Decompose(w, unword, dict, rules, isTi);
      var plain := Partial(w, dict);
      var negated := Partial(unword, dict);
      && (r == [] <==> plain.None? && (unword == [] || negated.None?))
      && (plain.Some? && (unword == [] || negated.None? || |negated.value.base| <= |plain.value.base|) ==>
            r[0] == plain.value)
      && (unword != [] && negated.Some? && (plain.None? || |negated.value.base| > |plain.value.base|) ==>
            |r| >= 2 && r[0] == NegGloss && r[1] == negated.value)
  {
  }

  // ----------------------------------------------------------- lookupCompound

  /**
   * The attempt at a complete reading: of the word, else of its negation
   * stem behind the negation gloss. Returns the stem it tried (empty when
   * none) and the matches (empty when neither reading exists).
   */
  function WholeReading(w: string, dict: Dict, rules: seq<EndingRule>, isTi: bool): (string, seq<Match>) {
    var first := Complete(w, dict, rules, isTi);
    if first.Some? && |first.value| > 0 then ([], first.value)
    else
      var unword := NegationStem(w);
      (unword, if unword != [] then NegatedReading(unword, dict, rules, isTi) else [])
  }

  /** A complete reading of the negation stem behind the negation gloss, or nothing. */
  function NegatedReading(unword: string, dict: Dict, rules: seq<EndingRule>, isTi: bool): seq<Match> {
    var result := Complete(unword, dict, rules, isTi);
    if result.Some? && |result.value| > 0 then [NegGloss] + result.value else []
  }

  /**
   * The matches before the closing "iti": a complete reading of the word,
   * else one of its negation stem after the negation gloss, else the
   * decomposition.
   */
  function Analysis(w: string, dict: Dict, rules: seq<EndingRule>, isTi: bool): seq<Match> {
    var (unword, ms) := WholeReading(w, dict, rules, isTi);
    if ms == [] then Decompose(w, unword, dict, rules, isTi) else ms
  }

  /**
   * `lookupCompound`: the analysis of the unquoted word, then "iti" after a
   * quoted ti. The analysis is kept whole and in order, at most one gloss is
   * added, and an empty analysis stays empty.
   */
  function Compound(word: string, dict: Dict, rules: seq<EndingRule>): (r: seq<Match>)
    ensures var all := Analysis(Unquoted(word), dict, rules, EndsWithQuotedTi(word));
      && all <= r && |r| <= |all| + 1
      && (r == [] <==> all == [])
  {
    var isTi := EndsWithQuotedTi(word);
    var all := Analysis(Unquoted(word), dict, rules, isTi);
    if isTi && all != [] then all + [EndQuoteGloss] else all
  }

  /** The glosses the compound lookup adds are not pieces, and differ from each other. */
  lemma GlossesAreNotPieces(dict: Dict)
    ensures !IsPiece(NegGloss, dict) && !IsPiece(EndQuoteGloss, dict) && NegGloss != EndQuoteGloss
  {
    assert NegGloss.meaning != Some("?") && EndQuoteGloss.meaning != Some("?");
  }

  /** A reading of the whole word wins outright: no decomposition and no negation gloss. */
  lemma CompoundPrefersComplete(word: string, dict: Dict, rules: seq<EndingRule>)
    requires Complete(Unquoted(word), dict, rules, EndsWithQuotedTi(word)).Some?
    ensures var reading := Complete(Unquoted(word), dict, rules, EndsWithQuotedTi(word)).value;
      Compound(word, dict, rules) == reading + (if EndsWithQuotedTi(word) then [EndQuoteGloss] else [])
  {
  }

  /** The decomposition holds pieces, led by the negation gloss when the stem's prefix won. */
  lemma DecomposePieces(w: string, unword: string, dict: Dict, rules: seq<EndingRule>, isTi: bool)
    ensures var r := Decompose(w, unword, dict, rules, isTi);
      && (forall k :: 1 <= k < |r| ==> IsPiece(r[k], dict))
      && (r != [] && r[0] != NegGloss ==> IsPiece(r[0], dict))
      && (r != [] && r[0] == NegGloss ==> unword != [] && |r| >= 2 && IsDictHit(r[1], dict))
  {
    var plain := Partial(w, dict);
    var negated := if unword != [] then Partial(unword, dict) else None;
    var neg := negated.Some? && (plain.None? || |negated.value.base| > |plain.value.base|);
    var start := if neg then negated else plain;
    GlossesAreNotPieces(dict);
    if start.Some? {
      ResolvePieces(start.value, dict, rules, isTi);
    }
  }

  /**
   * Every match of the analysis is a piece, except a leading negation gloss,
   * which appears only when the word has a negation stem and is followed by
   * the dictionary hit it qualifies.
   */
  lemma AnalysisPieces(w: string, dict: Dict, rules: seq<EndingRule>, isTi: bool)
    ensures var r := Analysis(w, dict, rules, isTi);
      && (forall k :: 1 <= k < |r| ==> IsPiece(r[k], dict))
      && (r != [] && r[0] != NegGloss ==> IsPiece(r[0], dict))
      && (r != [] && r[0] == NegGloss ==> NegationStem(w) != [] && |r| >= 2 && IsDictHit(r[1], dict))
  {
    var first := Complete(w, dict, rules, isTi);
    GlossesAreNotPieces(dict);
    if first.Some? && |first.value| > 0 {
      ReadingPieces(first.value, dict);
    } else {
      var unword := NegationStem(w);
      if WholeReading(w, dict, rules, isTi).1 == [] {
        DecomposePieces(w, unword, dict, rules, isTi);
      } else {
        ReadingPieces(Complete(unword, dict, rules, isTi).value, dict);
      }
    }
  }

  /**
   * The negation gloss comes first and only once, qualifies the dictionary
   * hit right after it, and appears only for a word with a negation stem;
   * every other match is a piece or the closing "iti".
   */
  lemma NegationGlossLeads(word: string, dict: Dict, rules: seq<EndingRule>)
    ensures var r := Compound(word, dict, rules);
      && (forall m :: m in r ==> IsPiece(m, dict) || m == NegGloss || m == EndQuoteGloss)
      && (NegGloss in r ==> r[0] == NegGloss && NegGloss !in r[1..])
      && (NegGloss in r ==> NegationStem(Unquoted(word)) != [] && |r| >= 2 && IsDictHit(r[1], dict))
  {
    var a := Analysis(Unquoted(word), dict, rules, EndsWithQuotedTi(word));
    var r := Compound(word, dict, rules);
    AnalysisPieces(Unquoted(word), dict, rules, EndsWithQuotedTi(word));
    GlossesAreNotPieces(dict);
    assert r == a || r == a + [EndQuoteGloss];
    if r != [] {
      forall m | m in r[1..] ensures m != NegGloss {
        var k :| 0 <= k < |r[1..]| && r[1..][k] == m;
        if k + 1 < |a| {
          assert m == a[k + 1];
        } else {
          assert m == EndQuoteGloss;
        }
      }
    }
  }

  /**
   * The closing "iti" is appended exactly when a quoted-ti ending was cut
   * and some match exists, and then it comes last and only once.
   */
  lemma EndQuoteLast(word: string, dict: Dict, rules: seq<EndingRule>)
    ensures var r := Compound(word, dict, rules);
      && (EndsWithQuotedTi(word) && r != [] ==> |r| >= 2 && r[|r| - 1] == EndQuoteGloss && EndQuoteGloss !in r[..|r| - 1])
      && (!EndsWithQuotedTi(word) ==> EndQuoteGloss !in r)
  {
    var a := Analysis(Unquoted(word), dict, rules, EndsWithQuotedTi(word));
    AnalysisPieces(Unquoted(word), dict, rules, EndsWithQuotedTi(word));
    GlossesAreNotPieces(dict);
    assert EndQuoteGloss !in a by {
      if a != [] {
        assert a == [a[0]] + a[1..];
      }
    }
  }

  // ----------------------------------------------------------- the loops

  /** Builds `starts` as the source does: three fixed starts, then one push per vowel. */
  method BuildStarts(firstChar: char, sandhi: char) returns (starts: seq<string>)
    ensures starts == Starts(firstChar, sandhi)
  {
    starts := [[firstChar], [], [sandhi, firstChar]];
    var vowels := Vowels(sandhi);
    for k := 0 to |vowels|
      invariant starts == [[firstChar], [], [sandhi, firstChar]] + VowelStarts(vowels[..k], firstChar)
    {
      assert vowels[..k + 1][..k] == vowels[..k];
      starts := starts + [[vowels[k], firstChar]];
    }
    assert vowels[..|vowels|] == vowels;
  }

  /** The `for (const start of starts)` scan with its two breaks. */
  method ScanStarts(starts: seq<string>, leftover: string, dict: Dict, rules: seq<EndingRule>, isTi: bool)
    returns (r: Step)
    requires ShortStarts(starts)
    ensures r == TryStarts(starts, leftover, dict, rules, isTi)
  {
    for k := 0 to |starts|
      invariant TryStarts(starts[k..], leftover, dict, rules, isTi) == TryStarts(starts, leftover, dict, rules, isTi)
    {
      assert starts[k..][0] == starts[k] && starts[k..][1..] == starts[k + 1..];
      var completeResult := MatchComplete(starts[k] + leftover, dict, rules, isTi);
      if completeResult.Some? && |completeResult.value| > 0 {
        return Completed(completeResult.value);
      }
      var partialResult := MatchPartial(starts[k] + leftover, dict);
      if partialResult.Some? {
        return Continued(partialResult.value);
      }
    }
    return Unresolved;
  }

  /** Builds the starts for a join and scans them. */
  method ScanJoin(firstChar: char, sandhi: char, leftover: string, dict: Dict, rules: seq<EndingRule>, isTi: bool)
    returns (step: Step)
    ensures step == ScanAfter(firstChar, sandhi, leftover, dict, rules, isTi)
  {
    var starts := BuildStarts(firstChar, sandhi);
    step := ScanStarts(starts, leftover, dict, rules, isTi);
  }

  /** One pass of the loop body scans the join between the current prefix hit and its leftover. */
  lemma NextStepScans(current: Match, dict: Dict, rules: seq<EndingRule>, isTi: bool)
    requires IsPrefixHit(current, dict) && current.leftover.value != []
    ensures var lo := current.leftover.value;
      NextStep(current, dict, rules, isTi) == ScanAfter(lo[0], current.base[|current.base| - 1], lo[1..], dict, rules, isTi)
  {
  }

  /** The loop stops at a prefix hit without leftover. */
  lemma ResolveAtEnd(current: Match, dict: Dict, rules: seq<EndingRule>, isTi: bool)
    requires IsPrefixHit(current, dict) && current.leftover.value == []
    ensures Resolve(current, dict, rules, isTi) == [current]
  {
  }

  /** The loop stops after a complete reading of the rest. */
  lemma ResolveCompleted(current: Match, dict: Dict, rules: seq<EndingRule>, isTi: bool, ms: seq<Match>)
    requires IsPrefixHit(current, dict) && current.leftover.value != []
    requires NextStep(current, dict, rules, isTi) == Completed(ms)
    ensures Resolve(current, dict, rules, isTi) == [current] + ms
  {
  }

  /** The loop goes on from the next prefix hit. */
  lemma ResolveContinued(current: Match, dict: Dict, rules: seq<EndingRule>, isTi: bool, next: Match)
    requires IsPrefixHit(current, dict) && current.leftover.value != []
    requires NextStep(current, dict, rules, isTi) == Continued(next)
    ensures IsPrefixHit(next, dict)
    ensures Resolve(current, dict, rules, isTi) == [current] + Resolve(next, dict, rules, isTi)
  {
  }

  /** The loop stops with the unresolved rest. */
  lemma ResolveUnresolved(current: Match, dict: Dict, rules: seq<EndingRule>, isTi: bool)
    requires IsPrefixHit(current, dict) && current.leftover.value != []
    requires NextStep(current, dict, rules, isTi) == Unresolved
    ensures var lo := current.leftover.value;
      Resolve(current, dict, rules, isTi) == [current] + (if lo == [Normalize.NiggahitaAbove] then [] else [Gloss(lo, "?")])
  {
  }

  /**
   * One pass of the `while` body from the current prefix hit: the matches it
   * appends, the next prefix hit when the loop goes on, and whether a
   * complete reading ended it.
   */
  method ChainStep(current: Match, dict: Dict, rules: seq<EndingRule>, isTi: bool)
    returns (appended: seq<Match>, next: Option<Match>, foundComplete: bool)
    requires IsPrefixHit(current, dict)
    ensures foundComplete ==> next.None?
    ensures next.Some? ==> IsPrefixHit(next.value, dict) && |next.value.leftover.value| < |current.leftover.value|
    ensures appended + Chain(next, dict, rules, isTi) == Resolve(current, dict, rules, isTi)
  {
    appended := [current];
    next := None;
    foundComplete := false;
    var leftover := current.leftover.value;
    if leftover == [] {
      ResolveAtEnd(current, dict, rules, isTi);
      return;
    }
    var firstChar := leftover[0];
    var sandhi := current.base[|current.base| - 1];
    var step := ScanJoin(firstChar, sandhi, leftover[1..], dict, rules, isTi);
    NextStepScans(current, dict, rules, isTi);
    match step
    case Completed(completeResult) =>
      ResolveCompleted(current, dict, rules, isTi, completeResult);
      appended := appended + completeResult;
      foundComplete := true;
    case Continued(partialResult) =>
      ResolveContinued(current, dict, rules, isTi, partialResult);
      next := Some(partialResult);
    case Unresolved =>
      ResolveUnresolved(current, dict, rules, isTi);
      // the source's `firstChar + leftover`: the leftover before its first character was split off
      var remainder := leftover;
      if remainder != [Normalize.NiggahitaAbove] {
        appended := appended + [Gloss(remainder, "?")];
      }
  }

  /** Appending one pass's matches leaves the same matches still to come. */
  lemma ChainAdvances(before: seq<Match>, appended: seq<Match>, current: Match, next: Option<Match>,
                      dict: Dict, rules: seq<EndingRule>, isTi: bool)
    requires IsPrefixHit(current, dict) && (next.Some? ==> IsPrefixHit(next.value, dict))
    requires appended + Chain(next, dict, rules, isTi) == Resolve(current, dict, rules, isTi)
    ensures (before + appended) + Chain(next, dict, rules, isTi) == before + Chain(Some(current), dict, rules, isTi)
  {
    assert (before + appended) + Chain(next, dict, rules, isTi) == before + (appended + Chain(next, dict, rules, isTi));
  }

  /** The `while` loop of `lookupCompound`, appending to the matches found so far. */
  method RunChain(prefix: seq<Match>, start: Option<Match>, dict: Dict, rules: seq<EndingRule>, isTi: bool)
    returns (allMatches: seq<Match>)
    requires start.Some? ==> IsPrefixHit(start.value, dict)
    ensures allMatches == prefix + Chain(start, dict, rules, isTi)
  {
    allMatches := prefix;
    var matchResult := start;
    var foundComplete := false;
    while matchResult.Some? && !foundComplete
      invariant matchResult.Some? ==> IsPrefixHit(matchResult.value, dict)
      invariant foundComplete ==> matchResult.None?
      invariant allMatches + Chain(matchResult, dict, rules, isTi) == prefix + Chain(start, dict, rules, isTi)
      decreases if matchResult.Some? then |matchResult.value.leftover.value| + 1 else 0
    {
      var appended, next;
      ghost var before := allMatches;
      appended, next, foundComplete := ChainStep(matchResult.value, dict, rules, isTi);
      ChainAdvances(before, appended, matchResult.value, next, dict, rules, isTi);
      allMatches := allMatches + appended;
      matchResult := next;
    }
    assert allMatches + [] == allMatches;
  }

  /**
   * The choice of the first prefix hit: the word's own, or the negation
   * stem's when that one wins, and whether the negation gloss goes first.
   */
  method ChooseStart(w: string, unword: string, dict: Dict) returns (negated: bool, matchResult: Option<Match>)
    ensures var plain := Partial(w, dict);
      var stem := if unword != [] then Partial(unword, dict) else None;
      && negated == NegatedWins(plain, stem)
      && matchResult == (if negated then stem else plain)
  {
    negated := false;
    matchResult := MatchPartial(w, dict);
    if unword != [] {
      var matchPartialResult := MatchPartial(unword, dict);
      if || (matchPartialResult.Some? && matchResult.None?)
         || (matchPartialResult.Some? && matchResult.Some? && |matchPartialResult.value.base| > |matchResult.value.base|)
      {
        matchResult := matchPartialResult;
        negated := true;
      }
    }
  }

  /** The partial branch of `lookupCompound`: the choice of the first prefix hit, then the loop. */
  method Decomposition(w: string, unword: string, dict: Dict, rules: seq<EndingRule>, isTi: bool)
    returns (allMatches: seq<Match>)
    ensures allMatches == Decompose(w, unword, dict, rules, isTi)
  {
    allMatches := [];
    var negated, matchResult := ChooseStart(w, unword, dict);
    if negated {
      allMatches := allMatches + [NegGloss];
    }
    allMatches := RunChain(allMatches, matchResult, dict, rules, isTi);
  }

  /** The second complete reading `lookupCompound` tries: that of the negation stem. */
  method ReadNegated(unword: string, dict: Dict, rules: seq<EndingRule>, isTi: bool) returns (allMatches: seq<Match>)
    ensures allMatches == NegatedReading(unword, dict, rules, isTi)
  {
    allMatches := [];
    var matchResult := MatchComplete(unword, dict, rules, isTi);
    if matchResult.Some? && |matchResult.value| > 0 {
      allMatches := allMatches + [NegGloss] + matchResult.value;
      assert allMatches == [NegGloss] + matchResult.value;
    }
  }

  /** The complete readings tried first by `lookupCompound`, with the negation stem they used. */
  method ReadWhole(w: string, dict: Dict, rules: seq<EndingRule>, isTi: bool) returns (allMatches: seq<Match>, unword: string)
    ensures unword == WholeReading(w, dict, rules, isTi).0
    ensures allMatches == WholeReading(w, dict, rules, isTi).1
  {
    allMatches := [];
    unword := [];
    var matchResult := MatchComplete(w, dict, rules, isTi);
    if matchResult.Some? && |matchResult.value| > 0 {
      allMatches := allMatches + matchResult.value;
    } else {
      unword := NegationStem(w);
      if unword != [] {
        allMatches := ReadNegated(unword, dict, rules, isTi);
      }
    }
  }

  /** `lookupCompound`, step by step as the source runs it. */
  method LookupCompound(word: string, dict: Dict, rules: seq<EndingRule>) returns (allMatches: seq<Match>)
    ensures allMatches == Compound(word, dict, rules)
  {
    var isTi := false;
    var w := word;
    if EndsWithQuotedTi(w) {
      isTi := true;
      w := w[..|w| - 3];
    }
    w := RemoveAll(w, {'\'', '"'});
    var unword;
    allMatches, unword := ReadWhole(w, dict, rules, isTi);
    if |allMatches| == 0 {
      allMatches := Decomposition(w, unword, dict, rules, isTi);
    }
    if isTi && |allMatches| > 0 {
      allMatches := allMatches + [EndQuoteGloss];
    }
  }
}
