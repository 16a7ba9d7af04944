/**
 * `lookupPali` and `serializeMatch` of `src/utils/lookup.ts`: clean the word,
 * try the Digital Pali Dictionary tables when both are loaded, and fall back
 * to the compound lookup; then project each match onto what the response
 * carries.
 */
module Pali {
  import opened Wrappers
  import opened LookupTypes
  import Chars
  import Normalize
  import Dpd
  import DpdLookup
  import Compound

  /**
   * `lookupPali`: nothing for a word that cleans to "", the DPD matches when
   * there are any, else the compound lookup. Only a word that cleans to
   * something non-empty has matches.
   */
  function Pali(rawWord: string, dict: Dict, rules: seq<EndingRule>, i2h: Option<Dpd.I2h>, decon: Option<Dpd.Decon>): (r: seq<Match>)
    ensures r != [] ==> Normalize.CleanPaliWord(rawWord) != []
  {
    var cleaned := Normalize.CleanPaliWord(rawWord);
    if cleaned == [] then []
    else
      var dpdMatches := if i2h.Some? && decon.Some?
        then Dpd.DpdMatches(Normalize.NormalizeDpdWord(cleaned), dict, i2h.value, decon.value)
        else [];
      if dpdMatches != [] then dpdMatches else Compound.Compound(cleaned, dict, rules)
  }

  /** `lookupPali`, calling the DPD and compound lookups as the source does. */
  method LookupPali(rawWord: string, dict: Dict, rules: seq<EndingRule>, i2h: Option<Dpd.I2h>, decon: Option<Dpd.Decon>)
    returns (r: seq<Match>)
    ensures r == Pali(rawWord, dict, rules, i2h, decon)
  {
    var cleaned := Normalize.CleanPaliWord(rawWord);
    if cleaned == [] {
      return [];
    }
    if i2h.Some? && decon.Some? {
      var dpdWord := Normalize.NormalizeDpdWord(cleaned);
      var dpdMatches := DpdLookup.LookupDpd(dpdWord, dict, i2h.value, decon.value);
      if |dpdMatches| > 0 {
        return dpdMatches;
      }
    }
    r := Compound.LookupCompound(cleaned, dict, rules);
  }

  /**
   * A cleaned word never ends in a quoted "ti" and has no straight quotes
   * left to delete, so the compound lookup reached from `lookupPali` never
   * takes its quoted-ti branch.
   */
  lemma CleanedWordIsUnquoted(rawWord: string)
    ensures var cleaned := Normalize.CleanPaliWord(rawWord);
      && !Compound.EndsWithQuotedTi(cleaned)
      && Compound.Unquoted(cleaned) == cleaned
  {
    Normalize.CleanPaliWordIsClean(rawWord);
    CleanCharsAreUnquoted(Normalize.CleanPaliWord(rawWord));
  }

  /** A word of clean characters holds no quote mark. */
  lemma CleanCharsAreUnquoted(w: string)
    requires forall c :: c in w ==> Normalize.IsClean(c)
    ensures !Compound.EndsWithQuotedTi(w) && Compound.Unquoted(w) == w
  {
    assert '\'' in Normalize.Punctuation && '"' in Normalize.Punctuation;
    assert '\U{2018}' in Normalize.Punctuation && '\U{2019}' in Normalize.Punctuation;
    if |w| >= 3 {
      assert Normalize.IsClean(w[|w| - 3]);
    }
    Normalize.RemoveAllAbsent(w, {'\'', '"'});
  }

  /** A word of nothing but punctuation and white space has no matches, whatever the tables hold. */
  lemma BlankWordHasNoMatches(rawWord: string, dict: Dict, rules: seq<EndingRule>, i2h: Option<Dpd.I2h>, decon: Option<Dpd.Decon>)
    requires forall c :: c in rawWord ==> c in Normalize.Punctuation || Chars.IsSpace(c)
    ensures Pali(rawWord, dict, rules, i2h, decon) == []
  {
    Normalize.BlankCleansToEmpty(rawWord);
  }

  /**
   * With both DPD tables loaded, a non-empty DPD result is the answer and
   * the compound lookup is not consulted.
   */
  lemma DpdFirst(rawWord: string, dict: Dict, rules: seq<EndingRule>, i2h: Dpd.I2h, decon: Dpd.Decon)
    requires Normalize.CleanPaliWord(rawWord) != []
    requires Dpd.DpdMatches(Normalize.NormalizeDpdWord(Normalize.CleanPaliWord(rawWord)), dict, i2h, decon) != []
    ensures var r := Pali(rawWord, dict, rules, Some(i2h), Some(decon));
      r == Dpd.DpdMatches(Normalize.NormalizeDpdWord(Normalize.CleanPaliWord(rawWord)), dict, i2h, decon)
  {
  }

  /**
   * Otherwise the answer is the analysis of the cleaned word itself: the
   * quoted-ti handling of the compound lookup changes nothing, and no
   * closing "iti" gloss is ever appended.
   */
  lemma CompoundFallback(rawWord: string, dict: Dict, rules: seq<EndingRule>, i2h: Option<Dpd.I2h>, decon: Option<Dpd.Decon>)
    requires Normalize.CleanPaliWord(rawWord) != []
    requires i2h.None? || decon.None? ||
      Dpd.DpdMatches(Normalize.NormalizeDpdWord(Normalize.CleanPaliWord(rawWord)), dict, i2h.value, decon.value) == []
    ensures var r := Pali(rawWord, dict, rules, i2h, decon);
      && r == Compound.Analysis(Normalize.CleanPaliWord(rawWord), dict, rules, false)
      && EndQuoteGloss !in r
  {
    var cleaned := Normalize.CleanPaliWord(rawWord);
    FallsBackToCompound(rawWord, dict, rules, i2h, decon);
    CleanedWordIsUnquoted(rawWord);
    Compound.EndQuoteLast(cleaned, dict, rules);
  }

  /** Without a DPD answer, `lookupPali` returns the compound lookup of the cleaned word. */
  lemma FallsBackToCompound(rawWord: string, dict: Dict, rules: seq<EndingRule>, i2h: Option<Dpd.I2h>, decon: Option<Dpd.Decon>)
    requires Normalize.CleanPaliWord(rawWord) != []
    requires i2h.None? || decon.None? ||
      Dpd.DpdMatches(Normalize.NormalizeDpdWord(Normalize.CleanPaliWord(rawWord)), dict, i2h.value, decon.value) == []
    ensures Pali(rawWord, dict, rules, i2h, decon) == Compound.Compound(Normalize.CleanPaliWord(rawWord), dict, rules)
  {
  }

  // ----------------------------------------------------------- serializeMatch

  /** What the response carries for a match: the entry when there is one, else the meaning. */
  datatype Serialized = WithEntry(base: string, entry: Entry) | WithMeaning(base: string, meaning: string)

  /** `serializeMatch`: drops the leftover; a match without an entry reads "?" when it has no meaning either. */
  function SerializeMatch(m: Match): (r: Serialized)
    ensures r.base == m.base
    ensures r.WithEntry? <==> m.entry.Some?
  {
    if m.entry.Some? then WithEntry(m.base, m.entry.value)
    else WithMeaning(m.base, m.meaning.GetOr("?"))
  }

  /** Serialization forgets only the leftover: matches that differ in nothing else serialize alike. */
  lemma SerializeIgnoresLeftover(m: Match, leftover: Option<string>)
    ensures SerializeMatch(m) == SerializeMatch(m.(leftover := leftover))
  {
  }

  /**
   * A dictionary hit serializes to its key and that key's entry, and a gloss
   * to its text; the meaning of a hit, if any, is dropped.
   */
  lemma SerializeHitsAndGlosses(m: Match, dict: Dict)
    ensures IsDictHit(m, dict) ==> SerializeMatch(m) == WithEntry(m.base, dict[m.base])
    ensures m.entry.None? && m.meaning.Some? ==> SerializeMatch(m) == WithMeaning(m.base, m.meaning.value)
    ensures m.entry.None? && m.meaning.None? ==> SerializeMatch(m) == WithMeaning(m.base, "?")
  {
  }
}
