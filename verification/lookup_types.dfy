/**
 * Values shared by the dictionary-lookup engine (`src/utils/lookup.ts`):
 * dictionary entries, the `PaliMatch` candidate record, the fixed gloss
 * matches the engine synthesises, and the ending-rule 4-tuples.
 */
module LookupTypes {
  import opened Wrappers

  /** `string | string[]` as found in an entry's definition and cross-reference fields. */
  datatype Definition = One(text: string) | Many(items: seq<string>)

  /** `LookupEntry`: definition, optional grammar tag, cross-reference(s) and pronunciation. */
  datatype Entry = Entry(d: Definition, g: Option<string>, x: Option<Definition>, p: Option<string>)

  /** A headword dictionary; a key is present exactly when `dict[key]` is truthy. */
  type Dict = map<string, Entry>

  /**
   * `PaliMatch`: a dictionary hit carries an entry, a gloss carries a meaning,
   * and a prefix hit of the decomposer also carries the unconsumed leftover.
   */
  datatype Match = Match(base: string, entry: Option<Entry>, meaning: Option<string>, leftover: Option<string>)

  function Hit(base: string, entry: Entry): Match {
    Match(base, Some(entry), None, None)
  }

  function Gloss(base: string, meaning: string): Match {
    Match(base, None, Some(meaning), None)
  }

  /** The enclitic "pi" ("too"), the negation prefix and the closing-quote particle. */
  const PiGloss: Match := Gloss("pi", "too")
  const NegGloss: Match := Gloss("an", "non/not")
  const EndQuoteGloss: Match := Gloss("iti", "endquote")

  /** `m` is a hit on a key of `dict`, carrying that key's entry. */
  predicate IsDictHit(m: Match, dict: Dict) {
    m.entry.Some? && m.base in dict && m.entry.value == dict[m.base]
  }

  /** One `PALI_ENDINGS` row: `[ending, keepChars, minLen, replacement]`. */
  datatype EndingRule = EndingRule(ending: string, keepChars: int, minLen: int, replacement: string)
}
