/**
 * The POST handler of `src/pages/api/lookup.ts`: a request names a list of
 * words and a language pair. Without the pair's dictionary the answer is a
 * 404; for Classical Chinese every dictionary key of 1 to 20 characters
 * found in the variant-normalised joined text is returned; for Pali each
 * word with matches is mapped to its serialized matches, the English
 * dictionary standing in for a non-English one that finds nothing.
 *
 * The tables the handler loads are inputs here: `None` for a table that
 * could not be loaded.
 */
module LookupApi {
  import opened Wrappers
  import opened LookupTypes
  import opened Text
  import Normalize
  import Dpd
  import Pali

  /** The longest key the Chinese scan looks for. */
  const MaxKeyLength: nat := 20

  function Min(a: int, b: int): int {
    if a <= b then a else b
  }

  /** `words.join('')`. */
  function Join(words: seq<string>): string {
    if words == [] then [] else Join(words[..|words| - 1]) + words[|words| - 1]
  }

  // ----------------------------------------------------------- the Chinese scan

  /** The keys starting at position `i` with lengths 1 to `len`. */
  function KeysAt(text: string, dict: Dict, i: nat, len: nat): set<string>
    decreases len
  {
    if len == 0 then {}
    else
      var found := if i + len <= |text| && text[i..i + len] in dict then {text[i..i + len]} else {};
      KeysAt(text, dict, i, len - 1) + found
  }

  /** The keys the scan has found once it has passed the first `i` positions. */
  function Scanned(text: string, dict: Dict, i: nat): set<string>
    requires i <= |text|
  {
    if i == 0 then {}
    else Scanned(text, dict, i - 1) + KeysAt(text, dict, i - 1, Min(MaxKeyLength, |text| - (i - 1)))
  }

  /** The result of the Chinese scan: each key found, mapped to its entry. */
  function HanziFound(text: string, dict: Dict): map<string, Entry> {
    map k | k in dict && k in Scanned(text, dict, |text|) :: dict[k]
  }

  /** The keys at one position are the dictionary keys of the allowed lengths occurring there. */
  lemma {:induction false} KeysAtMembers(text: string, dict: Dict, i: nat, len: nat)
    ensures forall k :: k in KeysAt(text, dict, i, len) <==> k in dict && 1 <= |k| <= len && OccursAt(text, k, i)
    decreases len
  {
    if len > 0 {
      KeysAtMembers(text, dict, i, len - 1);
    }
  }

  /** The keys found before position `i` are the dictionary keys of 1 to 20 characters occurring before it. */
  lemma {:induction false} ScannedMembers(text: string, dict: Dict, i: nat)
    requires i <= |text|
    ensures forall k :: k in Scanned(text, dict, i) <==>
      k in dict && 1 <= |k| <= MaxKeyLength && exists j :: 0 <= j < i && OccursAt(text, k, j)
  {
    if i > 0 {
      ScannedMembers(text, dict, i - 1);
      KeysAtMembers(text, dict, i - 1, Min(MaxKeyLength, |text| - (i - 1)));
      forall k | k in dict && 1 <= |k| <= MaxKeyLength && OccursAt(text, k, i - 1)
        ensures k in KeysAt(text, dict, i - 1, Min(MaxKeyLength, |text| - (i - 1)))
      {
      }
    }
  }

  /**
   * The Chinese scan reports exactly the dictionary keys of 1 to 20
   * characters that occur in the text, each with its own entry; a longer
   * key is never reported, even when it occurs.
   */
  lemma HanziFoundKeys(text: string, dict: Dict)
    ensures forall k :: k in HanziFound(text, dict) <==> k in dict && 1 <= |k| <= MaxKeyLength && Contains(text, k)
    ensures forall k :: k in HanziFound(text, dict) ==> HanziFound(text, dict)[k] == dict[k]
  {
    ScannedMembers(text, dict, |text|);
    forall k | k in dict && 1 <= |k| <= MaxKeyLength
      ensures Contains(text, k) <==> exists j :: 0 <= j < |text| && OccursAt(text, k, j)
    {
      ContainsIffOccurs(text, k);
    }
  }

  /** Every recorded key is a dictionary key mapped to its own entry. */
  predicate RecordsEntries(result: map<string, Entry>, dict: Dict) {
    forall k :: k in result ==> k in dict && result[k] == dict[k]
  }

  /** The inner `len` loop: records the keys starting at position `i` that are not yet recorded. */
  method ScanPosition(text: string, dict: Dict, i: nat, found: map<string, Entry>) returns (result: map<string, Entry>)
    requires i < |text| && RecordsEntries(found, dict)
    ensures result.Keys == found.Keys + KeysAt(text, dict, i, Min(MaxKeyLength, |text| - i))
    ensures RecordsEntries(result, dict)
  {
    result := found;
    var bound := Min(MaxKeyLength, |text| - i);
    for len := 1 to bound + 1
      invariant result.Keys == found.Keys + KeysAt(text, dict, i, len - 1)
      invariant RecordsEntries(result, dict)
    {
      var substr := text[i..i + len];
      assert KeysAt(text, dict, i, len) == KeysAt(text, dict, i, len - 1) + (if substr in dict then {substr} else {});
      if substr in dict && substr !in result {
        result := result[substr := dict[substr]];
      }
    }
  }

  /** The nested `i`/`len` loops of the Chinese branch, filling the result record in place. */
  method ScanHanzi(text: string, dict: Dict) returns (result: map<string, Entry>)
    ensures result == HanziFound(text, dict)
  {
    result := map[];
    for i := 0 to |text|
      invariant result.Keys == Scanned(text, dict, i)
      invariant RecordsEntries(result, dict)
    {
      result := ScanPosition(text, dict, i, result);
    }
    assert forall k :: k in result <==> k in HanziFound(text, dict);
  }

  // ----------------------------------------------------------- the Pali loop

  /**
   * The matches kept for one word: those found in the primary dictionary,
   * else those found in the English one when it is in play.
   */
  function WordMatches(word: string, dict: Dict, enDict: Option<Dict>, rules: seq<EndingRule>,
                       i2h: Option<Dpd.I2h>, decon: Option<Dpd.Decon>): seq<Match>
  {
    var matches := Pali.Pali(word, dict, rules, i2h, decon);
    if matches == [] && enDict.Some? then Pali.Pali(word, enDict.value, rules, i2h, decon) else matches
  }

  /** `matches.map(serializeMatch)`. */
  function SerializeAll(ms: seq<Match>): (r: seq<Pali.Serialized>)
    ensures |r| == |ms|
    ensures forall k :: 0 <= k < |ms| ==> r[k] == Pali.SerializeMatch(ms[k])
  {
    if ms == [] then [] else SerializeAll(ms[..|ms| - 1]) + [Pali.SerializeMatch(ms[|ms| - 1])]
  }

  /** The lookup the Pali branch runs for each word. */
  function WordLookup(dict: Dict, enDict: Option<Dict>, rules: seq<EndingRule>,
                      i2h: Option<Dpd.I2h>, decon: Option<Dpd.Decon>): string -> seq<Match>
  {
    word => WordMatches(word, dict, enDict, rules, i2h, decon)
  }

  /**
   * The result record after the per-word loop, for the per-word lookup
   * `matchesOf`: a word is recorded only when it has matches.
   */
  function PaliResults(words: seq<string>, matchesOf: string -> seq<Match>): map<string, seq<Pali.Serialized>> {
    if words == [] then map[]
    else
      var prev := PaliResults(words[..|words| - 1], matchesOf);
      var word := words[|words| - 1];
      var matches := matchesOf(word);
      if matches != [] then prev[word := SerializeAll(matches)] else prev
  }

  /**
   * A word is a key of the result exactly when it was asked for and has
   * matches, and it maps to those matches serialized in order; a word
   * without matches is absent rather than mapped to an empty list.
   */
  lemma {:induction false} PaliResultsKeys(words: seq<string>, matchesOf: string -> seq<Match>)
    ensures var r := PaliResults(words, matchesOf);
      forall w :: (w in r <==> w in words && matchesOf(w) != []) && (w in r ==> r[w] == SerializeAll(matchesOf(w)))
  {
    if words != [] {
      var init := words[..|words| - 1];
      PaliResultsKeys(init, matchesOf);
      assert words == init + [words[|words| - 1]];
    }
  }

  /**
   * The English dictionary is consulted for a word only when it is in play
   * and the primary dictionary gave no matches.
   */
  lemma EnglishOnlyAsFallback(word: string, dict: Dict, enDict: Option<Dict>, rules: seq<EndingRule>,
                              i2h: Option<Dpd.I2h>, decon: Option<Dpd.Decon>)
    ensures var primary := Pali.Pali(word, dict, rules, i2h, decon);
      && (primary != [] || enDict.None? ==> WordMatches(word, dict, enDict, rules, i2h, decon) == primary)
      && (primary == [] && enDict.Some? ==>
            WordMatches(word, dict, enDict, rules, i2h, decon) == Pali.Pali(word, enDict.value, rules, i2h, decon))
  {
  }

  /** One pass of the per-word loop: the primary dictionary, then the English one if it is in play. */
  method MatchWord(word: string, dict: Dict, enDict: Option<Dict>, rules: seq<EndingRule>,
                   i2h: Option<Dpd.I2h>, decon: Option<Dpd.Decon>)
    returns (matches: seq<Match>)
    ensures matches == WordLookup(dict, enDict, rules, i2h, decon)(word)
  {
    matches := Pali.LookupPali(word, dict, rules, i2h, decon);
    if |matches| == 0 && enDict.Some? {
      matches := Pali.LookupPali(word, enDict.value, rules, i2h, decon);
    }
  }

  /** One more word of the loop: recorded when it has matches, else the record is unchanged. */
  lemma PaliResultsStep(words: seq<string>, i: nat, matchesOf: string -> seq<Match>)
    requires i < |words|
    ensures matchesOf(words[i]) != [] ==>
      PaliResults(words[..i + 1], matchesOf) == PaliResults(words[..i], matchesOf)[words[i] := SerializeAll(matchesOf(words[i]))]
    ensures matchesOf(words[i]) == [] ==> PaliResults(words[..i + 1], matchesOf) == PaliResults(words[..i], matchesOf)
  {
    assert words[..i + 1][..i] == words[..i];
  }

  /** The per-word loop of the Pali branch. */
  method LookupWords(words: seq<string>, dict: Dict, enDict: Option<Dict>, rules: seq<EndingRule>,
                     i2h: Option<Dpd.I2h>, decon: Option<Dpd.Decon>)
    returns (result: map<string, seq<Pali.Serialized>>)
    ensures result == PaliResults(words, WordLookup(dict, enDict, rules, i2h, decon))
  {
    ghost var matchesOf := WordLookup(dict, enDict, rules, i2h, decon);
    result := map[];
    for i := 0 to |words|
      invariant result == PaliResults(words[..i], matchesOf)
    {
      var word := words[i];
      var matches := MatchWord(word, dict, enDict, rules, i2h, decon);
      PaliResultsStep(words, i, matchesOf);
      if |matches| > 0 {
        result := result[word := SerializeAll(matches)];
      }
    }
    assert words[..|words|] == words;
  }

  // ----------------------------------------------------------- the handler

  /** The response body: the literal "{}", or the JSON record of either branch. */
  datatype Body = EmptyObject | HanziBody(entries: map<string, Entry>) | PaliBody(results: map<string, seq<Pali.Serialized>>)

  datatype Response = Response(status: int, body: Body)

  /**
   * The handler. `dict` is the dictionary of the requested pair, `enAsset`
   * the English Pali dictionary, `variants` the character-variant table and
   * `rules` the ending table. The answer is 200, or 404 with an empty
   * object when the pair has no dictionary.
   */
  function Post(words: seq<string>, from: string, to: string, dict: Option<Dict>,
                variants: map<char, char>, rules: seq<EndingRule>,
                i2h: Option<Dpd.I2h>, decon: Option<Dpd.Decon>, enAsset: Option<Dict>): (r: Response)
    ensures r.status == 200 || r.status == 404
    ensures r.status == 404 ==> r.body == EmptyObject
  {
    if dict.None? then Response(404, EmptyObject)
    else if from == "lzh" then
      Response(200, HanziBody(HanziFound(Normalize.NormalizeHanzi(Join(words), variants), dict.value)))
    else
      var enDict := if to != "en" then enAsset else None;
      Response(200, PaliBody(PaliResults(words, WordLookup(dict.value, enDict, rules, i2h, decon))))
  }

  /**
   * A missing dictionary, and only that, gives status 404 with body "{}";
   * every other answer, even one that found nothing, is a success carrying
   * the results of the branch the source language selects. (`EmptyObject`
   * and an empty result map both serialise to "{}"; the model keeps them
   * apart by constructor, the program by status.)
   */
  lemma MissingDictionaryIs404(words: seq<string>, from: string, to: string, dict: Option<Dict>,
                               variants: map<char, char>, rules: seq<EndingRule>,
                               i2h: Option<Dpd.I2h>, decon: Option<Dpd.Decon>, enAsset: Option<Dict>)
    ensures var r := Post(words, from, to, dict, variants, rules, i2h, decon, enAsset);
      && (r.status == 404 <==> dict.None?)
      && (dict.None? ==> r.body == EmptyObject)
      && (dict.Some? ==> r.status == 200 && (if from == "lzh" then r.body.HanziBody? else r.body.PaliBody?))
  {
  }

  /**
   * The Chinese branch reports the dictionary keys of 1 to 20 characters in
   * the normalised joined text and never looks at the Pali tables.
   */
  lemma ChineseBranch(words: seq<string>, to: string, dict: Dict, variants: map<char, char>, rules: seq<EndingRule>,
                      i2h: Option<Dpd.I2h>, decon: Option<Dpd.Decon>, enAsset: Option<Dict>)
    ensures var r := Post(words, "lzh", to, Some(dict), variants, rules, i2h, decon, enAsset);
      var text := Normalize.NormalizeHanzi(Join(words), variants);
      && r == Post(words, "lzh", to, Some(dict), variants, [], None, None, None)
      && r.body.HanziBody?
      && (forall k :: k in r.body.entries <==> k in dict && 1 <= |k| <= MaxKeyLength && Contains(text, k))
      && (forall k :: k in r.body.entries ==> r.body.entries[k] == dict[k])
  {
    HanziFoundKeys(Normalize.NormalizeHanzi(Join(words), variants), dict);
  }

  /**
   * The Pali branch records exactly the words with matches; the English
   * dictionary is in play only for a target language other than English.
   */
  lemma PaliBranch(words: seq<string>, from: string, to: string, dict: Dict, variants: map<char, char>,
                   rules: seq<EndingRule>, i2h: Option<Dpd.I2h>, decon: Option<Dpd.Decon>, enAsset: Option<Dict>)
    requires from != "lzh"
    ensures var r := Post(words, from, to, Some(dict), variants, rules, i2h, decon, enAsset);
      var enDict := if to != "en" then enAsset else None;
      && r.body.PaliBody?
      && (forall w :: w in r.body.results <==> w in words && WordMatches(w, dict, enDict, rules, i2h, decon) != [])
      && (to == "en" ==> forall w :: w in r.body.results ==>
            r.body.results[w] == SerializeAll(Pali.Pali(w, dict, rules, i2h, decon)))
  {
    var enDict := if to != "en" then enAsset else None;
    PaliResultsKeys(words, WordLookup(dict, enDict, rules, i2h, decon));
  }

  /** The handler, step by step as the source runs it. */
  method HandlePost(words: seq<string>, from: string, to: string, dict: Option<Dict>,
                    variants: map<char, char>, rules: seq<EndingRule>,
                    i2h: Option<Dpd.I2h>, decon: Option<Dpd.Decon>, enAsset: Option<Dict>)
    returns (response: Response)
    ensures response == Post(words, from, to, dict, variants, rules, i2h, decon, enAsset)
  {
    if dict.None? {
      return Response(404, EmptyObject);
    }
    if from == "lzh" {
      var text := Normalize.NormalizeHanzi(Join(words), variants);
      var result := ScanHanzi(text, dict.value);
      return Response(200, HanziBody(result));
    }
    var enDict := if to != "en" then enAsset else None;
    var result := LookupWords(words, dict.value, enDict, rules, i2h, decon);
    return Response(200, PaliBody(result));
  }
}
