/**
 * `lookupDpd` of `src/utils/lookup.ts`: the Digital Pali Dictionary path.
 * The inflection-to-headword table lists, for an inflected form, tags such
 * as "ta 1.1" whose first word is a headword; the deconstructor table gives
 * a compound's analysis "a + b + c". Candidate headwords are collected
 * without repetition, the analysis becomes a gloss, and each headword whose
 * dot-above spelling is a key of the dictionary becomes a hit.
 */
module Dpd {
  import opened Wrappers
  import opened Text
  import opened LookupTypes

  /** Inflected form to its headword tags. */
  type I2h = map<string, seq<string>>
  /** Compound to its analysis. */
  type Decon = map<string, string>

  const DotBelow: char := '\U{1E43}'
  const DotAbove: char := '\U{1E41}'

  predicate NoDup(s: seq<string>) {
    forall i, j :: 0 <= i < j < |s| ==> s[i] != s[j]
  }

  /** `tag.split(' ')[0]`: the headword of a tag. */
  function Root(tag: string): (r: string)
    ensures r <= tag && ' ' !in r
    ensures |r| < |tag| ==> tag[|r|] == ' '
  {
    BeforeFirst(tag, ' ')
  }

  /** `if (!hs.includes(h)) hs.push(h)`. */
  function AddUnique(hs: seq<string>, h: string): seq<string> {
    if h in hs then hs else hs + [h]
  }

  /** Adding a missing headword keeps the list free of repeats and extends its members by exactly that one. */
  lemma AddUniqueProps(hs: seq<string>, h: string)
    ensures NoDup(hs) ==> NoDup(AddUnique(hs, h))
    ensures forall x :: x in AddUnique(hs, h) <==> x in hs || x == h
    ensures hs <= AddUnique(hs, h)
  {
  }

  /** The distinct roots of the tags, in order of first appearance. */
  function Roots(tags: seq<string>): seq<string>
    decreases |tags|
  {
    if tags == [] then [] else AddUnique(Roots(tags[..|tags| - 1]), Root(tags[|tags| - 1]))
  }

  /** The roots collected never repeat and are exactly the roots of the tags. */
  lemma {:induction false} RootsProps(tags: seq<string>)
    ensures NoDup(Roots(tags))
    ensures forall h :: h in Roots(tags) <==> exists i :: 0 <= i < |tags| && Root(tags[i]) == h
    decreases |tags|
  {
    if tags != [] {
      var prefix := tags[..|tags| - 1];
      RootsProps(prefix);
      AddUniqueProps(Roots(prefix), Root(tags[|tags| - 1]));
      assert forall i :: 0 <= i < |prefix| ==> prefix[i] == tags[i];
    }
  }

  /** Some tag with root `a` comes before every tag with root `b`. */
  predicate FirstBefore(tags: seq<string>, a: string, b: string) {
    exists k :: 0 <= k < |tags| && Root(tags[k]) == a && forall l :: 0 <= l <= k ==> Root(tags[l]) != b
  }

  /** The roots come in order of first appearance among the tags. */
  lemma {:induction false} RootsInFirstAppearanceOrder(tags: seq<string>)
    ensures forall i, j :: 0 <= i < j < |Roots(tags)| ==> FirstBefore(tags, Roots(tags)[i], Roots(tags)[j])
    decreases |tags|
  {
    if tags != [] {
      var prefix := tags[..|tags| - 1];
      var earlier := Roots(prefix);
      var r := Roots(tags);
      RootsInFirstAppearanceOrder(prefix);
      RootsProps(prefix);
      AddUniqueProps(earlier, Root(tags[|tags| - 1]));
      forall i, j | 0 <= i < j < |r| ensures FirstBefore(tags, r[i], r[j]) {
        if j < |earlier| {
          assert FirstBefore(prefix, earlier[i], earlier[j]);
          var k :| 0 <= k < |prefix| && Root(prefix[k]) == earlier[i] && forall l :: 0 <= l <= k ==> Root(prefix[l]) != earlier[j];
          assert forall l :: 0 <= l <= k ==> prefix[l] == tags[l];
        } else {
          assert earlier[i] in earlier;
          var k :| 0 <= k < |prefix| && Root(prefix[k]) == earlier[i];
          assert forall l :: 0 <= l <= k ==> prefix[l] == tags[l];
        }
      }
    }
  }

  /** `gloss.split('+')[0].trim()`: the first component of an analysis. */
  function FirstComponent(gloss: string): (r: string)
    ensures '+' !in r
  {
    var r := Trim(BeforeFirst(gloss, '+'));
    TrimChars(BeforeFirst(gloss, '+'));
    assert forall c :: c in r ==> c in BeforeFirst(gloss, '+');
    r
  }

  /** The candidate headwords: roots of the word's tags, then its analysis's first component. */
  function Headwords(word: string, i2h: I2h, decon: Decon): (r: seq<string>)
  {
    var hs := if word in i2h then Roots(i2h[word]) else [];
    if word in decon then AddUnique(hs, FirstComponent(decon[word])) else hs
  }

  /**
   * The candidates are the roots of the word's tags and its analysis's first
   * component, and nothing else; the roots come first, in their order, and the
   * analysis's component, when new, comes last.
   */
  lemma HeadwordsProps(word: string, i2h: I2h, decon: Decon)
    ensures NoDup(Headwords(word, i2h, decon))
    ensures var hs := if word in i2h then Roots(i2h[word]) else [];
      var r := Headwords(word, i2h, decon);
      && hs <= r && |r| <= |hs| + 1
      && (|r| == |hs| + 1 ==> word in decon && r[|hs|] == FirstComponent(decon[word]))
    ensures forall h :: h in Headwords(word, i2h, decon) <==>
      (word in i2h && exists i :: 0 <= i < |i2h[word]| && Root(i2h[word][i]) == h)
      || (word in decon && h == FirstComponent(decon[word]))
  {
    var hs := if word in i2h then Roots(i2h[word]) else [];
    if word in i2h {
      RootsProps(i2h[word]);
    }
    AddUniqueProps(hs, if word in decon then FirstComponent(decon[word]) else []);
  }

  /** `hw.replace(/ṃ/g, 'ṁ')`: the dictionary's spelling of a headword. */
  function Normalized(hw: string): (r: string)
    ensures |r| == |hw| && DotBelow !in r
    ensures forall i :: 0 <= i < |hw| ==> r[i] == if hw[i] == DotBelow then DotAbove else hw[i]
  {
    ReplaceCharPointwise(hw, DotBelow, DotAbove);
    ReplaceAll(hw, [DotBelow], [DotAbove])
  }

  /** The hits for the headwords, in order: each one whose spelling is a key. */
  function Hits(hws: seq<string>, dict: Dict): (r: seq<Match>)
    ensures |r| <= |hws|
    ensures forall m :: m in r ==> IsDictHit(m, dict) && m.meaning.None? && m.leftover.None? && DotBelow !in m.base
    decreases |hws|
  {
    if hws == [] then []
    else
      var n := Normalized(hws[|hws| - 1]);
      Hits(hws[..|hws| - 1], dict) + (if n in dict then [Hit(n, dict[n])] else [])
  }

  /** Every headword spelt as a key gives a hit, and every hit comes from such a headword. */
  lemma {:induction false} HitsMembers(hws: seq<string>, dict: Dict)
    ensures forall m :: m in Hits(hws, dict) <==>
      exists i :: 0 <= i < |hws| && Normalized(hws[i]) in dict && m == Hit(Normalized(hws[i]), dict[Normalized(hws[i])])
    decreases |hws|
  {
    if hws != [] {
      var prefix := hws[..|hws| - 1];
      HitsMembers(prefix, dict);
      assert forall i :: 0 <= i < |prefix| ==> prefix[i] == hws[i];
    }
  }

  /** The hits keep the candidates' order: the hits of two lists one after the other are the hits of the first, then of the second. */
  lemma {:induction false} HitsAppend(a: seq<string>, b: seq<string>, dict: Dict)
    ensures Hits(a + b, dict) == Hits(a, dict) + Hits(b, dict)
    decreases |b|
  {
    if b == [] {
      assert a + b == a;
    } else {
      var front := b[..|b| - 1];
      var n := Normalized(b[|b| - 1]);
      var last := if n in dict then [Hit(n, dict[n])] else [];
      assert (a + b)[..|a + b| - 1] == a + front && (a + b)[|a + b| - 1] == b[|b| - 1];
      assert Hits(a + b, dict) == Hits(a + front, dict) + last;
      HitsAppend(a, front, dict);
      assert Hits(b, dict) == Hits(front, dict) + last;
      assert (Hits(a, dict) + Hits(front, dict)) + last == Hits(a, dict) + (Hits(front, dict) + last);
    }
  }

  /** A single candidate gives its hit when its spelling is a key, and nothing otherwise. */
  lemma HitsOfOne(hw: string, dict: Dict)
    ensures Hits([hw], dict) == if Normalized(hw) in dict then [Hit(Normalized(hw), dict[Normalized(hw)])] else []
  {
    assert [hw][..0] == [];
  }

  lemma HitsStep(hws: seq<string>, i: nat, dict: Dict)
    requires i < |hws|
    ensures var n := Normalized(hws[i]);
      Hits(hws[..i + 1], dict) == Hits(hws[..i], dict) + (if n in dict then [Hit(n, dict[n])] else [])
  {
    assert hws[..i + 1][..i] == hws[..i];
  }

  /**
   * The result of `lookupDpd`: the analysis gloss (if any), then the headword
   * hits. Every match is complete (no leftover), at most one per headword
   * plus the gloss, and everything after the first is a dictionary hit.
   */
  function DpdMatches(word: string, dict: Dict, i2h: I2h, decon: Decon): (r: seq<Match>)
    ensures |r| <= 1 + |Headwords(word, i2h, decon)|
    ensures forall m :: m in r ==> m.leftover.None?
    ensures forall k :: 1 <= k < |r| ==> IsDictHit(r[k], dict)
  {
    (if word in decon then [Gloss(word, decon[word])] else []) + Hits(Headwords(word, i2h, decon), dict)
  }

  /** A word in neither table gets no DPD matches. */
  lemma DpdEmptyWhenUnknown(word: string, dict: Dict, i2h: I2h, decon: Decon)
    requires word !in i2h && word !in decon
    ensures DpdMatches(word, dict, i2h, decon) == []
  {
  }

  /**
   * The analysis gloss comes first, when there is one; every other match is
   * a hit on the dot-above spelling of a candidate headword, and every
   * candidate headword so spelt in the dictionary gives one.
   */
  lemma DpdShape(word: string, dict: Dict, i2h: I2h, decon: Decon)
    ensures var r := DpdMatches(word, dict, i2h, decon);
      var g := if word in decon then 1 else 0;
      && g <= |r|
      && (word in decon ==> r[0] == Gloss(word, decon[word]))
      && (forall k :: g <= k < |r| ==> IsDictHit(r[k], dict) && DotBelow !in r[k].base)
      && (forall h :: h in Headwords(word, i2h, decon) && Normalized(h) in dict ==>
            Hit(Normalized(h), dict[Normalized(h)]) in r[g..])
  {
    var r := DpdMatches(word, dict, i2h, decon);
    var g := if word in decon then 1 else 0;
    var hs := Headwords(word, i2h, decon);
    assert r[g..] == Hits(hs, dict);
    forall k | g <= k < |r| ensures IsDictHit(r[k], dict) && DotBelow !in r[k].base {
      assert r[k] in Hits(hs, dict);
    }
    HitsMembers(hs, dict);
    forall h | h in hs && Normalized(h) in dict
      ensures Hit(Normalized(h), dict[Normalized(h)]) in r[g..]
    {
      var i :| 0 <= i < |hs| && hs[i] == h;
    }
  }
}

/** The loops of `lookupDpd`, each proved equal to its specification in module Dpd. */
module DpdLookup {
  import Text
  import opened LookupTypes
  import opened Dpd

  /** The first half of `lookupDpd`: the candidate headwords, collected by the tag loop and the analysis step. */
  method CollectHeadwords(word: string, i2h: I2h, decon: Decon) returns (headwords: seq<string>)
    ensures headwords == Headwords(word, i2h, decon)
  {
    headwords := [];
    if word in i2h {
      var tags := i2h[word];
      for i := 0 to |tags|
        invariant headwords == Roots(tags[..i])
      {
        var root := Text.BeforeFirst(tags[i], ' ');
        assert tags[..i + 1][..i] == tags[..i];
        if root !in headwords {
          headwords := headwords + [root];
        }
      }
      assert tags[..|tags|] == tags;
    }
    if word in decon {
      var first := Text.Trim(Text.BeforeFirst(decon[word], '+'));
      if first !in headwords {
        headwords := headwords + [first];
      }
    }
  }

  /** The last loop of `lookupDpd`: a hit for each headword whose dot-above spelling is a key. */
  method HeadwordHits(headwords: seq<string>, dict: Dict) returns (hits: seq<Match>)
    ensures hits == Hits(headwords, dict)
  {
    hits := [];
    for i := 0 to |headwords|
      invariant hits == Hits(headwords[..i], dict)
    {
      var hwNorm := Text.ReplaceAll(headwords[i], [DotBelow], [DotAbove]);
      HitsStep(headwords, i, dict);
      if hwNorm in dict {
        hits := hits + [Hit(hwNorm, dict[hwNorm])];
      }
    }
    assert headwords[..|headwords|] == headwords;
  }

  /** `lookupDpd`: the candidate headwords, the analysis gloss, then the headword hits. */
  method LookupDpd(word: string, dict: Dict, i2h: I2h, decon: Decon) returns (all: seq<Match>)
    ensures all == DpdMatches(word, dict, i2h, decon)
  {
    var headwords := CollectHeadwords(word, i2h, decon);
    var hits := HeadwordHits(headwords, dict);
    all := [];
    if word in decon {
      all := all + [Gloss(word, decon[word])];
    }
    all := all + hits;
  }
}
