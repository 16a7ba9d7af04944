/**
 * `src/utils/language.ts`: the language and the locale a browser prefers,
 * read off an `Accept-Language` header. A missing header (`null`) is `None`;
 * the empty header is treated the same way.
 */
module Language {
  import opened Wrappers
  import opened Chars
  import opened Text

  /** The header's first entry without its `;` parameters, trimmed. */
  function FirstRange(header: string): string {
    Trim(BeforeFirst(BeforeFirst(header, ','), ';'))
  }

  /**
   * `getPreferredLanguage`: the primary subtag of the first entry, or "en"
   * without a header. It never contains ',', ';' or '-': it is at most the
   * primary subtag of one range.
   */
  function PreferredLanguage(header: Option<string>): (r: string)
    ensures ',' !in r && ';' !in r && '-' !in r
  {
    if header.None? || header.value == [] then "en"
    else
      FirstRangeShape(header.value);
      SubtagChars(FirstRange(header.value));
      BeforeFirst(FirstRange(header.value), '-')
  }

  /**
   * `getPreferredLocale`: the whole first entry, region included, or "en-US"
   * without a header. It is one range: no ',' or ';', no outer white space.
   */
  function PreferredLocale(header: Option<string>): (r: string)
    ensures ',' !in r && ';' !in r && NoOuterSpace(r)
  {
    if header.None? || header.value == [] then "en-US"
    else
      FirstRangeShape(header.value);
      FirstRange(header.value)
  }

  /** The first range holds no separator of the header's own syntax and no outer white space. */
  lemma FirstRangeShape(header: string)
    ensures var r := FirstRange(header);
      && ',' !in r && ';' !in r && NoOuterSpace(r)
      && |r| <= |header|
  {
    var a := BeforeFirst(header, ',');
    var b := BeforeFirst(a, ';');
    assert ',' !in b by {
      forall c | c in b ensures c in a {
        var i :| 0 <= i < |b| && b[i] == c;
        assert a[i] == c;
      }
    }
    TrimChars(b);
    assert FirstRange(header) == Trim(b);
  }

  /** The part of a string before its first '-' brings in no character the string lacks. */
  lemma SubtagChars(f: string)
    ensures forall c :: c in BeforeFirst(f, '-') ==> c in f
  {
    var r := BeforeFirst(f, '-');
    forall c | c in r ensures c in f {
      var i :| 0 <= i < |r| && r[i] == c;
      assert f[i] == c;
    }
  }

  /** With a header, the preferred language is the preferred locale cut at its first '-'. */
  lemma LanguageOfLocale(header: string)
    requires header != []
    ensures PreferredLanguage(Some(header)) == BeforeFirst(PreferredLocale(Some(header)), '-')
  {
  }

  /** Without a header the defaults agree as well: "en" is the language of "en-US". */
  lemma DefaultsAgree(header: Option<string>)
    requires header.None? || header.value == []
    ensures PreferredLanguage(header) == "en" && PreferredLocale(header) == "en-US"
    ensures PreferredLanguage(header) == BeforeFirst(PreferredLocale(header), '-')
  {
    assert BeforeFirst("en-US", '-') == "en" by {
      assert BeforeFirst("US", '-') == "US";
      assert BeforeFirst("-US", '-') == [];
    }
  }

  /**
   * A header whose first range is a language and a region, followed by
   * parameters or further ranges: the locale keeps the region.
   */
  lemma LocaleWithRegion(lang: string, region: string, rest: string)
    requires lang != [] && !IsSpace(lang[0]) && region != [] && !IsSpace(region[|region| - 1])
    requires ',' !in lang && ';' !in lang && ',' !in region && ';' !in region
    requires rest == [] || rest[0] == ',' || rest[0] == ';'
    ensures PreferredLocale(Some(lang + "-" + region + rest)) == lang + "-" + region
  {
    RegionRangeShape(lang, region);
    FirstRangeOf(lang + "-" + region, rest);
  }

  /** For the same headers the language drops the region. */
  lemma LanguageWithRegion(lang: string, region: string, rest: string)
    requires lang != [] && !IsSpace(lang[0]) && region != [] && !IsSpace(region[|region| - 1])
    requires ',' !in lang && ';' !in lang && '-' !in lang && ',' !in region && ';' !in region
    requires rest == [] || rest[0] == ',' || rest[0] == ';'
    ensures PreferredLanguage(Some(lang + "-" + region + rest)) == lang
  {
    var h := lang + "-" + region + rest;
    LocaleWithRegion(lang, region, rest);
    LanguageOfLocale(h);
    BeforeFirstAt(lang, '-', region);
  }

  lemma RegionRangeShape(lang: string, region: string)
    requires lang != [] && !IsSpace(lang[0]) && region != [] && !IsSpace(region[|region| - 1])
    requires ',' !in lang && ';' !in lang && ',' !in region && ';' !in region
    ensures var r := lang + "-" + region; ',' !in r && ';' !in r && NoOuterSpace(r)
  {
    var r := lang + "-" + region;
    assert r[0] == lang[0] && r[|r| - 1] == region[|region| - 1];
  }

  /** A range without ',' or ';' and without outer white space is the first range of any header it starts. */
  lemma FirstRangeOf(r: string, rest: string)
    requires ',' !in r && ';' !in r && NoOuterSpace(r)
    requires rest == [] || rest[0] == ',' || rest[0] == ';'
    ensures FirstRange(r + rest) == r
  {
    var t := BeforeFirst(rest, ',');
    BeforeFirstAppend(r, rest, ',');
    assert BeforeFirst(r + rest, ',') == r + t;
    assert BeforeFirst(t, ';') == [] by {
      assert t == [] || t[0] == ';';
    }
    BeforeFirstAppend(r, t, ';');
    assert BeforeFirst(r + t, ';') == r;
    TrimFixed(r);
  }
}
