/**
 * `src/i18n/index.ts`: the interface strings of the site.  At start-up every
 * translation file `./locales/<locale>/<file>.json` is merged into one record
 * per locale; `t` then looks a key up in the reader's locale, falls back to
 * English and then to the key itself, fills in `{name}` placeholders and
 * trims the result.
 *
 * The files arrive as an ordered list of (path, record) pairs, in the order
 * the loop visits them; the records are string-to-string maps.
 */
module I18n {
  import opened Wrappers
  import opened Chars
  import opened Text

  /** Every locale's merged record: locale -> key -> translated string. */
  type Translations = map<string, map<string, string>>

  /** One translation file: its path and the record it exports. */
  type LocaleModule = (string, map<string, string>)

  // ------------------------------------------------------------ file paths

  /** The fixed part the path pattern starts with. */
  const LocalesDir: string := "./locales/"

  /** The fixed part the path pattern ends with. */
  const JsonExt: string := ".json"

  /** The path of the file `file` of locale `locale`. */
  function LocaleFile(locale: string, file: string): string {
    LocalesDir + (locale + ("/" + (file + JsonExt)))
  }

  /** A locale or file name the pattern's `[^/]+` accepts. */
  predicate IsSegment(s: string) {
    s != [] && '/' !in s
  }

  /**
   * The pattern `\.\/locales\/([^/]+)\/([^/]+)\.json$` tried at the start of
   * `s`: the locale runs up to the next '/', and the file name is everything
   * after it but the extension, which must end the string.
   */
  function MatchHere(s: string): Option<(string, string)> {
    if |s| < |LocalesDir| || s[..|LocalesDir|] != LocalesDir then None
    else
      var rest := s[|LocalesDir|..];
      var locale := BeforeFirst(rest, '/');
      if locale == [] || |locale| == |rest| then None
      else
        var tail := rest[|locale| + 1..];
        if '/' in tail || |tail| <= |JsonExt| || tail[|tail| - |JsonExt|..] != JsonExt then None
        else Some((locale, tail[..|tail| - |JsonExt|]))
  }

  /** The unanchored search: the leftmost position from `p` on where the pattern matches. */
  function MatchFrom(path: string, p: nat): Option<(string, string)>
    requires p <= |path|
    decreases |path| - p
  {
    var here := MatchHere(path[p..]);
    if here.Some? then here
    else if p == |path| then None
    else MatchFrom(path, p + 1)
  }

  /**
   * `path.match(...)`: the locale and the file name, or `None` when the path
   * does not match. Both captures are non-empty and free of '/';
   * `ParsePathIff` says which paths match.
   */
  function ParsePath(path: string): (r: Option<(string, string)>)
    ensures r.Some? ==> IsSegment(r.value.0) && IsSegment(r.value.1)
  {
    if MatchFrom(path, 0).Some? then
      MatchFromLocaleFile(path, 0);
      MatchFrom(path, 0)
    else None
  }

  /** A match at the start of a string means the string is a locale file's path. */
  lemma MatchHereSound(s: string)
    requires MatchHere(s).Some?
    ensures var (locale, file) := MatchHere(s).value;
      IsSegment(locale) && IsSegment(file) && s == LocaleFile(locale, file)
  {
    var (locale, file) := MatchHere(s).value;
    var rest := s[|LocalesDir|..];
    var tail := rest[|locale| + 1..];
    assert s == LocalesDir + rest;
    assert tail == file + JsonExt;
    assert rest[..|locale|] == locale;
    assert rest == locale + ("/" + tail) by {
      assert rest[|locale|] == '/';
      assert rest == rest[..|locale|] + ([rest[|locale|]] + rest[|locale| + 1..]);
    }
    forall c | c in file ensures c in tail {
      var i :| 0 <= i < |file| && file[i] == c;
      assert tail[i] == c;
    }
  }

  /** A locale file's path matches at its start, giving back its locale and file name. */
  lemma MatchHereComplete(locale: string, file: string)
    requires IsSegment(locale) && IsSegment(file)
    ensures MatchHere(LocaleFile(locale, file)) == Some((locale, file))
  {
    var s := LocaleFile(locale, file);
    var tail := file + JsonExt;
    var rest := locale + ("/" + tail);
    assert s[..|LocalesDir|] == LocalesDir && s[|LocalesDir|..] == rest;
    BeforeFirstAppend(locale, "/" + tail, '/');
    assert BeforeFirst("/" + tail, '/') == [];
    assert locale + [] == locale;
    assert BeforeFirst(rest, '/') == locale;
    assert rest[|locale| + 1..] == tail;
    assert '/' !in JsonExt;
    assert '/' !in tail by {
      forall i | 0 <= i < |tail| ensures tail[i] != '/' {
        if i < |file| {
          assert tail[i] == file[i];
        } else {
          assert tail[i] == JsonExt[i - |file|];
        }
      }
    }
    assert tail[|tail| - |JsonExt|..] == JsonExt;
    assert tail[..|tail| - |JsonExt|] == file;
    assert |rest| > |locale|;
  }

  /** Every locale file's path holds the same number of slashes: those of the directory and one more. */
  lemma SlashesOfLocaleFile(locale: string, file: string)
    requires IsSegment(locale) && IsSegment(file)
    ensures multiset(LocaleFile(locale, file))['/'] == multiset(LocalesDir)['/'] + 1
  {
    var tail := file + JsonExt;
    assert '/' !in JsonExt;
    assert multiset(tail) == multiset(file) + multiset(JsonExt);
    assert multiset(tail)['/'] == 0;
    assert multiset("/" + tail)['/'] == 1 by {
      assert multiset("/" + tail) == multiset("/") + multiset(tail);
    }
    assert multiset(locale + ("/" + tail))['/'] == 1 by {
      assert multiset(locale + ("/" + tail)) == multiset(locale) + multiset("/" + tail);
    }
    assert multiset(LocaleFile(locale, file)) == multiset(LocalesDir) + multiset(locale + ("/" + tail));
  }

  /**
   * No match can start before the one at the start of a locale file's path:
   * the longer suffix would hold more slashes than three.
   */
  lemma NoEarlierMatch(path: string, q: nat, p: nat, l0: string, f0: string)
    requires p < q <= |path|
    requires IsSegment(l0) && IsSegment(f0) && path[q..] == LocaleFile(l0, f0)
    ensures MatchHere(path[p..]).None?
  {
    var u := path[p..];
    if MatchHere(u).Some? {
      MatchHereSound(u);
      var (l1, f1) := MatchHere(u).value;
      assert u == path[p..q] + path[q..];
      NoNestedLocaleFile(path[p..q], l0, f0, l1, f1);
    }
  }

  /** A locale file's path is never a proper suffix of another one. */
  lemma NoNestedLocaleFile(gap: string, l0: string, f0: string, l1: string, f1: string)
    requires gap != []
    requires IsSegment(l0) && IsSegment(f0) && IsSegment(l1) && IsSegment(f1)
    ensures gap + LocaleFile(l0, f0) != LocaleFile(l1, f1)
  {
    var u, v := LocaleFile(l1, f1), LocaleFile(l0, f0);
    if gap + v == u {
      SlashesOfLocaleFile(l0, f0);
      SlashesOfLocaleFile(l1, f1);
      SlashesOfAppend(gap, v);
      LocaleFileStart(l0, f0);
      LocaleFileStart(l1, f1);
    }
  }

  /** Slashes of a concatenation. */
  lemma SlashesOfAppend(a: string, b: string)
    ensures multiset(a + b)['/'] == multiset(a)['/'] + multiset(b)['/']
  {
    assert multiset(a + b) == multiset(a) + multiset(b);
  }

  /** A locale file's path starts with "./". */
  lemma LocaleFileStart(locale: string, file: string)
    ensures var s := LocaleFile(locale, file); |s| >= 2 && s[0] == '.' && s[1] == '/'
  {
    var s := LocaleFile(locale, file);
    assert s[..|LocalesDir|] == LocalesDir;
    assert s[1] == LocalesDir[1];
  }

  /** The search finds a match exactly where one is: the path ends in a locale file's path. */
  lemma {:induction false} MatchFromFinds(path: string, p: nat, q: nat)
    requires p <= q <= |path|
    requires MatchHere(path[q..]).Some?
    requires forall k :: p <= k < q ==> MatchHere(path[k..]).None?
    ensures MatchFrom(path, p) == MatchHere(path[q..])
    decreases q - p
  {
    if p < q {
      MatchFromFinds(path, p + 1, q);
    }
  }

  /** A search that succeeds found a match somewhere at or after its start. */
  lemma {:induction false} MatchFromSound(path: string, p: nat)
    requires p <= |path|
    requires MatchFrom(path, p).Some?
    ensures exists q :: p <= q <= |path| && MatchHere(path[q..]) == MatchFrom(path, p)
    decreases |path| - p
  {
    if MatchHere(path[p..]).None? {
      MatchFromSound(path, p + 1);
    }
  }

  /**
   * `ParsePath` gives `(locale, file)` exactly when both are non-empty and
   * slash-free and the path ends in `./locales/<locale>/<file>.json`; the
   * pattern is not anchored at the start.
   */
  lemma ParsePathIff(path: string, locale: string, file: string)
    ensures ParsePath(path) == Some((locale, file)) <==>
      IsSegment(locale) && IsSegment(file) && EndsWith(path, LocaleFile(locale, file))
  {
    if ParsePath(path) == Some((locale, file)) {
      MatchFromLocaleFile(path, 0);
    }
    if IsSegment(locale) && IsSegment(file) && EndsWith(path, LocaleFile(locale, file)) {
      ParsePathComplete(path, locale, file);
    }
  }

  /** A successful search from `p` found a locale file the path ends in. */
  lemma MatchFromLocaleFile(path: string, p: nat)
    requires p <= |path| && MatchFrom(path, p).Some?
    ensures var (locale, file) := MatchFrom(path, p).value;
      IsSegment(locale) && IsSegment(file) && EndsWith(path, LocaleFile(locale, file))
  {
    MatchFromSound(path, p);
    var q :| p <= q <= |path| && MatchHere(path[q..]) == MatchFrom(path, p);
    MatchHereSound(path[q..]);
  }

  /** A path ending in a locale file's path parses to that file's locale and name. */
  lemma ParsePathComplete(path: string, locale: string, file: string)
    requires IsSegment(locale) && IsSegment(file) && EndsWith(path, LocaleFile(locale, file))
    ensures ParsePath(path) == Some((locale, file))
  {
    var q := |path| - |LocaleFile(locale, file)|;
    MatchHereComplete(locale, file);
    forall k | 0 <= k < q ensures MatchHere(path[k..]).None? {
      NoEarlierMatch(path, q, k, locale, file);
    }
    MatchFromFinds(path, 0, q);
  }

  /** In particular a path that does not end in ".json" is skipped. */
  lemma NonJsonSkipped(path: string)
    requires !EndsWith(path, JsonExt)
    ensures ParsePath(path).None?
  {
    if ParsePath(path).Some? {
      var (locale, file) := ParsePath(path).value;
      ParsePathIff(path, locale, file);
    }
  }

  // ------------------------------------------------------------ merging

  /** The file is one of locale `locale`'s. */
  predicate ForLocale(path: string, locale: string) {
    var m := ParsePath(path);
    m.Some? && m.value.0 == locale
  }

  /**
   * One turn of the loading loop: a matching file's record is spread over its
   * locale's record (created empty when missing), its own keys winning.
   */
  function AddModule(tr: Translations, m: LocaleModule): Translations {
    var parsed := ParsePath(m.0);
    if parsed.None? then tr
    else
      var locale := parsed.value.0;
      var current := if locale in tr then tr[locale] else map[];
      tr[locale := current + m.1]
  }

  /**
   * The translations after the loop has visited `modules` in order: every
   * locale they hold is a name the path pattern accepts.
   */
  function Merged(modules: seq<LocaleModule>): (r: Translations)
    ensures forall locale :: locale in r ==> IsSegment(locale)
  {
    if modules == [] then map[]
    else AddModule(Merged(modules[..|modules| - 1]), modules[|modules| - 1])
  }

  /** The loading loop of the module, over the files in the order it visits them. */
  method LoadTranslations(modules: seq<LocaleModule>) returns (translations: Translations)
    ensures translations == Merged(modules)
  {
    translations := map[];
    var i := 0;
    while i < |modules|
      invariant i <= |modules|
      invariant translations == Merged(modules[..i])
    {
      var (path, record) := modules[i];
      var parsed := ParsePath(path);
      if parsed.Some? {
        var locale := parsed.value.0;
        if locale !in translations {
          translations := translations[locale := map[]];
        }
        translations := translations[locale := translations[locale] + record];
      }
      assert modules[..i + 1][..i] == modules[..i];
      i := i + 1;
    }
    assert modules[..|modules|] == modules;
  }

  /**
   * Reference reading of the merge: the value of `key` for `locale` comes from
   * the last file of that locale whose record has the key.
   */
  function LastWith(modules: seq<LocaleModule>, locale: string, key: string): Option<string> {
    if modules == [] then None
    else
      var m := modules[|modules| - 1];
      if ForLocale(m.0, locale) && key in m.1 then Some(m.1[key])
      else LastWith(modules[..|modules| - 1], locale, key)
  }

  /** The merged record of a locale has a key exactly when some file of the locale has it, and later files win. */
  lemma {:induction false} MergedLookup(modules: seq<LocaleModule>, locale: string, key: string)
    ensures (locale in Merged(modules) && key in Merged(modules)[locale]) <==> LastWith(modules, locale, key).Some?
    ensures LastWith(modules, locale, key).Some? ==> Merged(modules)[locale][key] == LastWith(modules, locale, key).value
  {
    if modules != [] {
      MergedLookup(modules[..|modules| - 1], locale, key);
    }
  }

  /** A locale has a record exactly when at least one file of the list belongs to it. */
  lemma {:induction false} MergedLocales(modules: seq<LocaleModule>, locale: string)
    ensures locale in Merged(modules) <==> exists i :: 0 <= i < |modules| && ForLocale(modules[i].0, locale)
  {
    if modules != [] {
      var init, n := modules[..|modules| - 1], |modules| - 1;
      MergedLocales(init, locale);
      MergedLocalesStep(modules, locale);
      if locale in Merged(init) {
        var i :| 0 <= i < |init| && ForLocale(init[i].0, locale);
        assert modules[i] == init[i];
      } else if ForLocale(modules[n].0, locale) {
        assert 0 <= n < |modules| && ForLocale(modules[n].0, locale);
      }
      if i :| 0 <= i < |modules| && ForLocale(modules[i].0, locale) {
        if i < n {
          assert init[i] == modules[i];
        }
      }
    }
  }

  /** The last module adds its own locale, if any, to those merged before it. */
  lemma MergedLocalesStep(modules: seq<LocaleModule>, locale: string)
    requires modules != []
    ensures locale in Merged(modules) <==> locale in Merged(modules[..|modules| - 1]) || ForLocale(modules[|modules| - 1].0, locale)
  {
  }

  /** Files whose path does not match change nothing, wherever they come in the list. */
  lemma {:induction false} UnmatchedIgnored(before: seq<LocaleModule>, m: LocaleModule, after: seq<LocaleModule>)
    requires ParsePath(m.0).None?
    ensures Merged(before + [m] + after) == Merged(before + after)
    decreases |after|
  {
    if after == [] {
      assert before + [m] + after == before + [m];
      assert (before + [m])[..|before|] == before;
      assert before + after == before;
    } else {
      var init := after[..|after| - 1];
      UnmatchedIgnored(before, m, init);
      assert (before + [m] + after)[..|before + [m] + after| - 1] == before + [m] + init;
      assert (before + after)[..|before + after| - 1] == before + init;
    }
  }

  // ------------------------------------------------------------ t()

  /** The values a caller passes for placeholders: strings, integers, booleans and `null`. */
  datatype Value = Str(s: string) | Num(n: int) | Bool(b: bool) | Null

  /** JavaScript truthiness of a value. */
  predicate Truthy(v: Value) {
    match v
    case Str(s) => s != []
    case Num(n) => n != 0
    case Bool(b) => b
    case Null => false
  }

  /** The decimal digit of `d`. */
  function Digit(d: nat): char
    requires d < 10
  {
    "0123456789"[d]
  }

  predicate IsDigit(c: char) {
    '0' <= c <= '9'
  }

  /** Decimal notation of a natural number, without leading zeros. */
  function NatToString(n: nat): (r: string)
    ensures r != []
    ensures forall i :: 0 <= i < |r| ==> IsDigit(r[i])
    ensures r[0] == '0' ==> n == 0 && r == "0"
  {
    if n < 10 then [Digit(n)] else NatToString(n / 10) + [Digit(n % 10)]
  }

  /** The number a string of decimal digits denotes. */
  function DigitsValue(s: string): nat
    requires forall i :: 0 <= i < |s| ==> IsDigit(s[i])
  {
    if s == [] then 0
    else
      var last := s[|s| - 1];
      assert IsDigit(last);
      DigitsValue(s[..|s| - 1]) * 10 + (last as int - '0' as int)
  }

  /** Reading the notation back gives the number. */
  lemma {:induction false} NatToStringRoundTrip(n: nat)
    ensures DigitsValue(NatToString(n)) == n
  {
    var r := NatToString(n);
    if n >= 10 {
      NatToStringRoundTrip(n / 10);
      assert r[..|r| - 1] == NatToString(n / 10);
    }
  }

  /** `String(value)`. */
  function Show(v: Value): (r: string)
    ensures Truthy(v) ==> r != []
  {
    match v
    case Str(s) => s
    case Num(n) => if n < 0 then "-" + NatToString(-n) else NatToString(n)
    case Bool(b) => if b then "true" else "false"
    case Null => "null"
  }

  /** What replaces `{name}`: the value's text when it is truthy, else nothing. */
  function Replacement(vars: map<string, Value>, name: string): (r: string)
    ensures r != [] <==> name in vars && Truthy(vars[name])
  {
    if name in vars && Truthy(vars[name]) then Show(vars[name]) else []
  }

  /** The length of the run of `\w` characters `s` starts with. */
  function WordRun(s: string): (n: nat)
    ensures n <= |s|
    ensures forall i :: 0 <= i < n ==> IsWordChar(s[i])
    ensures n == |s| || !IsWordChar(s[n])
  {
    if s != [] && IsWordChar(s[0]) then 1 + WordRun(s[1..]) else 0
  }

  /** The length of the `\{(\w+)\}` match at the start of `s`, if there is one. */
  function PlaceholderLen(s: string): Option<nat> {
    if s == [] || s[0] != '{' then None
    else
      var n := WordRun(s[1..]);
      if n > 0 && n + 1 < |s| && s[n + 1] == '}' then Some(n + 2) else None
  }

  /**
   * `s.replace(/\{(\w+)\}/g, ...)`: one left-to-right pass; each placeholder
   * is replaced and the scan resumes after it, so inserted text is never
   * scanned again.
   */
  function Substitute(s: string, vars: map<string, Value>): (r: string)
    ensures '{' !in s ==> r == s
    decreases |s|
  {
    if s == [] then []
    else
      var ph := PlaceholderLen(s);
      if ph.Some? then Replacement(vars, s[1..ph.value - 1]) + Substitute(s[ph.value..], vars)
      else [s[0]] + Substitute(s[1..], vars)
  }

  /** The value of `key` in `locale`'s record, or "" when either is missing. */
  function Lookup(tr: Translations, locale: string, key: string): string {
    if locale in tr && key in tr[locale] then tr[locale][key] else []
  }

  /** `translations[locale]?.[key] || translations['en']?.[key] || key`. */
  function Choose(tr: Translations, locale: string, key: string): (r: string)
    ensures r == Lookup(tr, locale, key) || r == Lookup(tr, "en", key) || r == key
    ensures r == [] ==> key == []
  {
    var own := Lookup(tr, locale, key);
    if own != [] then own
    else
      var en := Lookup(tr, "en", key);
      if en != [] then en else key
  }

  /** `t(locale, key, variables)`: the chosen string, placeholders filled in when variables are given, trimmed. */
  function T(tr: Translations, locale: string, key: string, vars: Option<map<string, Value>>): (r: string)
    ensures NoOuterSpace(r)
  {
    var chosen := Choose(tr, locale, key);
    Trim(if vars.Some? then Substitute(chosen, vars.value) else chosen)
  }

  /** Text without '{' passes through the substitution unchanged. */
  lemma {:induction false} SubstitutePlain(u: string, rest: string, vars: map<string, Value>)
    requires '{' !in u
    ensures Substitute(u + rest, vars) == u + Substitute(rest, vars)
    decreases |u|
  {
    if u != [] {
      SubstitutePlain(u[1..], rest, vars);
      var s := u + rest;
      assert u[0] in u;
      assert s[0] == u[0] && s[1..] == u[1..] + rest;
      assert u == [u[0]] + u[1..];
    } else {
      assert u + rest == rest;
    }
  }

  /** A word run stops exactly at the end of a word followed by a non-word character. */
  lemma {:induction false} WordRunOf(name: string, rest: string)
    requires forall i :: 0 <= i < |name| ==> IsWordChar(name[i])
    requires rest == [] || !IsWordChar(rest[0])
    ensures WordRun(name + rest) == |name|
    decreases |name|
  {
    var s := name + rest;
    if name == [] {
      assert s == rest;
    } else {
      WordRunOf(name[1..], rest);
      assert s[0] == name[0] && s[1..] == name[1..] + rest;
    }
  }

  /**
   * `{name}` followed by anything: the placeholder becomes its replacement
   * and the scan goes on after the closing brace.
   */
  lemma SubstitutePlaceholder(name: string, rest: string, vars: map<string, Value>)
    requires name != [] && forall i :: 0 <= i < |name| ==> IsWordChar(name[i])
    ensures Substitute("{" + name + "}" + rest, vars) == Replacement(vars, name) + Substitute(rest, vars)
  {
    var s := "{" + name + "}" + rest;
    assert s[1..] == name + ("}" + rest);
    WordRunOf(name, "}" + rest);
    assert s[|name| + 1] == '}';
    assert PlaceholderLen(s) == Some(|name| + 2);
    assert s[1..|name| + 1] == name;
    assert s[|name| + 2..] == rest;
  }

  /**
   * The substitution is a single pass: a string value is inserted verbatim,
   * even when it holds placeholders itself (`{a}` with `a` = "{a}" stays "{a}").
   */
  lemma InsertedVerbatim(name: string, value: string, vars: map<string, Value>)
    requires name != [] && forall i :: 0 <= i < |name| ==> IsWordChar(name[i])
    requires name in vars && vars[name] == Str(value) && value != []
    ensures Substitute("{" + name + "}", vars) == value
  {
    SubstitutePlaceholder(name, [], vars);
    assert "{" + name + "}" + [] == "{" + name + "}";
    assert value + [] == value;
  }

  /** A brace not followed by a word character stays, and the scan goes on after it. */
  lemma LoneBraceKept(rest: string, vars: map<string, Value>)
    requires rest == [] || !IsWordChar(rest[0])
    ensures Substitute("{" + rest, vars) == "{" + Substitute(rest, vars)
  {
    var s := "{" + rest;
    assert s[1..] == rest;
  }

  /** A missing or falsy value erases its placeholder: `count: 0` yields "". */
  lemma FalsyErased(name: string, rest: string, vars: map<string, Value>)
    requires name != [] && forall i :: 0 <= i < |name| ==> IsWordChar(name[i])
    requires name !in vars || !Truthy(vars[name])
    ensures Substitute("{" + name + "}" + rest, vars) == Substitute(rest, vars)
  {
    SubstitutePlaceholder(name, rest, vars);
    assert [] + Substitute(rest, vars) == Substitute(rest, vars);
  }

  /** A non-empty string of the reader's locale wins. */
  lemma LocaleFirst(tr: Translations, locale: string, key: string, vars: Option<map<string, Value>>)
    requires Lookup(tr, locale, key) != []
    ensures var own := Lookup(tr, locale, key);
      T(tr, locale, key, vars) == Trim(if vars.Some? then Substitute(own, vars.value) else own)
  {
  }

  /** Without a non-empty string in the reader's locale, `t` answers as for English. */
  lemma FallsBackToEnglish(tr: Translations, locale: string, key: string, vars: Option<map<string, Value>>)
    requires Lookup(tr, locale, key) == []
    ensures T(tr, locale, key, vars) == T(tr, "en", key, vars)
  {
    var en := Lookup(tr, "en", key);
    assert Choose(tr, locale, key) == (if en != [] then en else key);
    assert Choose(tr, "en", key) == (if en != [] then en else key);
  }

  /** A key that neither the locale nor English translates comes back as itself, trimmed. */
  lemma UnknownKey(tr: Translations, locale: string, key: string)
    requires Lookup(tr, locale, key) == [] && Lookup(tr, "en", key) == []
    ensures T(tr, locale, key, None) == Trim(key)
  {
  }

  /** Variables change nothing in a string without '{'. */
  lemma VariablesNeedPlaceholders(tr: Translations, locale: string, key: string, vars: map<string, Value>)
    requires '{' !in Choose(tr, locale, key)
    ensures T(tr, locale, key, Some(vars)) == T(tr, locale, key, None)
  {
  }
}
