/** The language-resolution API of the `lang_pref` app
    (openedx/core/djangoapps/lang_pref/api.py).

    Django settings, site configuration and the dark-lang record are explicit
    parameters:
      - `settings.LANGUAGE_CODE` is `languageCode`,
      - `settings.LANGUAGES` and `settings.ALL_LANGUAGES` are sequences of
        (code, name) pairs,
      - `settings.FEATURES` and the site configuration read by `get_value` are
        maps from a setting name to its (boolean) value,
      - `DarkLangConfig.current()` is an `Option`: `None` when loading the
        record raised. */
module LangPref {
  import opened StringOrder
  import opened Sorting

  datatype Option<T> = None | Some(value: T)

  /** The `Language` named tuple. */
  datatype Language = Language(code: string, name: string)

  /** The fields of the dark-lang configuration record that the API reads. */
  datatype DarkLangConfig = DarkLangConfig(
    releasedLanguagesList: seq<string>,
    betaLanguagesList: seq<string>,
    enableBetaLanguages: bool)

  // ---------------------------------------------------------------------------
  // Selector switches

  /** `get_value(key, default)`: the site's own value when it sets one. */
  function GetValue(site: map<string, bool>, key: string, default: bool): bool {
    if key in site then site[key] else default
  }

  /** `settings.FEATURES.get(key, False)`. */
  function FeatureFlag(features: map<string, bool>, key: string): bool {
    if key in features then features[key] else false
  }

  /** The site switches `key` on, or does not mention it and the features do. */
  ghost predicate SwitchedOn(site: map<string, bool>, features: map<string, bool>, key: string) {
    (key in site && site[key]) || (key !in site && key in features && features[key])
  }

  function HeaderLanguageSelectorIsEnabled(site: map<string, bool>, features: map<string, bool>): (enabled: bool)
    ensures enabled <==>
      SwitchedOn(site, features, "SHOW_HEADER_LANGUAGE_SELECTOR") || SwitchedOn(site, features, "SHOW_LANGUAGE_SELECTOR")
    ensures "SHOW_HEADER_LANGUAGE_SELECTOR" in site && site["SHOW_HEADER_LANGUAGE_SELECTOR"] ==> enabled
  {
    var setting := GetValue(site, "SHOW_HEADER_LANGUAGE_SELECTOR", FeatureFlag(features, "SHOW_HEADER_LANGUAGE_SELECTOR"));
    var deprecatedSetting := GetValue(site, "SHOW_LANGUAGE_SELECTOR", FeatureFlag(features, "SHOW_LANGUAGE_SELECTOR"));
    setting || deprecatedSetting
  }

  function FooterLanguageSelectorIsEnabled(site: map<string, bool>, features: map<string, bool>): (enabled: bool)
    ensures enabled <==> SwitchedOn(site, features, "SHOW_FOOTER_LANGUAGE_SELECTOR")
    ensures "SHOW_FOOTER_LANGUAGE_SELECTOR" in site ==> enabled == site["SHOW_FOOTER_LANGUAGE_SELECTOR"]
  {
    GetValue(site, "SHOW_FOOTER_LANGUAGE_SELECTOR", FeatureFlag(features, "SHOW_FOOTER_LANGUAGE_SELECTOR"))
  }

  // ---------------------------------------------------------------------------
  // Sequence vocabulary

  /** `a` is `b` with some elements dropped. */
  ghost predicate IsSubsequence<T>(a: seq<T>, b: seq<T>)
    decreases |b|
  {
    a == [] || (b != [] && ((a[0] == b[0] && IsSubsequence(a[1..], b[1..])) || IsSubsequence(a, b[1..])))
  }

  /** No value occurs twice in `s`. */
  ghost predicate NoDuplicates(s: seq<string>) {
    forall x :: multiset(s)[x] <= 1
  }

  function Identity(s: string): string { s }

  function NameOf(pair: (string, string)): string { pair.1 }

  /** `[c for c, _ in languages]`. */
  function CodesOf(languages: seq<(string, string)>): (r: seq<string>)
    ensures forall c :: c in r <==> exists i :: 0 <= i < |languages| && languages[i].0 == c
    decreases |languages|
  {
    if languages == [] then [] else [languages[0].0] + CodesOf(languages[1..])
  }

  /** The pairs as `Language` values, in the same order. */
  function AsLanguages(languages: seq<(string, string)>): (r: seq<Language>)
    ensures |r| == |languages|
    ensures forall i :: 0 <= i < |r| ==> r[i] == Language(languages[i].0, languages[i].1)
    decreases |languages|
  {
    if languages == [] then [] else [Language(languages[0].0, languages[0].1)] + AsLanguages(languages[1..])
  }

  // ---------------------------------------------------------------------------
  // released_languages

  /** Appends each element of `xs`, in order, unless the list built so far
      already holds it: the effect of `if code not in codes: codes.append(code)`
      run over `xs`. */
  function AppendMissing(acc: seq<string>, xs: seq<string>): (r: seq<string>)
    ensures acc <= r
    ensures forall x :: x in r <==> x in acc || x in xs
    ensures forall x :: multiset(r)[x] == if x in acc || x !in xs then multiset(acc)[x] else 1
    decreases |xs|
  {
    if xs == [] then acc
    else
      assert xs == [xs[0]] + xs[1..];
      AppendMissing(if xs[0] in acc then acc else acc + [xs[0]], xs[1..])
  }

  /** The beta codes the merge step reads: none unless beta is enabled. */
  function BetaCodes(config: DarkLangConfig): seq<string> {
    if config.enableBetaLanguages then config.betaLanguagesList else []
  }

  /** `released_language_codes` before the sort: the configured codes, then
      the default code if absent, then the absent beta codes. */
  function MergedCodes(config: DarkLangConfig, languageCode: string): (r: seq<string>)
    ensures config.releasedLanguagesList <= r
    ensures languageCode in r
    ensures forall c :: c in r <==>
      c in config.releasedLanguagesList || c == languageCode || (config.enableBetaLanguages && c in config.betaLanguagesList)
    ensures forall c :: c !in config.releasedLanguagesList ==> multiset(r)[c] <= 1
    ensures forall c :: c in config.releasedLanguagesList ==> multiset(r)[c] == multiset(config.releasedLanguagesList)[c]
    ensures NoDuplicates(config.releasedLanguagesList) ==> NoDuplicates(r)
    ensures !config.enableBetaLanguages ==>
      r == config.releasedLanguagesList + (if languageCode in config.releasedLanguagesList then [] else [languageCode])
  {
    var withDefault := [languageCode] + BetaCodes(config);
    assert withDefault[1..] == BetaCodes(config);
    var step := if languageCode in config.releasedLanguagesList then config.releasedLanguagesList
      else config.releasedLanguagesList + [languageCode];
    assert !config.enableBetaLanguages ==>
      AppendMissing(config.releasedLanguagesList, withDefault) == AppendMissing(step, []);
    AppendMissing(config.releasedLanguagesList, withDefault)
  }

  /** The fallback's `sorted({default, *codes(languages)})`. */
  function FallbackCodes(languageCode: string, languages: seq<(string, string)>): (r: seq<string>)
    ensures SortedBy(r, Identity)
    ensures NoDuplicates(r)
    ensures forall c :: c in r <==> c == languageCode || c in CodesOf(languages)
  {
    var distinct := AppendMissing([], [languageCode] + CodesOf(languages));
    var r := SortBy(distinct, Identity);
    assert forall c :: c in r <==> c in multiset(distinct);
    r
  }

  /** The tail of a sorted, duplicate-free list is sorted and duplicate-free,
      and does not hold the head. */
  lemma SortedDistinctTail(a: seq<string>)
    requires a != [] && SortedBy(a, Identity) && NoDuplicates(a)
    ensures SortedBy(a[1..], Identity) && NoDuplicates(a[1..]) && a[0] !in a[1..]
    ensures forall c :: c in a <==> c == a[0] || c in a[1..]
  {
    assert a == [a[0]] + a[1..];
    assert multiset(a) == multiset{a[0]} + multiset(a[1..]);
    assert multiset(a)[a[0]] <= 1;
    forall x ensures multiset(a[1..])[x] <= 1 {
      assert multiset(a)[x] <= 1;
    }
    forall i, j | 0 <= i < j < |a[1..]| ensures LexLe(a[1..][i], a[1..][j]) {
      assert a[1..][i] == a[i + 1] && a[1..][j] == a[j + 1];
    }
  }

  /** The head of a sorted list is at or below each of its members. */
  lemma SortedHeadIsLeast(a: seq<string>, c: string)
    requires a != [] && SortedBy(a, Identity) && c in a
    ensures LexLe(a[0], c)
  {
    var i :| 0 <= i < |a| && a[i] == c;
    if i > 0 { assert LexLe(a[0], a[i]); } else { LexLeReflexive(c); }
  }

  /** Two sorted, duplicate-free code lists with the same members are equal. */
  lemma {:induction false} SortedDistinctUnique(a: seq<string>, b: seq<string>)
    requires SortedBy(a, Identity) && NoDuplicates(a)
    requires SortedBy(b, Identity) && NoDuplicates(b)
    requires forall c :: c in a <==> c in b
    ensures a == b
    decreases |a|
  {
    assert a != [] ==> a[0] in b;
    assert b != [] ==> b[0] in a;
    if a != [] && b != [] {
      SortedHeadIsLeast(b, a[0]);
      SortedHeadIsLeast(a, b[0]);
      LexLeAntisymmetric(a[0], b[0]);
      SortedDistinctTail(a);
      SortedDistinctTail(b);
      SortedDistinctUnique(a[1..], b[1..]);
      assert a == [a[0]] + a[1..] && b == [b[0]] + b[1..];
    }
  }

  /** `sorted({default, *codes})` is the one sorted, duplicate-free list of
      those codes. */
  lemma FallbackCodesUnique(languageCode: string, languages: seq<(string, string)>, other: seq<string>)
    requires SortedBy(other, Identity) && NoDuplicates(other)
    requires forall c :: c in other <==> c == languageCode || c in CodesOf(languages)
    ensures other == FallbackCodes(languageCode, languages)
  {
    SortedDistinctUnique(other, FallbackCodes(languageCode, languages));
  }

  /** `[Language(c, n) for (c, n) in languages if c in codes]`. */
  function KeepReleased(languages: seq<(string, string)>, codes: seq<string>): (r: seq<Language>)
    ensures IsSubsequence(r, AsLanguages(languages))
    ensures forall l :: multiset(r)[l] == if l.code in codes then multiset(AsLanguages(languages))[l] else 0
    decreases |languages|
  {
    if languages == [] then []
    else
      var rest := KeepReleased(languages[1..], codes);
      var head := Language(languages[0].0, languages[0].1);
      assert AsLanguages(languages) == [head] + AsLanguages(languages[1..]);
      if languages[0].0 in codes then [head] + rest else rest
  }

  /** One iteration of the append loop over `xs`, at index `i`. */
  lemma AppendMissingStep(acc: seq<string>, xs: seq<string>, i: nat)
    requires i < |xs|
    ensures AppendMissing(acc, xs[i..]) == AppendMissing(if xs[i] in acc then acc else acc + [xs[i]], xs[i + 1..])
  {
    assert xs[i..][1..] == xs[i + 1..];
  }

  /** After the default-code step, appending the enabled beta codes gives the merged list. */
  lemma MergeStartsWithDefault(record: DarkLangConfig, languageCode: string)
    ensures AppendMissing(
              if languageCode in record.releasedLanguagesList then record.releasedLanguagesList
              else record.releasedLanguagesList + [languageCode],
              BetaCodes(record))
            == MergedCodes(record, languageCode)
  {
    assert ([languageCode] + BetaCodes(record))[1..] == BetaCodes(record);
  }

  /** What `released_languages()` returns: in both branches an in-order
      selection of `settings.LANGUAGES` that repeats no entry more often than it. */
  function Released(config: Option<DarkLangConfig>, languageCode: string, languages: seq<(string, string)>): (r: seq<Language>)
    ensures IsSubsequence(r, AsLanguages(languages))
    ensures forall l :: multiset(r)[l] <= multiset(AsLanguages(languages))[l]
  {
    match config
    case None => KeepReleased(languages, FallbackCodes(languageCode, languages))
    case Some(record) => KeepReleased(languages, SortBy(MergedCodes(record, languageCode), Identity))
  }

  method ReleasedLanguages(config: Option<DarkLangConfig>, languageCode: string, languages: seq<(string, string)>)
    returns (result: seq<Language>)
    ensures result == Released(config, languageCode, languages)
  {
    if config.None? {
      var codes := FallbackCodes(languageCode, languages);
      return KeepReleased(languages, codes);
    }
    var record := config.value;
    var releasedLanguageCodes := record.releasedLanguagesList;
    if languageCode !in releasedLanguageCodes {
      releasedLanguageCodes := releasedLanguageCodes + [languageCode];
    }
    MergeStartsWithDefault(record, languageCode);
    if record.enableBetaLanguages {
      var betaLanguageCodes := record.betaLanguagesList;
      for i := 0 to |betaLanguageCodes|
        invariant AppendMissing(releasedLanguageCodes, betaLanguageCodes[i..]) == MergedCodes(record, languageCode)
      {
        AppendMissingStep(releasedLanguageCodes, betaLanguageCodes, i);
        if betaLanguageCodes[i] !in releasedLanguageCodes {
          releasedLanguageCodes := releasedLanguageCodes + [betaLanguageCodes[i]];
        }
      }
      assert betaLanguageCodes[|betaLanguageCodes|..] == [];
    }
    releasedLanguageCodes := SortBy(releasedLanguageCodes, Identity);
    result := KeepReleased(languages, releasedLanguageCodes);
  }

  /** The codes that `released_languages()` keeps, as a condition on one code. */
  ghost predicate IsReleasedCode(config: Option<DarkLangConfig>, languageCode: string, languages: seq<(string, string)>, c: string) {
    match config
    case None => c == languageCode || c in CodesOf(languages)
    case Some(record) =>
      c in record.releasedLanguagesList || c == languageCode
      || (record.enableBetaLanguages && c in record.betaLanguagesList)
  }

  lemma KeepReleasedMembers(languages: seq<(string, string)>, codes: seq<string>, l: Language)
    ensures l in KeepReleased(languages, codes) <==> (l.code, l.name) in languages && l.code in codes
  {
    var r := KeepReleased(languages, codes);
    var all := AsLanguages(languages);
    assert l in r <==> multiset(r)[l] > 0;
    assert l in all <==> multiset(all)[l] > 0;
    if (l.code, l.name) in languages {
      var i :| 0 <= i < |languages| && languages[i] == (l.code, l.name);
      assert all[i] == l;
    }
  }

  /** The final filter reads the code list only through membership. */
  lemma {:induction false} KeepReleasedDependsOnMembership(languages: seq<(string, string)>, a: seq<string>, b: seq<string>)
    requires forall c :: c in a <==> c in b
    ensures KeepReleased(languages, a) == KeepReleased(languages, b)
    decreases |languages|
  {
    if languages != [] {
      KeepReleasedDependsOnMembership(languages[1..], a, b);
    }
  }

  lemma {:induction false} KeepReleasedEverything(languages: seq<(string, string)>, codes: seq<string>)
    requires forall i :: 0 <= i < |languages| ==> languages[i].0 in codes
    ensures KeepReleased(languages, codes) == AsLanguages(languages)
    decreases |languages|
  {
    if languages != [] {
      KeepReleasedEverything(languages[1..], codes);
    }
  }

  /** The sorted code list has exactly the codes `IsReleasedCode` admits. */
  lemma ReleasedCodeList(config: Option<DarkLangConfig>, languageCode: string, languages: seq<(string, string)>, c: string)
    ensures config.None? ==> (c in FallbackCodes(languageCode, languages) <==> IsReleasedCode(config, languageCode, languages, c))
    ensures config.Some? ==>
      (c in SortBy(MergedCodes(config.value, languageCode), Identity) <==> IsReleasedCode(config, languageCode, languages, c))
  {
    if config.Some? {
      var merged := MergedCodes(config.value, languageCode);
      assert c in SortBy(merged, Identity) <==> c in multiset(merged);
    }
  }

  /** `released_languages()` returns the entries of `settings.LANGUAGES` whose
      code is released, each as often as it occurs there, in their order. */
  lemma ReleasedIsOrderedFilter(config: Option<DarkLangConfig>, languageCode: string, languages: seq<(string, string)>)
    ensures IsSubsequence(Released(config, languageCode, languages), AsLanguages(languages))
    ensures forall l :: multiset(Released(config, languageCode, languages))[l] ==
                        if IsReleasedCode(config, languageCode, languages, l.code) then multiset(AsLanguages(languages))[l] else 0
  {
    forall l ensures multiset(Released(config, languageCode, languages))[l] ==
      if IsReleasedCode(config, languageCode, languages, l.code) then multiset(AsLanguages(languages))[l] else 0
    {
      ReleasedCodeList(config, languageCode, languages, l.code);
    }
  }

  /** Membership in the result, stated per language. */
  lemma ReleasedMembers(config: Option<DarkLangConfig>, languageCode: string, languages: seq<(string, string)>, l: Language)
    ensures l in Released(config, languageCode, languages) <==>
      (l.code, l.name) in languages && IsReleasedCode(config, languageCode, languages, l.code)
  {
    ReleasedCodeList(config, languageCode, languages, l.code);
    match config
    case None => KeepReleasedMembers(languages, FallbackCodes(languageCode, languages), l);
    case Some(record) => KeepReleasedMembers(languages, SortBy(MergedCodes(record, languageCode), Identity), l);
  }

  /** The in-place sort of the code list does not change the result: filtering
      by the merged list before sorting gives the same sequence. */
  lemma ReleasedIgnoresSort(record: DarkLangConfig, languageCode: string, languages: seq<(string, string)>)
    ensures Released(Some(record), languageCode, languages) == KeepReleased(languages, MergedCodes(record, languageCode))
  {
    var merged := MergedCodes(record, languageCode);
    var sorted := SortBy(merged, Identity);
    assert forall c :: c in sorted <==> c in multiset(merged);
    KeepReleasedDependsOnMembership(languages, sorted, merged);
  }

  /** The default language is always released when `settings.LANGUAGES` lists it. */
  lemma DefaultLanguageReleased(config: Option<DarkLangConfig>, languageCode: string, languages: seq<(string, string)>, name: string)
    requires (languageCode, name) in languages
    ensures Language(languageCode, name) in Released(config, languageCode, languages)
  {
    ReleasedMembers(config, languageCode, languages, Language(languageCode, name));
  }

  /** When the configuration record cannot be loaded, every entry of
      `settings.LANGUAGES` is returned, in order. */
  lemma FallbackReleasesAllLanguages(languageCode: string, languages: seq<(string, string)>)
    ensures Released(None, languageCode, languages) == AsLanguages(languages)
  {
    var codes := FallbackCodes(languageCode, languages);
    forall i | 0 <= i < |languages| ensures languages[i].0 in codes {
      assert languages[i].0 in CodesOf(languages);
    }
    KeepReleasedEverything(languages, codes);
  }

  // ---------------------------------------------------------------------------
  // get_closest_released_language

  /** Python's `s[:2]`. */
  function Prefix2(s: string): (p: string)
    ensures p <= s && |p| == if |s| < 2 then |s| else 2
  {
    if |s| <= 2 then s else s[..2]
  }

  predicate HasCode(langs: seq<Language>, c: string) {
    exists i :: 0 <= i < |langs| && langs[i].code == c
  }

  /** The index, at or after `from`, of the first language whose code shares
      the target's `[:2]`, or `|langs|` when there is none. */
  function FirstPrefixMatch(langs: seq<Language>, target: string, from: nat): (k: nat)
    requires from <= |langs|
    ensures from <= k <= |langs|
    ensures k < |langs| ==> Prefix2(langs[k].code) == Prefix2(target)
    ensures forall j :: from <= j < k ==> Prefix2(langs[j].code) != Prefix2(target)
    decreases |langs| - from
  {
    if from == |langs| || Prefix2(langs[from].code) == Prefix2(target) then from
    else FirstPrefixMatch(langs, target, from + 1)
  }

  /** The closest released code: the target itself when it is released,
      otherwise the first code sharing its first two characters. */
  function Closest(langs: seq<Language>, target: string): (m: Option<string>)
    ensures m == Some(target) <==> HasCode(langs, target)
    ensures m.Some? ==> HasCode(langs, m.value) && Prefix2(m.value) == Prefix2(target)
    ensures m.None? <==> forall i :: 0 <= i < |langs| ==> Prefix2(langs[i].code) != Prefix2(target)
    ensures !HasCode(langs, target) && m.Some? ==>
      exists k :: 0 <= k < |langs| && m.value == langs[k].code
                  && forall j :: 0 <= j < k ==> Prefix2(langs[j].code) != Prefix2(target)
  {
    if HasCode(langs, target) then Some(target)
    else
      var k := FirstPrefixMatch(langs, target, 0);
      if k < |langs| then Some(langs[k].code) else None
  }

  /** The scan of `get_closest_released_language` over the released languages. */
  method ScanForClosest(langs: seq<Language>, targetLanguageCode: string) returns (matched: Option<string>)
    ensures matched == Closest(langs, targetLanguageCode)
  {
    ghost var k := FirstPrefixMatch(langs, targetLanguageCode, 0);
    matched := None;
    var i := 0;
    while i < |langs|
      invariant 0 <= i <= |langs|
      invariant forall j :: 0 <= j < i ==> langs[j].code != targetLanguageCode
      invariant matched == if k < i then Some(langs[k].code) else None
    {
      if langs[i].code == targetLanguageCode {
        matched := Some(langs[i].code);
        break;
      } else if matched.None? && Prefix2(langs[i].code) == Prefix2(targetLanguageCode) {
        matched := Some(langs[i].code);
      }
      i := i + 1;
    }
  }

  method GetClosestReleasedLanguage(
    config: Option<DarkLangConfig>, languageCode: string, languages: seq<(string, string)>, targetLanguageCode: string)
    returns (matched: Option<string>)
    ensures matched == Closest(Released(config, languageCode, languages), targetLanguageCode)
  {
    var langs := ReleasedLanguages(config, languageCode, languages);
    matched := ScanForClosest(langs, targetLanguageCode);
  }

  // ---------------------------------------------------------------------------
  // all_languages

  /** `[(code, _(name)) for (code, name) in settings.ALL_LANGUAGES]`. */
  function Translated(allLanguages: seq<(string, string)>, translate: string -> string): (r: seq<(string, string)>)
    ensures |r| == |allLanguages|
    ensures forall i :: 0 <= i < |r| ==> r[i].0 == allLanguages[i].0 && r[i].1 == translate(allLanguages[i].1)
  {
    seq(|allLanguages|, i requires 0 <= i < |allLanguages| => (allLanguages[i].0, translate(allLanguages[i].1)))
  }

  /** The translated catalogue, sorted by translated name. */
  function AllLanguages(allLanguages: seq<(string, string)>, translate: string -> string): (r: seq<(string, string)>)
    ensures |r| == |allLanguages|
    ensures multiset(r) == multiset(Translated(allLanguages, translate))
    ensures forall p :: p in r <==> exists i :: 0 <= i < |allLanguages| && p == (allLanguages[i].0, translate(allLanguages[i].1))
    ensures SortedBy(r, NameOf)
  {
    var translated := Translated(allLanguages, translate);
    var r := SortBy(translated, NameOf);
    assert |r| == |multiset(r)| == |multiset(translated)| == |translated|;
    assert forall p :: p in translated <==>
                      exists i :: 0 <= i < |allLanguages| && p == (allLanguages[i].0, translate(allLanguages[i].1)) by {
      forall p ensures p in translated <==>
                       exists i :: 0 <= i < |allLanguages| && p == (allLanguages[i].0, translate(allLanguages[i].1)) {
        if p in translated {
          var i :| 0 <= i < |translated| && translated[i] == p;
          assert p == (allLanguages[i].0, translate(allLanguages[i].1));
        }
        if exists i :: 0 <= i < |allLanguages| && p == (allLanguages[i].0, translate(allLanguages[i].1)) {
          var i :| 0 <= i < |allLanguages| && p == (allLanguages[i].0, translate(allLanguages[i].1));
          assert translated[i] == p;
        }
      }
    }
    assert forall p :: p in r <==> p in translated by {
      forall p ensures p in r <==> p in translated {
        assert p in r <==> p in multiset(r);
        assert p in translated <==> p in multiset(translated);
      }
    }
    r
  }

  /** The sort by name is stable: entries with equal translated names keep
      their catalogue order. */
  lemma AllLanguagesStable(allLanguages: seq<(string, string)>, translate: string -> string, name: string)
    ensures WithKey(AllLanguages(allLanguages, translate), NameOf, name) == WithKey(Translated(allLanguages, translate), NameOf, name)
  {
    SortByStable(Translated(allLanguages, translate), NameOf, name);
  }
}
