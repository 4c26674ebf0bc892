# Language preferences of the Open edX `lang_pref` app, in Dafny

This project models the language-resolution API in
`openedx/core/djangoapps/lang_pref/api.py`:

- **Selector switches.** `header_language_selector_is_enabled` and
  `footer_language_selector_is_enabled` read a site-configuration value and
  fall back to a `settings.FEATURES` flag. The header switch also ORs in the
  deprecated `SHOW_LANGUAGE_SELECTOR` switch.
- **Released languages.** `released_languages` loads the dark-lang
  configuration record. It starts from the record's released codes, appends
  the default `LANGUAGE_CODE` if it is absent, and, when beta languages are
  enabled, appends each beta code that is absent. It sorts that code list,
  then keeps the entries of `settings.LANGUAGES` whose code is in it. If the
  record fails to load, a fallback keeps every entry whose code is the default
  or one of the codes of `settings.LANGUAGES`.
- **Closest released language.** `get_closest_released_language` scans the
  released languages. An exact code match wins. Otherwise the first code whose
  first two characters (Python `[:2]`) equal the target's wins. If neither
  exists the result is `None`.
- **Catalogue.** `all_languages` translates every name of
  `settings.ALL_LANGUAGES` and sorts the pairs by translated name.

Modules:

- `StringOrder` (`string_order.dfy`) defines Python's ordering of strings:
  code points compared lexicographically. It proves that order is reflexive,
  total, transitive and antisymmetric; antisymmetry makes a sorted,
  duplicate-free code list unique given its members.
- `Sorting` (`sorting.dfy`) defines a stable sort by a string key. It
  stands in for both `list.sort()` and `sorted(..., key=...)`.
- `LangPref` (`lang_pref.dfy`) models the API itself.
- `LangPrefScenarios` (`scenarios.dfy`) works through concrete configurations: a missing default code, an enabled beta code, and regional codes.

Inputs the source reads from its environment are explicit parameters:

- `settings.LANGUAGE_CODE` becomes `languageCode`.
- `settings.LANGUAGES` and `settings.ALL_LANGUAGES` become `seq<(string, string)>`.
- `settings.FEATURES` and the site configuration behind `get_value` become `map<string, bool>`.
- `DarkLangConfig.current()` becomes `Option<DarkLangConfig>`. `None` stands for the `except Exception` branch.
- The translation function `_` becomes a parameter `translate: string -> string`.

`released_languages` and the scan in `get_closest_released_language` are
methods with loops, following the source. Each method is proved equal to a
specification function (`Released`, `Closest`), and the lemmas state the
source's promises about those functions.

The fallback returns only entries of `settings.LANGUAGES`. An empty
`settings.LANGUAGES` gives an empty result, although the default code is in the
fallback's code set (`FallbackReleasesAllLanguages`).

## Model

| member | source | states |
|---|---|---|
| `LangPref.HeaderLanguageSelectorIsEnabled` | openedx/core/djangoapps/lang_pref/api.py:16-26 | through `GetValue` (the site's `get_value`, api.py:18-19) and `FeatureFlag` (`settings.FEATURES.get`): enabled exactly when `SHOW_HEADER_LANGUAGE_SELECTOR` or `SHOW_LANGUAGE_SELECTOR` is switched on. A key is switched on when the site sets it true, or when the site does not set it and `FEATURES` sets it true. A site value of true for the header key always enables. |
| `LangPref.FooterLanguageSelectorIsEnabled` | openedx/core/djangoapps/lang_pref/api.py:29-35 | through the same `GetValue` and `FeatureFlag` lookups (api.py:31): enabled exactly when `SHOW_FOOTER_LANGUAGE_SELECTOR` is switched on in that sense. A site value overrides the feature flag. |
| `LangPref.CodesOf` | openedx/core/djangoapps/lang_pref/api.py:47 | a code is in the list exactly when some entry of `settings.LANGUAGES` has that code |
| `LangPref.AsLanguages` | openedx/core/djangoapps/lang_pref/api.py:80-84 | the `Language(code, name)` built for each (code, name) pair, here and in the fallback at api.py:48: same length, same order, element by element |
| `LangPref.AppendMissing` | openedx/core/djangoapps/lang_pref/api.py:63-73 | appending the absent codes of a list keeps the existing list as a prefix. The result holds exactly the old codes and the new ones. An old code keeps its count. A new code occurs exactly once. |
| `LangPref.MergedCodes` | openedx/core/djangoapps/lang_pref/api.py:54-76 | with `BetaCodes` the record's beta list when beta is enabled and empty otherwise (api.py:69-70), the merged list starts with the configured released codes and always holds the default code. It holds exactly the released codes, the default, and the beta codes when beta is enabled. Released codes keep their counts; every other code occurs at most once. A duplicate-free input gives a duplicate-free result. With beta disabled it is the released codes plus the default if that was absent. |
| `LangPref.FallbackCodes` | openedx/core/djangoapps/lang_pref/api.py:46-47 | `sorted({default, *codes})`: sorted, duplicate-free, and holding exactly the default and the codes of `settings.LANGUAGES` |
| `LangPref.FallbackCodesUnique` | openedx/core/djangoapps/lang_pref/api.py:47 | any sorted, duplicate-free list holding exactly the default and the codes of `settings.LANGUAGES` equals the fallback's code list, so that list is `sorted({default, *codes})` itself |
| `Sorting.SortBy` | openedx/core/djangoapps/lang_pref/api.py:78 | the sorted code list is a permutation of the merged list (the same multiset) and is non-decreasing in string order |
| `LangPref.KeepReleased` | openedx/core/djangoapps/lang_pref/api.py:80-84 | the comprehension's result is a subsequence of `settings.LANGUAGES`. Each entry whose code is in the list occurs as often as in `settings.LANGUAGES`; no other entry occurs. |
| `LangPref.KeepReleasedMembers` | openedx/core/djangoapps/lang_pref/api.py:80-84 | a language is kept exactly when its pair is in `settings.LANGUAGES` and its code is in the code list |
| `LangPref.KeepReleasedDependsOnMembership` | openedx/core/djangoapps/lang_pref/api.py:80-84 | two code lists with the same members give the same result, whatever their order or repetitions |
| `LangPref.KeepReleasedEverything` | openedx/core/djangoapps/lang_pref/api.py:48 | when every code of `settings.LANGUAGES` is in the list, the comprehension returns all of `settings.LANGUAGES` |
| `LangPref.Released` | openedx/core/djangoapps/lang_pref/api.py:38-91 | the result: the filter of `settings.LANGUAGES` by the fallback codes when the record fails to load, and by the sorted merged codes otherwise. Either way it is a subsequence of `settings.LANGUAGES` holding no entry more often than `settings.LANGUAGES` does. |
| `LangPref.ReleasedLanguages` | openedx/core/djangoapps/lang_pref/api.py:38-91 | the method (fallback branch, default append, beta loop, sort, filter) returns `Released(config, languageCode, languages)` |
| `LangPref.ReleasedCodeList` | openedx/core/djangoapps/lang_pref/api.py:46-78 | in both branches, a code is in the sorted code list exactly when it is a released code: the default or a `LANGUAGES` code in the fallback; a released code, the default or an enabled beta code otherwise |
| `LangPref.ReleasedIsOrderedFilter` | openedx/core/djangoapps/lang_pref/api.py:78-84 | the result is a subsequence of `settings.LANGUAGES`. It holds each entry with a released code as often as `settings.LANGUAGES` does, and nothing else. |
| `LangPref.ReleasedMembers` | openedx/core/djangoapps/lang_pref/api.py:54-84 | a language is released exactly when its pair is in `settings.LANGUAGES` and its code is a released code. In the normal branch that means configured, the default, or a beta code with beta enabled. |
| `LangPref.ReleasedIgnoresSort` | openedx/core/djangoapps/lang_pref/api.py:78-84 | filtering by the sorted list equals filtering by the unsorted merged list: the sort does not affect the result or its order |
| `LangPref.DefaultLanguageReleased` | openedx/core/djangoapps/lang_pref/api.py:63-84 | when `settings.LANGUAGES` holds a pair for the default code, that pair is in the result (both branches) |
| `LangPref.FallbackReleasesAllLanguages` | openedx/core/djangoapps/lang_pref/api.py:40-52 | when the record fails to load, the result is every entry of `settings.LANGUAGES`, in order |
| `LangPref.Prefix2` | openedx/core/djangoapps/lang_pref/api.py:115 | Python `s[:2]`: a prefix of `s` of length 2, or all of `s` when it is shorter |
| `LangPref.FirstPrefixMatch` | openedx/core/djangoapps/lang_pref/api.py:115-116 | the index of the first language whose `[:2]` equals the target's; no earlier language matches, and the index is the end when none does |
| `LangPref.Closest` | openedx/core/djangoapps/lang_pref/api.py:104-122 | the result is the target itself exactly when some released code equals it, even after an earlier prefix match. With no exact match, a result is the code at some position before which no code shares the target's `[:2]`: the first prefix match. Any result is a released code sharing the target's `[:2]`. The result is `None` exactly when no released code shares the target's `[:2]`. |
| `LangPref.ScanForClosest` | openedx/core/djangoapps/lang_pref/api.py:109-116 | the loop with its early `break` on an exact match, and its first-prefix-match update, computes `Closest` |
| `LangPref.GetClosestReleasedLanguage` | openedx/core/djangoapps/lang_pref/api.py:104-122 | returns `Closest` of the released languages for the same configuration and settings |
| `LangPref.Translated` | openedx/core/djangoapps/lang_pref/api.py:96 | one pair per `ALL_LANGUAGES` entry, in the same order: the entry's code with `translate` applied to its name |
| `LangPref.AllLanguages` | openedx/core/djangoapps/lang_pref/api.py:94-101 | same length as `ALL_LANGUAGES`, and a permutation of the translated pairs. It holds exactly the pairs (code, translated name). Translated names are non-decreasing. |
| `LangPref.AllLanguagesStable` | openedx/core/djangoapps/lang_pref/api.py:97 | the sort is stable: the pairs with a given translated name keep their catalogue order |
| `Sorting.SortByStable` | openedx/core/djangoapps/lang_pref/api.py:97 | sorting by key keeps the relative order of the elements that share each key |
| `LangPrefScenarios.DefaultAddedAndLanguagesOrderKept` | openedx/core/djangoapps/lang_pref/api.py:54-84 | with released `["fr"]`, default `en` and beta off, the default is added. The result is `en` then `fr`, in `settings.LANGUAGES` order, and the unreleased `de` is dropped. |
| `LangPrefScenarios.EnabledBetaLanguageReleased` | openedx/core/djangoapps/lang_pref/api.py:69-84 | with beta enabled and beta list `["de"]`, the `de` entry of `settings.LANGUAGES` is released |
| `LangPrefScenarios.ClosestScenarios` | openedx/core/djangoapps/lang_pref/api.py:104-122 | `en-us` resolves to `en` when only `en` is released. `zh-cn` resolves to `None` when no code starts with `zh`. An exact `en-us` wins over an earlier `en-gb`. |

## Left out

- The diagnostic logging (`imp_logging.append_log` and every call to it) is left out. The model assumes every append succeeds. A failing append raises `OSError` out of each API function, including from the `except` handler at api.py:43, and this path is not modelled. `imp_logging.py` is not part of this model.
- Django `settings`, site configuration (`get_value`) and database access behind `DarkLangConfig.current()` are not modelled. They are inputs. Any exception from the record loader is the `None` case.
- Python truthiness is not modelled. The `or []` on the record's lists is absorbed into possibly-empty sequences. `getattr(..., False)` and `bool(...)` on configuration values are absorbed into `bool` parameters.
- `gettext` is an uninterpreted `string -> string` parameter. The sort by translated name compares `str` values by code point, as `sorted(..., key=lambda lang: lang[1])` does, so it matches the source exactly.
- The in-place `list.sort()` in `released_languages` uses Timsort on the local list. The model reassigns the local list to a sorted copy made by insertion sort. Only the resulting sequence is modelled, not the in-place update.
- The fallback's `sorted(set)` is modelled as de-duplicating the codes (first occurrence kept) and then sorting. Python gives the set no order, and the sorted result is the same either way.
- Concurrency and the cost of the scans are out of scope.
