/** Concrete configurations of the `lang_pref` API, evaluated against the model. */
module LangPrefScenarios {
  import opened LangPref

  const Languages: seq<(string, string)> := [("en", "English"), ("de", "Deutsch"), ("fr", "French")]

  lemma MergedWithoutBeta()
    ensures MergedCodes(DarkLangConfig(["fr"], ["de"], false), "en") == ["fr", "en"]
  {
  }

  lemma KeepEnglishAndFrench()
    ensures KeepReleased(Languages, ["fr", "en"]) == [Language("en", "English"), Language("fr", "French")]
  {
    var merged := ["fr", "en"];
    assert Languages[1..][1..][1..] == [];
    assert KeepReleased(Languages[1..][1..], merged) == [Language("fr", "French")];
    assert "de" !in merged;
    assert KeepReleased(Languages[1..], merged) == [Language("fr", "French")];
  }

  /** A default code missing from the configured list is added, and the result
      follows the order of `settings.LANGUAGES`, not the sorted code order. */
  lemma DefaultAddedAndLanguagesOrderKept()
    ensures Released(Some(DarkLangConfig(["fr"], ["de"], false)), "en", Languages)
         == [Language("en", "English"), Language("fr", "French")]
  {
    MergedWithoutBeta();
    KeepEnglishAndFrench();
    ReleasedIgnoresSort(DarkLangConfig(["fr"], ["de"], false), "en", Languages);
  }

  /** An enabled beta code that `settings.LANGUAGES` lists is released. */
  lemma EnabledBetaLanguageReleased()
    ensures Language("de", "Deutsch") in Released(Some(DarkLangConfig(["en", "fr"], ["de"], true)), "en", Languages)
  {
    ReleasedMembers(Some(DarkLangConfig(["en", "fr"], ["de"], true)), "en", Languages, Language("de", "Deutsch"));
    assert Languages[1] == ("de", "Deutsch");
  }

  /** `en-us` falls back to `en`; an unrelated code finds nothing; an exact
      match beats an earlier prefix match. */
  lemma ClosestScenarios()
    ensures Closest([Language("fr", "French"), Language("en", "English")], "en-us") == Some("en")
    ensures Closest([Language("fr", "French"), Language("en", "English")], "zh-cn") == None
    ensures Closest([Language("en-gb", "British English"), Language("en-us", "US English")], "en-us") == Some("en-us")
  {
    var released := [Language("fr", "French"), Language("en", "English")];
    assert Prefix2("en-us") == "en";
    assert Prefix2("zh-cn") == "zh";
    assert !HasCode(released, "en-us");
    assert FirstPrefixMatch(released, "en-us", 0) == 1;
    var regional := [Language("en-gb", "British English"), Language("en-us", "US English")];
    assert regional[1].code == "en-us";
  }
}
