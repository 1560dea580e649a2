/** Concrete scenarios of the filter and the category list on a
    two-term catalogue. */
module Scenarios {
  import opened Text
  import opened Catalog

  const Noun := Term("Noun", "Parts of Speech", "A word that names a thing.")
  const Verb := Term("Verb", "Parts of Speech", "A word that names an action.")

  /** Searching "no" in all categories finds the noun only: the search is
      case-insensitive ("Noun" contains "no") and "Verb" does not contain it. */
  lemma SearchNoFindsNoun()
    ensures Filter([Noun, Verb], "no", All) == [Noun]
  {
    assert Lower("Noun") == "noun";
    assert Lower("no") == "no";
    assert StartsWith("noun", "no");
    assert Lower("Verb") == "verb";
    FirstCharAbsent("verb", "no");
  }

  /** An empty search in the terms' own category keeps both, in order. */
  lemma CategoryKeepsBoth()
    ensures Filter([Noun, Verb], "", "Parts of Speech") == [Noun, Verb]
  {
    assert Lower("") == "";
  }

  /** A search nothing contains leaves the "no results" condition on. */
  lemma UnmatchedSearchShowsNoResults()
    ensures NoResults([Noun, Verb], "xyz", All)
  {
    assert Lower("xyz") == "xyz";
    assert Lower("Noun") == "noun";
    assert Lower("Verb") == "verb";
    FirstCharAbsent("noun", "xyz");
    FirstCharAbsent("verb", "xyz");
  }

  /** A term whose `type` is literally the sentinel puts the sentinel in
      the category list twice. */
  lemma SentinelAsTypeIsListedTwice()
    ensures Categories([Term("Todo", All, ""), Noun]) == [All, All, "Parts of Speech"]
  {
    var data := [Term("Todo", All, ""), Noun];
    assert Kinds(data) == [All, "Parts of Speech"];
    assert Kinds(data)[..1] == [All];
    assert [All][..0] == [];
    assert Dedup([All]) == [All];
    assert "Parts of Speech" != All;
  }
}
