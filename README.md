# Grammar glossary: catalogue, filter and page state

This project is a Dafny model of the logic inside the `ModernGrammarGlossary`
page component (`src/App.jsx`). The page fetches a list of grammar terms
(`name`, `type`, `description`) once, when it mounts. It shows them as cards,
filtered by a case-insensitive name search and a category dropdown. A card
opens a modal with the term's description, and a button switches between a
dark and a light theme.

The model has four modules:

- `Text` (`text.dfy`): `toLowerCase` and `includes` on strings (sequences of
  Unicode scalar values, one `char` per code point). `IncludesIffOccurs` proves that `Includes` is
  substring containment.
- `Catalog` (`catalog.dfy`): the `Term` record and the two pure projections.
  - `Filter` is `grammarTerms.filter(...)`.
  - `Categories` is `["Todos", ...new Set(data.map(t => t.type))]`. It is
    built from `Dedup`, which lists the values of a sequence in the order a
    JavaScript `Set` iterates them.
  - Lemmas prove the filter sound, complete, order-preserving and idempotent,
    and prove the shape of the category list.
- `Component` (`component.dfy`): the class `Glossary`. It holds the six state
  cells (`searchTerm`, `selectedCategory`, `isDarkMode`, `selectedTerm`,
  `grammarTerms`, `categories`) and one method per event handler.
  - `Valid()` is the invariant every handler keeps: the categories are the
    ones derived from the current terms, the selected category is a dropdown
    option, and an open term belongs to the catalogue.
  - `FilteredTerms()` and `ShowsNoResults()` are the values the page renders.
- `Scenarios` (`scenarios.dfy`): small concrete cases of the filter and the
  category list.

The sentinel category is `"Todos"` (`Catalog.All`). The `Set` in the category
derivation is built from the data's types only. So when a term's `type` is
itself `"Todos"`, the sentinel is listed twice. The model keeps that
behaviour (`SentinelMultiplicity`, `SentinelAsTypeIsListedTwice`). The
category list is therefore duplicate-free past its first entry, but not
necessarily as a whole.

The code also differs from a "failure empties the catalogue" reading. A
failed fetch only logs and changes no state. The catalogue is empty after a
failure only because the fetch runs once, from the initial state. `Load`
models exactly that, with a ghost `fetched` flag for "the mount-time fetch
has settled". Its `requires !fetched` reflects the effect's empty dependency
list (`src/App.jsx:26`).

A card click replaces the selection without requiring the modal to be closed
first. The handler itself does not check; in the page, the modal's full-screen
backdrop covers the cards while a term is open. A card may also be clicked
after its term has been filtered out. `AnimatePresence` keeps the card on
screen for its 0.3 s exit animation (`src/App.jsx:97-117`), and its `onClick`
still fires. So `SelectCard` requires only that the term is in the catalogue,
not that it is visible.

## Model

| member | source | states |
|---|---|---|
| `Text.IncludesIffOccurs` | src/App.jsx:34 | `includes` holds exactly when the search text occurs at some index of the name |
| `Text.Lower` | src/App.jsx:34 | `toLowerCase`: no capital of the modelled ranges is left in the result; see also `LowerIdempotent` |
| `Text.Includes` | src/App.jsx:34 | `includes`: the empty text is included in every string, and a text longer than the string is not; fully specified by `IncludesIffOccurs` |
| `Text.FirstCharAbsent` | src/App.jsx:34 | a search text whose first character does not occur in the name is not included in it |
| `Text.LowerIdempotent` | src/App.jsx:34 | lower-casing a lower-cased string changes nothing |
| `Catalog.Matches` | src/App.jsx:33-35 | the filter callback: with an empty search text only the category decides (sentinel or equal `type`); the general case is characterised by `IncludesIffOccurs` and used in `FilterMembership` |
| `Catalog.Filter` | src/App.jsx:32-36 | the filter keeps no more terms than the catalogue has, and every term it keeps is in the catalogue and matches the search text and category |
| `Catalog.FilterCount` | src/App.jsx:32-36 | a matching term is kept as many times as it occurs in the catalogue; a non-matching term is never kept |
| `Catalog.FilterMembership` | src/App.jsx:32-36 | soundness and completeness: a term is visible iff it is in the catalogue, its lower-cased name includes the lower-cased search text, and the category is "Todos" or its type |
| `Catalog.FilterPositions` | src/App.jsx:32-36 | the result is the catalogue read at a strictly increasing list of positions, namely exactly the positions whose term matches |
| `Catalog.FilterIsSubsequence` | src/App.jsx:32-36 | the result is an order-preserving subsequence of the catalogue |
| `Catalog.FilterIdempotent` | src/App.jsx:32-36 | filtering the filtered list again with the same search text and category gives the same list |
| `Catalog.FilterShowsAll` | src/App.jsx:7-8 | with the initial search `""` and category "Todos", the filter returns the whole catalogue |
| `Catalog.FilterIgnoresSearchCase` | src/App.jsx:34 | two search texts with the same lower-cased form select the same terms |
| `Catalog.FilterLowerSearch` | src/App.jsx:34 | searching for the lower-cased text selects the same terms as searching for the text itself |
| `Catalog.NoResults` | src/App.jsx:120 | `filteredTerms.length === 0` holds exactly when no catalogue term matches |
| `Catalog.Kinds` | src/App.jsx:21 | `data.map(t => t.type)`: same length as the data, i-th entry the i-th term's type |
| `Catalog.Dedup` | src/App.jsx:21 | the `Set` of the types holds exactly the values of the sequence it was built from |
| `Catalog.FirstIndex` | src/App.jsx:21 | the index where a value first occurs: it holds the value and no earlier index does |
| `Catalog.DedupCount` | src/App.jsx:21 | every value of the sequence is in the `Set` exactly once, and nothing else is |
| `Catalog.DedupFirstSeenOrder` | src/App.jsx:21 | the `Set` iterates its values in the order of their first occurrence |
| `Catalog.Categories` | src/App.jsx:19-22 | the category list is non-empty, starts with "Todos", and holds exactly "Todos" and the data's types; multiplicity and order are stated by `CategoriesTailExactlyOnce`, `CategoriesTailFirstSeenOrder` and `SentinelMultiplicity` |
| `Catalog.CategoriesTailExactlyOnce` | src/App.jsx:19-22 | past the sentinel, each type of the data appears exactly once and nothing else appears |
| `Catalog.CategoriesTailFirstSeenOrder` | src/App.jsx:19-22 | past the sentinel, every entry is a type of the data, in first-occurrence order |
| `Catalog.CategoriesCoverTypes` | src/App.jsx:19-22 | a value is a category iff it is "Todos" or the type of some term |
| `Catalog.SentinelMultiplicity` | src/App.jsx:19-22 | "Todos" appears twice when some term's type is "Todos", and once otherwise |
| `Catalog.CategoriesOfEmpty` | src/App.jsx:12 | an empty catalogue yields exactly the initial category list `["Todos"]` |
| `Component.Glossary.constructor` | src/App.jsx:7-12 | initial state: search `""`, category "Todos", dark mode on, no term open, no terms, categories `["Todos"]`; the invariant holds |
| `Component.Glossary.FilteredTerms` | src/App.jsx:32-36 | the rendered cards are exactly the catalogue terms matching the current search text and category |
| `Component.Glossary.ShowsNoResults` | src/App.jsx:120 | the "no results" block shows iff no catalogue term matches the current filter |
| `Component.Glossary.Load` | src/App.jsx:14-26 | success stores the data and the categories derived from it; failure changes nothing; the other four cells are untouched; the invariant is kept |
| `Component.Glossary.SelectCard` | src/App.jsx:97-107 | clicking a card, visible or still fading out after being filtered out, opens its term (a member of the catalogue); nothing else changes |
| `Component.Glossary.DismissBackdrop` | src/App.jsx:143-149 | a backdrop click closes the modal whatever term was open; nothing else changes |
| `Component.Glossary.ClickInsideModal` | src/App.jsx:151-156 | a click inside the modal changes no state |
| `Component.Glossary.ToggleTheme` | src/App.jsx:48-49 | the theme button negates the dark-mode flag; nothing else changes |
| `Component.Glossary.SetSearchTerm` | src/App.jsx:68-73 | typing sets the search text to any given string; nothing else changes |
| `Component.Glossary.SelectCategory` | src/App.jsx:80-89 | choosing a dropdown option sets the selected category; nothing else changes |
| `Component.ToggleThemeTwice` | src/App.jsx:49 | toggling the theme twice restores the flag and leaves every other cell, the visible cards and the selection as they were |
| `Component.OpenThenDismiss` | src/App.jsx:107-156 | opening a visible card, clicking inside the modal, then clicking the backdrop leaves the modal closed and the visible cards unchanged |
| `Component.MountWithFailedFetch` | src/App.jsx:7-25 | after a failed fetch the catalogue is empty, the categories are `["Todos"]` and "no results" is shown |
| `Scenarios.SearchNoFindsNoun` | src/App.jsx:32-36 | searching "no" over "Noun" and "Verb" in all categories yields exactly "Noun" |
| `Scenarios.CategoryKeepsBoth` | src/App.jsx:32-36 | an empty search in the terms' own category yields both terms in order |
| `Scenarios.UnmatchedSearchShowsNoResults` | src/App.jsx:32-36 | a search no name contains yields the "no results" condition |
| `Scenarios.SentinelAsTypeIsListedTwice` | src/App.jsx:19-22 | a term typed "Todos" puts "Todos" in the category list twice |

## Left out

- Text.Lower: models `toLowerCase` for the ASCII capitals and the Latin-1 capitals U+00C0 to U+00DE (except U+00D7) only. Other Unicode case mappings are not modelled, including the ones that change length.
- Text.Includes: works, like `Text.Lower`, on Unicode scalar values, while JavaScript strings are UTF-16 code units. JavaScript strings may hold lone surrogates, which `seq<char>` cannot represent. For well-formed text, `includes` gives the same answer on code points as on code units.
- The `fetch("/data.json")` and `response.json()` plumbing and the `console.error` call (`src/App.jsx:15-25`) are not modelled. The settled fetch is the input `FetchResult`: the decoded terms, or a failure.
- Component.Glossary.Load: assumes the decoded JSON is an array of records with string `name` and `type`. In the source, a non-array result is stored by `setGrammarTerms` before `data.map` throws. That leaves the categories as they were and breaks the next render. A record without a `name` string also breaks the filter. Neither case is modelled.
- `document.body.classList.toggle("dark", isDarkMode)` (`src/App.jsx:28-30`) is a DOM side effect and is not modelled. It mirrors `isDarkMode`.
- React rendering and effect scheduling are not modelled. Each handler is one atomic transition, and the success path's two state updates are applied together. A development-mode double run of the mount effect is not modelled.
- The selection holds the term by value, not by object reference. Two equal term records cannot be told apart.
- JSX layout, Tailwind classes, framer-motion animation (apart from the exit animation that keeps a filtered-out card clickable, which `SelectCard`'s precondition allows for), icons and the markdown rendering of descriptions (`ReactMarkdown`, `src/App.jsx:165`) are not modelled. They are presentation or foreign libraries.
- `src/index.jsx` is not part of this model. It only mounts the component.
