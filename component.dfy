/** The state of the `ModernGrammarGlossary` page component: its six
    state cells and the event handlers that overwrite them, each handler
    taken as one atomic transition. */
module Component {
  import opened Catalog

  datatype Option<T> = None | Some(value: T)

  /** The outcome of the one fetch of the data file: the decoded term
      list, or a failure (network or decode error). */
  datatype FetchResult = Fetched(data: seq<Term>) | FetchFailed

  class Glossary {
    var searchTerm: string
    var selectedCategory: string
    var isDarkMode: bool
    var selectedTerm: Option<Term>
    var grammarTerms: seq<Term>
    var categories: seq<string>

    /** Whether the mount-time fetch has settled (successfully or not). */
    ghost var fetched: bool

    /** The category list is always the one derived from the current
        terms, the selected category is one the dropdown offers, an open
        term belongs to the catalogue, and the catalogue is empty until
        the fetch settles. */
    ghost predicate Valid()
      reads this
    {
      && categories == Categories(grammarTerms)
      && selectedCategory in categories
      && (selectedTerm.Some? ==> selectedTerm.value in grammarTerms)
      && (!fetched ==> grammarTerms == [])
    }

    /** The initial values of the six state cells. */
    constructor ()
      ensures Valid() && !fetched
      ensures searchTerm == "" && selectedCategory == All && isDarkMode
      ensures selectedTerm == None && grammarTerms == [] && categories == [All]
    {
      searchTerm := "";
      selectedCategory := All;
      isDarkMode := true;
      selectedTerm := None;
      grammarTerms := [];
      categories := [All];
      fetched := false;
    }

    /** The terms the page renders as cards. A term is visible exactly
        when it is in the catalogue and matches the current search text
        and category. */
    function FilteredTerms(): (r: seq<Term>)
      reads this
      ensures forall t :: t in r <==> t in grammarTerms && Matches(t, searchTerm, selectedCategory)
    {
      var r := Filter(grammarTerms, searchTerm, selectedCategory);
      assert forall t :: t in r <==> t in grammarTerms && Matches(t, searchTerm, selectedCategory) by {
        forall t {
          FilterMembership(grammarTerms, searchTerm, selectedCategory, t);
        }
      }
      r
    }

    /** Whether the "no results" block is shown: exactly when no term of
        the catalogue matches the current search text and category. */
    predicate ShowsNoResults(): (b: bool)
      reads this
      ensures b <==> forall t :: t in grammarTerms ==> !Matches(t, searchTerm, selectedCategory)
    {
      NoResults(grammarTerms, searchTerm, selectedCategory)
    }

    /** The settled mount-time fetch. On success the catalogue becomes the
        decoded data and the categories are derived from it; on failure
        the error is only logged and no state changes. */
    method Load(result: FetchResult)
      requires Valid() && !fetched
      modifies this
      ensures Valid() && fetched
      ensures result.Fetched? ==> grammarTerms == result.data && categories == Categories(result.data)
      ensures result.FetchFailed? ==> grammarTerms == old(grammarTerms) && categories == old(categories)
      ensures searchTerm == old(searchTerm) && selectedCategory == old(selectedCategory)
      ensures isDarkMode == old(isDarkMode) && selectedTerm == old(selectedTerm)
    {
      if result.Fetched? {
        grammarTerms := result.data;
        categories := Categories(result.data);
      }
      fetched := true;
    }

    /** A click on a card opens that card's term. Every card shows a term
        of the catalogue: a visible one, or one just filtered out whose
        card is still fading out and can still be clicked. */
    method SelectCard(t: Term)
      requires Valid() && t in grammarTerms
      modifies this
      ensures Valid() && fetched == old(fetched)
      ensures selectedTerm == Some(t)
      ensures searchTerm == old(searchTerm) && selectedCategory == old(selectedCategory)
      ensures isDarkMode == old(isDarkMode)
      ensures grammarTerms == old(grammarTerms) && categories == old(categories)
    {
      selectedTerm := Some(t);
    }

    /** A click on the backdrop closes whatever term is open. */
    method DismissBackdrop()
      requires Valid()
      modifies this
      ensures Valid() && fetched == old(fetched)
      ensures selectedTerm == None
      ensures searchTerm == old(searchTerm) && selectedCategory == old(selectedCategory)
      ensures isDarkMode == old(isDarkMode)
      ensures grammarTerms == old(grammarTerms) && categories == old(categories)
    {
      selectedTerm := None;
    }

    /** A click inside the open modal stops propagating before it reaches
        the backdrop: nothing changes. */
    method ClickInsideModal()
      requires Valid()
      ensures Valid() && unchanged(this)
    {
    }

    /** The theme button flips the dark-mode flag. */
    method ToggleTheme()
      requires Valid()
      modifies this
      ensures Valid() && fetched == old(fetched)
      ensures isDarkMode == !old(isDarkMode)
      ensures searchTerm == old(searchTerm) && selectedCategory == old(selectedCategory)
      ensures selectedTerm == old(selectedTerm)
      ensures grammarTerms == old(grammarTerms) && categories == old(categories)
    {
      isDarkMode := !isDarkMode;
    }

    /** Typing in the search box replaces the search text with the
        input's value; any string is accepted. */
    method SetSearchTerm(text: string)
      requires Valid()
      modifies this
      ensures Valid() && fetched == old(fetched)
      ensures searchTerm == text
      ensures selectedCategory == old(selectedCategory) && isDarkMode == old(isDarkMode)
      ensures selectedTerm == old(selectedTerm)
      ensures grammarTerms == old(grammarTerms) && categories == old(categories)
    {
      searchTerm := text;
    }

    /** Choosing an option of the category dropdown, whose options are
        the current categories. */
    method SelectCategory(category: string)
      requires Valid() && category in categories
      modifies this
      ensures Valid() && fetched == old(fetched)
      ensures selectedCategory == category
      ensures searchTerm == old(searchTerm) && isDarkMode == old(isDarkMode)
      ensures selectedTerm == old(selectedTerm)
      ensures grammarTerms == old(grammarTerms) && categories == old(categories)
    {
      selectedCategory := category;
    }
  }

  /** Pressing the theme button twice restores the original theme and
      leaves the rest of the page state as it was. */
  method ToggleThemeTwice(g: Glossary)
    requires g.Valid()
    modifies g
    ensures g.Valid()
    ensures g.isDarkMode == old(g.isDarkMode)
    ensures g.searchTerm == old(g.searchTerm) && g.selectedCategory == old(g.selectedCategory)
    ensures g.grammarTerms == old(g.grammarTerms) && g.categories == old(g.categories)
    ensures g.FilteredTerms() == old(g.FilteredTerms()) && g.selectedTerm == old(g.selectedTerm)
  {
    g.ToggleTheme();
    g.ToggleTheme();
  }

  /** Opening a visible card, clicking inside the modal and then on the
      backdrop brings the selection back to closed. */
  method OpenThenDismiss(g: Glossary, t: Term)
    requires g.Valid() && t in g.FilteredTerms()
    modifies g
    ensures g.Valid() && g.selectedTerm == None
    ensures g.FilteredTerms() == old(g.FilteredTerms())
  {
    g.SelectCard(t);
    g.ClickInsideModal();
    g.DismissBackdrop();
  }

  /** A page whose fetch failed shows the empty catalogue, the sentinel
      category alone and the "no results" block. */
  method MountWithFailedFetch() returns (g: Glossary)
    ensures g.Valid() && g.fetched
    ensures g.grammarTerms == [] && g.categories == [All]
    ensures g.ShowsNoResults()
  {
    g := new Glossary();
    g.Load(FetchFailed);
  }
}
