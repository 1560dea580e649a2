/** The term catalogue of the glossary page and the two projections the
    page derives from it: the visible (filtered) terms and the category
    list of the dropdown. */
module Catalog {
  import opened Text

  /** One glossary entry as decoded from the data file. The record's
      `type` field (its category label) is called `kind` here, since
      `type` is a Dafny keyword. */
  datatype Term = Term(name: string, kind: string, description: string)

  /** The sentinel category, "all categories". */
  const All: string := "Todos"

  // ---------------------------------------------------------------------
  // Filter projection
  // ---------------------------------------------------------------------

  /** The filter's predicate: the lower-cased name contains the
      lower-cased search text, and the category is the sentinel or the
      term's own `type`. An empty search text matches every name, so only
      the category decides. */
  predicate Matches(t: Term, search: string, category: string): (b: bool)
    ensures search == "" ==> (b <==> category == All || t.kind == category)
  {
    Includes(Lower(t.name), Lower(search)) && (category == All || t.kind == category)
  }

  /** `grammarTerms.filter(...)`: the matching terms, in catalogue order.
      Every term it keeps comes from the catalogue and matches. */
  function Filter(terms: seq<Term>, search: string, category: string): (r: seq<Term>)
    ensures |r| <= |terms|
    ensures forall t :: t in r ==> t in terms && Matches(t, search, category)
  {
    if terms == [] then []
    else
      var rest := Filter(terms[1..], search, category);
      if Matches(terms[0], search, category) then [terms[0]] + rest else rest
  }

  /** Each matching term is kept as often as it occurs in the catalogue,
      and no other term is kept. */
  lemma {:induction false} FilterCount(terms: seq<Term>, search: string, category: string, t: Term)
    ensures multiset(Filter(terms, search, category))[t]
         == if Matches(t, search, category) then multiset(terms)[t] else 0
  {
    if terms != [] {
      FilterCount(terms[1..], search, category, t);
      assert terms == [terms[0]] + terms[1..];
    }
  }

  /** Soundness and completeness: a term is visible exactly when it is in
      the catalogue and matches. */
  lemma FilterMembership(terms: seq<Term>, search: string, category: string, t: Term)
    ensures t in Filter(terms, search, category) <==> t in terms && Matches(t, search, category)
  {
    FilterCount(terms, search, category, t);
  }

  /** `idx` is a strictly increasing list of positions of `terms` that
      spells out `r`: `r` is an order-preserving subsequence of `terms`. */
  ghost predicate PicksPositions(r: seq<Term>, terms: seq<Term>, idx: seq<nat>) {
    && |idx| == |r|
    && (forall k :: 0 <= k < |idx| ==> idx[k] < |terms| && r[k] == terms[idx[k]])
    && (forall k, l :: 0 <= k < l < |idx| ==> idx[k] < idx[l])
  }

  /** Every position in `idx`, moved one place to the right. */
  function Shift(idx: seq<nat>): (r: seq<nat>)
    ensures |r| == |idx| && forall k :: 0 <= k < |idx| ==> r[k] == idx[k] + 1
  {
    seq(|idx|, k requires 0 <= k < |idx| => idx[k] + 1)
  }

  /** A subsequence of `tail` is, with its positions shifted, a subsequence
      of `[x] + tail`, with or without `x` in front. */
  lemma ShiftPicks(r: seq<Term>, tail: seq<Term>, idx: seq<nat>, x: Term)
    requires PicksPositions(r, tail, idx)
    ensures PicksPositions(r, [x] + tail, Shift(idx))
    ensures PicksPositions([x] + r, [x] + tail, [0] + Shift(idx))
    ensures forall i :: 1 <= i <= |tail| ==> (i in Shift(idx) <==> i - 1 in idx)
    ensures 0 !in Shift(idx)
  {
    var sh := Shift(idx);
    forall i | 1 <= i <= |tail| ensures i in sh <==> i - 1 in idx {
      if i - 1 in idx {
        var k :| 0 <= k < |idx| && idx[k] == i - 1;
        assert sh[k] == i;
      }
    }
  }

  /** The filter result is the subsequence of `terms` at exactly the
      positions whose term matches, in their original order. */
  lemma {:induction false} FilterPositions(terms: seq<Term>, search: string, category: string)
    returns (idx: seq<nat>)
    ensures PicksPositions(Filter(terms, search, category), terms, idx)
    ensures forall i :: 0 <= i < |terms| ==> (i in idx <==> Matches(terms[i], search, category))
  {
    if terms == [] {
      idx := [];
    } else {
      var x, tail := terms[0], terms[1..];
      assert terms == [x] + tail;
      var rest := FilterPositions(tail, search, category);
      ShiftPicks(Filter(tail, search, category), tail, rest, x);
      if Matches(x, search, category) {
        idx := [0] + Shift(rest);
      } else {
        idx := Shift(rest);
      }
      forall i | 1 <= i < |terms|
        ensures i in idx <==> Matches(terms[i], search, category)
      {
        assert terms[i] == tail[i - 1];
      }
    }
  }

  /** The filter result is an order-preserving subsequence of the catalogue. */
  lemma FilterIsSubsequence(terms: seq<Term>, search: string, category: string)
    ensures exists idx :: PicksPositions(Filter(terms, search, category), terms, idx)
  {
    var idx := FilterPositions(terms, search, category);
  }

  /** Filtering an already filtered list with the same search text and
      category gives the same list. */
  lemma {:induction false} FilterIdempotent(terms: seq<Term>, search: string, category: string)
    ensures Filter(Filter(terms, search, category), search, category) == Filter(terms, search, category)
  {
    if terms != [] {
      var rest := Filter(terms[1..], search, category);
      FilterIdempotent(terms[1..], search, category);
      if Matches(terms[0], search, category) {
        assert ([terms[0]] + rest)[1..] == rest;
      }
    }
  }

  /** With empty search text and the sentinel category every term is
      visible: the filter gives back the whole catalogue. */
  lemma {:induction false} FilterShowsAll(terms: seq<Term>)
    ensures Filter(terms, "", All) == terms
  {
    if terms != [] {
      assert Lower("") == "";
      FilterShowsAll(terms[1..]);
      assert terms == [terms[0]] + terms[1..];
    }
  }

  /** Only the lower-cased search text matters: two search texts with the
      same lower-cased form select the same terms. */
  lemma {:induction false} FilterIgnoresSearchCase(terms: seq<Term>, s1: string, s2: string, category: string)
    requires Lower(s1) == Lower(s2)
    ensures Filter(terms, s1, category) == Filter(terms, s2, category)
  {
    if terms != [] {
      FilterIgnoresSearchCase(terms[1..], s1, s2, category);
    }
  }

  /** In particular, searching for the lower-cased text is the same as
      searching for the text itself. */
  lemma FilterLowerSearch(terms: seq<Term>, search: string, category: string)
    ensures Filter(terms, Lower(search), category) == Filter(terms, search, category)
  {
    LowerIdempotent(search);
    FilterIgnoresSearchCase(terms, Lower(search), search, category);
  }

  /** The condition under which the page shows its "no results" block:
      the filtered list has length zero. It holds exactly when no
      catalogue term matches. */
  predicate NoResults(terms: seq<Term>, search: string, category: string): (b: bool)
    ensures b <==> forall t :: t in terms ==> !Matches(t, search, category)
  {
    var r := Filter(terms, search, category);
    assert (|r| == 0) <==> forall t :: t in terms ==> !Matches(t, search, category) by {
      if |r| != 0 {
        FilterMembership(terms, search, category, r[0]);
      } else {
        forall t | t in terms ensures !Matches(t, search, category) {
          FilterMembership(terms, search, category, t);
        }
      }
    }
    |r| == 0
  }

  // ---------------------------------------------------------------------
  // Category derivation
  // ---------------------------------------------------------------------

  /** `data.map((term) => term.type)`. */
  function Kinds(data: seq<Term>): (r: seq<string>)
    ensures |r| == |data|
    ensures forall i :: 0 <= i < |data| ==> r[i] == data[i].kind
  {
    seq(|data|, i requires 0 <= i < |data| => data[i].kind)
  }

  /** The elements of `xs` in the order a `Set` built from `xs` iterates
      them: each value once, at the place it was first inserted. The
      result holds the same values as `xs`. */
  function Dedup(xs: seq<string>): (r: seq<string>)
    ensures forall x :: x in r <==> x in xs
  {
    if xs == [] then []
    else
      var seen := Dedup(xs[..|xs| - 1]);
      var x := xs[|xs| - 1];
      if x in seen then seen else seen + [x]
  }

  /** The position where `x` first occurs in `xs`. */
  function FirstIndex<T(==)>(xs: seq<T>, x: T): (i: nat)
    requires x in xs
    ensures i < |xs| && xs[i] == x
    ensures forall j :: 0 <= j < i ==> xs[j] != x
  {
    if xs[0] == x then 0 else 1 + FirstIndex(xs[1..], x)
  }

  /** Appending to a sequence does not move the first occurrence of a
      value already in it. */
  lemma {:induction false} FirstIndexOfPrefix<T>(xs: seq<T>, n: nat, x: T)
    requires n <= |xs| && x in xs[..n]
    ensures FirstIndex(xs, x) == FirstIndex(xs[..n], x)
  {
    assert xs[..n][0] == xs[0];
    if xs[0] != x {
      assert xs[1..][..n - 1] == xs[..n][1..];
      FirstIndexOfPrefix(xs[1..], n - 1, x);
    }
  }

  /** Every value of `xs` is kept exactly once, and nothing else is kept. */
  lemma {:induction false} DedupCount(xs: seq<string>, x: string)
    ensures multiset(Dedup(xs))[x] == if x in xs then 1 else 0
  {
    if xs != [] {
      var p := xs[..|xs| - 1];
      DedupCount(p, x);
      assert xs == p + [xs[|xs| - 1]];
    }
  }

  /** The kept values appear in the order of their first occurrence in `xs`. */
  lemma {:induction false} DedupFirstSeenOrder(xs: seq<string>)
    ensures forall i, j :: 0 <= i < j < |Dedup(xs)| ==>
      FirstIndex(xs, Dedup(xs)[i]) < FirstIndex(xs, Dedup(xs)[j])
  {
    if xs != [] {
      var n := |xs| - 1;
      var p, x := xs[..n], xs[n];
      var seen := Dedup(p);
      DedupFirstSeenOrder(p);
      forall y | y in seen ensures FirstIndex(xs, y) == FirstIndex(p, y) < n {
        FirstIndexOfPrefix(xs, n, y);
      }
      if x !in seen {
        assert x !in p;
        assert FirstIndex(xs, x) == n;
      }
    }
  }

  /** `["Todos", ...new Set(data.map((term) => term.type))]`: the sentinel
      followed by the distinct `type` values of the data. The `Set` is
      built from the data only, so a term whose `type` is the sentinel
      itself makes the sentinel appear a second time. The list starts
      with the sentinel and holds exactly the sentinel and the data's
      types. */
  function Categories(data: seq<Term>): (r: seq<string>)
    ensures |r| >= 1 && r[0] == All
    ensures forall k :: k in r <==> k == All || k in Kinds(data)
  {
    [All] + Dedup(Kinds(data))
  }

  /** Past the sentinel, each `type` value of the data appears exactly
      once, and nothing else appears. */
  lemma CategoriesTailExactlyOnce(data: seq<Term>, k: string)
    ensures multiset(Categories(data)[1..])[k] == if k in Kinds(data) then 1 else 0
  {
    DedupCount(Kinds(data), k);
    assert Categories(data)[1..] == Dedup(Kinds(data));
  }

  /** Past the sentinel, the categories are in the order of their first
      occurrence in the data. */
  lemma CategoriesTailFirstSeenOrder(data: seq<Term>)
    ensures forall i :: 1 <= i < |Categories(data)| ==> Categories(data)[i] in Kinds(data)
    ensures forall i, j :: 1 <= i < j < |Categories(data)| ==>
      FirstIndex(Kinds(data), Categories(data)[i]) < FirstIndex(Kinds(data), Categories(data)[j])
  {
    var ks := Kinds(data);
    var tail := Dedup(ks);
    DedupFirstSeenOrder(ks);
    assert Categories(data) == [All] + tail;
    forall i | 1 <= i < |Categories(data)| ensures Categories(data)[i] in ks {
      assert tail[i - 1] in tail;
    }
  }

  /** The categories, as a set, are the sentinel together with the `type`
      of every term of the data: no more, no fewer. */
  lemma CategoriesCoverTypes(data: seq<Term>, k: string)
    ensures k in Categories(data) <==> k == All || exists i :: 0 <= i < |data| && data[i].kind == k
  {
    var ks := Kinds(data);
    if k in ks {
      var i :| 0 <= i < |ks| && ks[i] == k;
      assert data[i].kind == k;
    }
  }

  /** The sentinel is listed twice when some term's `type` is literally
      the sentinel, and once otherwise. */
  lemma SentinelMultiplicity(data: seq<Term>)
    ensures multiset(Categories(data))[All] == if All in Kinds(data) then 2 else 1
  {
    DedupCount(Kinds(data), All);
  }

  /** An empty catalogue yields the sentinel alone. */
  lemma CategoriesOfEmpty()
    ensures Categories([]) == [All]
  {
  }
}
