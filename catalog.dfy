/** The project catalog and the gallery's filtered, paginated view of it. */
module Catalog {
  import opened Text

  /** One card of the gallery. `demo` and `repo` are outbound links the view
      carries but never inspects. */
  datatype Project = Project(
    id: string,
    title: string,
    desc: string,
    tags: seq<string>,
    demo: string,
    repo: string)

  /** The tag-filter sentinel that lets every project through. */
  const All: string := "All"

  /** How many cards the gallery shows at first, and how many more each "Load more" adds. */
  const PageSize: nat := 6

  /** The query matches if the lower-cased title or description contains the lower-cased query. */
  predicate MatchesQuery(p: Project, query: string) {
    Contains(Lower(p.title), Lower(query)) || Contains(Lower(p.desc), Lower(query))
  }

  /** The tag filter: the sentinel, or exact (case-sensitive) membership in the project's tags. */
  predicate MatchesTag(p: Project, activeTag: string) {
    activeTag == All || activeTag in p.tags
  }

  predicate Matches(p: Project, query: string, activeTag: string) {
    MatchesQuery(p, query) && MatchesTag(p, activeTag)
  }

  /** The projects that pass both tests, in catalog order. */
  function Filter(catalog: seq<Project>, query: string, activeTag: string): (r: seq<Project>)
    ensures |r| <= |catalog|
    ensures forall i :: 0 <= i < |r| ==> Matches(r[i], query, activeTag)
  {
    if catalog == [] then []
    else
      var rest := Filter(catalog[1..], query, activeTag);
      if Matches(catalog[0], query, activeTag) then [catalog[0]] + rest else rest
  }

  /** A project is kept exactly when it is in the catalog and passes both tests. */
  lemma {:induction false} FilterMembers(catalog: seq<Project>, query: string, activeTag: string)
    ensures forall p :: p in Filter(catalog, query, activeTag) <==> p in catalog && Matches(p, query, activeTag)
  {
    if catalog != [] {
      FilterMembers(catalog[1..], query, activeTag);
      assert forall p :: p in catalog <==> p == catalog[0] || p in catalog[1..];
    }
  }

  function Min(a: nat, b: nat): nat {
    if a <= b then a else b
  }

  /** `slice(0, n)`: the first n elements, or all of them when there are fewer. */
  function Take(s: seq<Project>, n: nat): (r: seq<Project>)
    ensures |r| == Min(n, |s|)
    ensures r <= s
  {
    if n < |s| then s[..n] else s
  }

  /** What the gallery renders: the matching projects cut to the first visibleCount. */
  function View(catalog: seq<Project>, query: string, activeTag: string, visibleCount: nat): (r: seq<Project>)
    ensures |r| <= visibleCount
    ensures forall p :: p in r ==> p in catalog && Matches(p, query, activeTag)
  {
    FilterMembers(catalog, query, activeTag);
    Take(Filter(catalog, query, activeTag), visibleCount)
  }

  /** The positions, below n, of the catalog entries that pass both tests, in increasing order. */
  ghost function Positions(catalog: seq<Project>, query: string, activeTag: string, n: nat): (r: seq<nat>)
    requires n <= |catalog|
    ensures forall k :: 0 <= k < |r| ==> r[k] < n
    ensures forall k, l :: 0 <= k < l < |r| ==> r[k] < r[l]
    ensures forall i :: 0 <= i < n ==> (i in r <==> Matches(catalog[i], query, activeTag))
  {
    if n == 0 then []
    else
      var before := Positions(catalog, query, activeTag, n - 1);
      if Matches(catalog[n - 1], query, activeTag) then before + [n - 1] else before
  }

  /** Filtering distributes over concatenation: it never reorders across a split. */
  lemma {:induction false} FilterAppend(a: seq<Project>, b: seq<Project>, query: string, activeTag: string)
    ensures Filter(a + b, query, activeTag) == Filter(a, query, activeTag) + Filter(b, query, activeTag)
    decreases |a|
  {
    if a == [] {
      assert a + b == b;
    } else {
      assert (a + b)[0] == a[0];
      assert (a + b)[1..] == a[1..] + b;
      FilterAppend(a[1..], b, query, activeTag);
    }
  }

  /** Filtering one more catalog entry appends it exactly when it passes. */
  lemma FilterPrefixSnoc(catalog: seq<Project>, query: string, activeTag: string, n: nat)
    requires 0 < n <= |catalog|
    ensures Filter(catalog[..n], query, activeTag) ==
      Filter(catalog[..n - 1], query, activeTag) + (if Matches(catalog[n - 1], query, activeTag) then [catalog[n - 1]] else [])
  {
    var last := catalog[n - 1];
    assert catalog[..n] == catalog[..n - 1] + [last];
    FilterAppend(catalog[..n - 1], [last], query, activeTag);
    assert [last][1..] == [];
  }

  /** The filtered list is the catalog read at exactly the matching positions, in order:
      it is a subsequence of the catalog and leaves no matching project out. */
  lemma {:induction false} FilterIsMatchesInOrder(catalog: seq<Project>, query: string, activeTag: string, n: nat)
    requires n <= |catalog|
    ensures var f := Filter(catalog[..n], query, activeTag);
            var pos := Positions(catalog, query, activeTag, n);
            |f| == |pos| && forall k :: 0 <= k < |f| ==> f[k] == catalog[pos[k]]
  {
    if n > 0 {
      var last := catalog[n - 1];
      FilterIsMatchesInOrder(catalog, query, activeTag, n - 1);
      var f0 := Filter(catalog[..n - 1], query, activeTag);
      var pos0 := Positions(catalog, query, activeTag, n - 1);
      var f := Filter(catalog[..n], query, activeTag);
      var pos := Positions(catalog, query, activeTag, n);
      FilterPrefixSnoc(catalog, query, activeTag, n);
      assert |f| == |pos|;
      forall k | 0 <= k < |f|
        ensures f[k] == catalog[pos[k]]
      {
        if k < |f0| {
          assert f[k] == f0[k] && pos[k] == pos0[k];
        } else {
          assert f[k] == last && pos[k] == n - 1;
        }
      }
    }
  }

  /** The view is exactly the first min(visibleCount, #matches) matching projects. */
  lemma ViewIsFirstMatches(catalog: seq<Project>, query: string, activeTag: string, visibleCount: nat)
    ensures var v := View(catalog, query, activeTag, visibleCount);
            var pos := Positions(catalog, query, activeTag, |catalog|);
            |v| == Min(visibleCount, |pos|) && forall k :: 0 <= k < |v| ==> v[k] == catalog[pos[k]]
  {
    FilterIsMatchesInOrder(catalog, query, activeTag, |catalog|);
    assert catalog[..|catalog|] == catalog;
  }

  /** When every project passes, the filter gives back the whole catalog. */
  lemma {:induction false} FilterKeepsAllMatching(catalog: seq<Project>, query: string, activeTag: string)
    requires forall i :: 0 <= i < |catalog| ==> Matches(catalog[i], query, activeTag)
    ensures Filter(catalog, query, activeTag) == catalog
  {
    if catalog != [] {
      FilterKeepsAllMatching(catalog[1..], query, activeTag);
    }
  }

  /** When no project passes, the filter is empty. */
  lemma {:induction false} FilterDropsAllFailing(catalog: seq<Project>, query: string, activeTag: string)
    requires forall i :: 0 <= i < |catalog| ==> !Matches(catalog[i], query, activeTag)
    ensures Filter(catalog, query, activeTag) == []
  {
    if catalog != [] {
      FilterDropsAllFailing(catalog[1..], query, activeTag);
    }
  }

  /** Filtering an already-filtered list changes nothing. */
  lemma FilterIdempotent(catalog: seq<Project>, query: string, activeTag: string)
    ensures var f := Filter(catalog, query, activeTag);
            Filter(f, query, activeTag) == f
  {
    var f := Filter(catalog, query, activeTag);
    assert forall i :: 0 <= i < |f| ==> f[i] in f;
    FilterKeepsAllMatching(f, query, activeTag);
  }

  /** The empty query matches every project. */
  lemma EmptyQueryMatches(p: Project)
    ensures MatchesQuery(p, "")
  {
    assert Lower("") == "";
    ContainsEmpty(Lower(p.title));
  }

  /** The empty query with the sentinel tag keeps the whole catalog. */
  lemma EmptySelectionKeepsAll(catalog: seq<Project>)
    ensures Filter(catalog, "", All) == catalog
  {
    forall i | 0 <= i < |catalog|
      ensures Matches(catalog[i], "", All)
    {
      EmptyQueryMatches(catalog[i]);
    }
    FilterKeepsAllMatching(catalog, "", All);
  }

  /** Empty query, sentinel tag and a count covering the catalog: the view is the whole catalog. */
  lemma ViewWholeCatalog(catalog: seq<Project>, visibleCount: nat)
    requires visibleCount >= |catalog|
    ensures View(catalog, "", All, visibleCount) == catalog
  {
    EmptySelectionKeepsAll(catalog);
  }

  /** A count at least the number of matches shows every match, with no padding. */
  lemma ViewAllMatches(catalog: seq<Project>, query: string, activeTag: string, visibleCount: nat)
    requires visibleCount >= |Filter(catalog, query, activeTag)|
    ensures View(catalog, query, activeTag, visibleCount) == Filter(catalog, query, activeTag)
  {
  }

  /** Raising the count only appends to the view: what was shown stays shown, in place. */
  lemma ViewGrows(catalog: seq<Project>, query: string, activeTag: string, n: nat, m: nat)
    requires n <= m
    ensures View(catalog, query, activeTag, n) <= View(catalog, query, activeTag, m)
    ensures |View(catalog, query, activeTag, n)| < n ==> View(catalog, query, activeTag, n) == View(catalog, query, activeTag, m)
  {
  }

  /** The query is compared case-insensitively: lower-casing it first changes nothing. */
  lemma QueryIgnoresCase(p: Project, query: string, activeTag: string)
    ensures Matches(p, Lower(query), activeTag) == Matches(p, query, activeTag)
  {
    LowerIdempotent(query);
  }

  /** The tag is compared exactly: under a non-sentinel tag a project matches
      if and only if it matches the query and carries that very string. */
  lemma TagIsExact(p: Project, query: string, activeTag: string)
    requires activeTag != All
    ensures Matches(p, query, activeTag) <==> MatchesQuery(p, query) && activeTag in p.tags
  {
  }
}
