/** The tag buttons of the gallery: the sentinel first, then every tag of every
    project once, in the order the tags are first met. */
module Tags {
  import opened Catalog

  /** Every tag of every project, catalog order then tag order, repeats included. */
  function Occurrences(catalog: seq<Project>): seq<string> {
    if catalog == [] then []
    else Occurrences(catalog[..|catalog| - 1]) + catalog[|catalog| - 1].tags
  }

  /** The occurrences hold every tag of every project, and nothing else. */
  lemma {:induction false} OccurrencesMembers(catalog: seq<Project>)
    ensures forall t :: t in Occurrences(catalog) <==> exists i :: 0 <= i < |catalog| && t in catalog[i].tags
  {
    if catalog != [] {
      var init := catalog[..|catalog| - 1];
      OccurrencesMembers(init);
      assert forall i :: 0 <= i < |init| ==> init[i] == catalog[i];
    }
  }

  predicate NoDuplicates(s: seq<string>) {
    forall i, j :: 0 <= i < j < |s| ==> s[i] != s[j]
  }

  /** Keeps the first occurrence of each element, in order: what inserting the
      elements one by one into an insertion-ordered set yields. */
  function Dedup(s: seq<string>): (r: seq<string>)
    ensures forall x :: x in r <==> x in s
    ensures NoDuplicates(r)
  {
    if s == [] then []
    else
      var d := Dedup(s[..|s| - 1]);
      assert forall x :: x in s <==> x in s[..|s| - 1] || x == s[|s| - 1];
      if s[|s| - 1] in d then d else d + [s[|s| - 1]]
  }

  /** The position of the first occurrence of x in s. */
  function IndexOf(s: seq<string>, x: string): (i: nat)
    requires x in s
    ensures i < |s| && s[i] == x
    ensures forall k :: 0 <= k < i ==> s[k] != x
  {
    if s[0] == x then 0 else 1 + IndexOf(s[1..], x)
  }

  /** What the tag bar offers for a catalog. */
  function TagList(catalog: seq<Project>): seq<string> {
    Dedup([All] + Occurrences(catalog))
  }

  lemma {:induction false} DedupHead(s: seq<string>)
    requires s != []
    ensures Dedup(s) != [] && Dedup(s)[0] == s[0]
  {
    if |s| > 1 {
      DedupHead(s[..|s| - 1]);
    }
  }

  /** A first occurrence in a prefix is also the first occurrence in the whole. */
  lemma IndexOfPrefix(a: seq<string>, b: seq<string>, x: string)
    requires x in a
    ensures IndexOf(a + b, x) == IndexOf(a, x)
  {
    var i, j := IndexOf(a + b, x), IndexOf(a, x);
    assert (a + b)[j] == x;
    assert a[..] == (a + b)[..|a|];
  }

  /** Dedup lists the distinct elements in the order of their first occurrence. */
  lemma {:induction false} DedupFirstOccurrenceOrder(s: seq<string>)
    ensures forall i, j :: 0 <= i < j < |Dedup(s)| ==> IndexOf(s, Dedup(s)[i]) < IndexOf(s, Dedup(s)[j])
  {
    if s != [] {
      var init, last := s[..|s| - 1], s[|s| - 1];
      assert s == init + [last];
      var d, r := Dedup(init), Dedup(s);
      DedupFirstOccurrenceOrder(init);
      forall i, j | 0 <= i < j < |r|
        ensures IndexOf(s, r[i]) < IndexOf(s, r[j])
      {
        IndexOfPrefix(init, [last], r[i]);
        if j < |d| {
          IndexOfPrefix(init, [last], r[j]);
        } else {
          assert r[j] == last && last !in init;
        }
      }
    }
  }

  /** The tag bar starts with the sentinel, offers the sentinel and every tag of every
      project and nothing else, offers each once, and orders the tags by first occurrence. */
  lemma TagListProperties(catalog: seq<Project>)
    ensures var tags := TagList(catalog);
            var occ := [All] + Occurrences(catalog);
            && |tags| > 0 && tags[0] == All
            && NoDuplicates(tags)
            && (forall t :: t in tags <==> t == All || exists i :: 0 <= i < |catalog| && t in catalog[i].tags)
            && (forall i, j :: 0 <= i < j < |tags| ==> IndexOf(occ, tags[i]) < IndexOf(occ, tags[j]))
  {
    var occ := [All] + Occurrences(catalog);
    DedupHead(occ);
    DedupFirstOccurrenceOrder(occ);
    OccurrencesMembers(catalog);
  }

  /** A tag that is not offered selects nothing. */
  lemma UnofferedTagSelectsNothing(catalog: seq<Project>, query: string, activeTag: string)
    requires activeTag !in TagList(catalog)
    ensures Filter(catalog, query, activeTag) == []
  {
    TagListProperties(catalog);
    forall i | 0 <= i < |catalog|
      ensures !Matches(catalog[i], query, activeTag)
    {
      assert activeTag in catalog[i].tags ==> activeTag in TagList(catalog);
    }
    FilterDropsAllFailing(catalog, query, activeTag);
  }

  /** Adding one more element to a deduplicated sequence: kept only if new. */
  lemma DedupSnoc(s: seq<string>, x: string)
    ensures Dedup(s + [x]) == if x in Dedup(s) then Dedup(s) else Dedup(s) + [x]
  {
    assert (s + [x])[..|s|] == s;
  }

  /** The tags of the first i + 1 projects are those of the first i, then those of project i. */
  lemma OccurrencesSnoc(catalog: seq<Project>, i: nat)
    requires i < |catalog|
    ensures Occurrences(catalog[..i + 1]) == Occurrences(catalog[..i]) + catalog[i].tags
  {
    assert catalog[..i + 1][..i] == catalog[..i];
  }

  /** What the tag set has seen grows by one project's tags per outer step. */
  lemma SeenSnoc(catalog: seq<Project>, i: nat)
    requires i < |catalog|
    ensures ([All] + Occurrences(catalog[..i])) + catalog[i].tags == [All] + Occurrences(catalog[..i + 1])
  {
    OccurrencesSnoc(catalog, i);
  }

  /** Adds each of one project's tags to the insertion-ordered set `tags`, which
      holds the distinct elements of `seen`. */
  method AddTags(tags: seq<string>, ghost seen: seq<string>, newTags: seq<string>) returns (r: seq<string>)
    requires tags == Dedup(seen)
    ensures r == Dedup(seen + newTags)
  {
    r := tags;
    assert seen + newTags[..0] == seen;
    for j := 0 to |newTags|
      invariant r == Dedup(seen + newTags[..j])
    {
      var t := newTags[j];
      DedupSnoc(seen + newTags[..j], t);
      assert seen + newTags[..j + 1] == (seen + newTags[..j]) + [t];
      if t !in r {
        r := r + [t];
      }
    }
    assert newTags[..|newTags|] == newTags;
  }

  /** Builds the tag list the way the gallery does: start from the sentinel and add
      every tag of every project to an insertion-ordered set. */
  method AllTags(catalog: seq<Project>) returns (tags: seq<string>)
    ensures tags == TagList(catalog)
    ensures |tags| > 0 && tags[0] == All
    ensures NoDuplicates(tags)
  {
    tags := [All];
    DedupSnoc([], All);
    assert [All] + Occurrences(catalog[..0]) == [] + [All];
    for i := 0 to |catalog|
      invariant tags == Dedup([All] + Occurrences(catalog[..i]))
    {
      tags := AddTags(tags, [All] + Occurrences(catalog[..i]), catalog[i].tags);
      SeenSnoc(catalog, i);
    }
    assert catalog[..|catalog|] == catalog;
    DedupHead([All] + Occurrences(catalog));
  }
}
