/** The gallery's session: the three pieces of state the search box, the tag
    buttons and the "Load more" button change, over a catalog fixed at start. */
module Gallery {
  import opened Catalog
  import Tags

  class Session {
    const catalog: seq<Project>
    /** The tag buttons, computed once when the gallery starts. */
    const allTags: seq<string>
    var query: string
    var activeTag: string
    var visibleCount: nat

    /** The tag bar belongs to the catalog, and the count is a whole, non-empty number of pages:
        it starts at one page, and only ever grows by a page or goes back to one. */
    ghost predicate Valid()
      reads this
    {
      && allTags == Tags.TagList(catalog)
      && visibleCount >= PageSize
      && visibleCount % PageSize == 0
    }

    /** The cards currently shown. */
    function Visible(): seq<Project>
      reads this
    {
      View(catalog, query, activeTag, visibleCount)
    }

    /** A fresh session: no search text, the sentinel tag, one page; the first page of the catalog shows. */
    constructor (catalog: seq<Project>)
      ensures Valid()
      ensures this.catalog == catalog
      ensures query == "" && activeTag == All && visibleCount == PageSize
      ensures Visible() == Take(catalog, PageSize)
    {
      var tags := Tags.AllTags(catalog);
      this.catalog := catalog;
      allTags := tags;
      query := "";
      activeTag := All;
      visibleCount := PageSize;
      new;
      EmptySelectionKeepsAll(catalog);
    }

    /** Typing in the search box replaces the query verbatim. */
    method SetQuery(text: string)
      requires Valid()
      modifies this`query
      ensures Valid()
      ensures query == text
      ensures activeTag == old(activeTag) && visibleCount == old(visibleCount)
    {
      query := text;
    }

    /** Clicking a tag button selects that tag and goes back to the first page. */
    method SelectTag(tag: string)
      requires Valid()
      modifies this`activeTag, this`visibleCount
      ensures Valid()
      ensures activeTag == tag && visibleCount == PageSize
      ensures query == old(query)
      ensures |Visible()| <= PageSize
      ensures Visible() == Take(Filter(catalog, query, tag), PageSize)
    {
      activeTag := tag;
      visibleCount := PageSize;
    }

    /** "Load more" shows one more page: the cards already shown stay, in place,
        and once every match is shown nothing changes. */
    method LoadMore()
      requires Valid()
      modifies this`visibleCount
      ensures Valid()
      ensures visibleCount == old(visibleCount) + PageSize
      ensures query == old(query) && activeTag == old(activeTag)
      ensures old(Visible()) <= Visible()
      ensures |old(Visible())| < old(visibleCount) ==> Visible() == old(Visible())
      ensures |Filter(catalog, query, activeTag)| <= old(visibleCount) ==> Visible() == old(Visible())
    {
      visibleCount := visibleCount + PageSize;
      ViewGrows(catalog, query, activeTag, old(visibleCount), visibleCount);
    }
  }
}
