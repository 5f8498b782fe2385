# Portfolio gallery: filter and pagination engine

This project models the project gallery of the single-page portfolio app
(`PortfolioApp` in `App.jsx`) and proves properties of it. The gallery has
three pieces of session state:

- `query`: the text typed in the search box;
- `activeTag`: the selected tag button, at first the sentinel `'All'`;
- `visibleCount`: how many matching cards are shown, at first 6.

From this state and a fixed catalog of projects it computes two things:

- the tag bar: `'All'`, then every tag of every project once, in the order the tags are first met;
- the view: the projects whose lower-cased title or description contains the
  lower-cased query, and which carry the active tag (exact match) unless it
  is `'All'`, kept in catalog order and cut to the first `visibleCount`.

Typing replaces the query. Clicking a tag selects it and resets the count to
6. "Load more" adds 6 to the count.

Modules, one per concern:

- `Text` (text.dfy): lower-casing and JavaScript's `includes`, with a proof
  that the recursive search agrees with the positional definition of a substring.
- `Catalog` (catalog.dfy): the `Project` record, the match predicates, `Filter`,
  `Take` (`slice(0, n)`), `View`, and the lemmas about them. `Positions`, the
  increasing list of matching indices, is the independent reference the filter
  is proved against.
- `Tags` (tags.dfy): the tag bar as a specification (`TagList`: first-occurrence
  deduplication of `'All'` followed by every tag occurrence) and as the nested
  loop that adds tags to an insertion-ordered set (`AllTags`, `AddTags`). The
  loop is proved equal to the specification.
- `Gallery` (gallery.dfy): the class `Session` with the three state fields and
  the three handlers. Its invariant says the tag bar belongs to the catalog and
  the count is a positive whole number of pages.

The sample catalog in `App.jsx` (lines 39-64) becomes an arbitrary
`seq<Project>`. Every property is proved for all catalogs.

## Model

| member | source | states |
|---|---|---|
| `Text.LowerChar` | App.jsx:78 | lower-casing a character leaves no upper-case letter, leaves other characters alone, and maps A-Z to a-z |
| `Text.Lower` | App.jsx:78 | `toLowerCase` keeps the length, lower-cases each character in place, and leaves no upper-case letter |
| `Text.LowerIdempotent` | App.jsx:78 | lower-casing twice is lower-casing once |
| `Text.Contains` | App.jsx:78 | defines `includes`: the needle is a prefix of the string or of one of its suffixes |
| `Text.ContainsIff` | App.jsx:78 | `includes` holds exactly when the needle occurs at some offset of the string |
| `Text.ContainsEmpty` | App.jsx:78 | the empty query is contained in every string |
| `Catalog.MatchesQuery` | App.jsx:78 | defines the query test: the lower-cased title or the lower-cased description contains the lower-cased query |
| `Catalog.MatchesTag` | App.jsx:79 | defines the tag test: the active tag is the sentinel `'All'`, or the project's tags contain it exactly |
| `Catalog.Matches` | App.jsx:77-80 | defines the filter callback: the query test and the tag test both hold |
| `Catalog.Filter` | App.jsx:77-80 | the filtered list is no longer than the catalog and every entry passes both the query test and the tag test |
| `Catalog.FilterMembers` | App.jsx:77-80 | a project is in the filtered list if and only if it is in the catalog and passes both tests |
| `Catalog.Take` | App.jsx:81 | `slice(0, n)` yields a prefix of length min(n, length) |
| `Catalog.View` | App.jsx:77-81 | the view holds at most `visibleCount` projects, each from the catalog and passing both tests |
| `Catalog.FilterAppend` | App.jsx:77-80 | filtering a concatenation is the concatenation of the filtered parts, so the filter keeps catalog order |
| `Catalog.FilterIsMatchesInOrder` | App.jsx:77-80 | the filtered list is the catalog read at exactly the matching positions, in increasing order: a subsequence that leaves no match out |
| `Catalog.ViewIsFirstMatches` | App.jsx:77-81 | the view is exactly the first min(`visibleCount`, number of matches) matching projects, in catalog order |
| `Catalog.FilterKeepsAllMatching` | App.jsx:77-80 | when every project passes, the filter returns the catalog unchanged |
| `Catalog.FilterDropsAllFailing` | App.jsx:77-80 | when no project passes, the filter is empty |
| `Catalog.FilterIdempotent` | App.jsx:77-80 | filtering the filtered list again changes nothing |
| `Catalog.EmptyQueryMatches` | App.jsx:78 | the empty query matches every project |
| `Catalog.EmptySelectionKeepsAll` | App.jsx:77-80 | empty query with the sentinel tag keeps the whole catalog |
| `Catalog.ViewWholeCatalog` | App.jsx:77-81 | empty query, sentinel tag and a count of at least the catalog size show the whole catalog |
| `Catalog.ViewAllMatches` | App.jsx:81 | a count at least the number of matches shows every match, with no padding |
| `Catalog.ViewGrows` | App.jsx:81 | raising the count only appends to the view; once the view is short of the count, raising it changes nothing |
| `Catalog.QueryIgnoresCase` | App.jsx:78 | lower-casing the query first does not change which projects match |
| `Catalog.TagIsExact` | App.jsx:79 | under a non-sentinel tag a project matches if and only if it matches the query and its tags contain that exact string |
| `Tags.Occurrences` | App.jsx:73 | defines the nested `forEach` walk: every tag of every project, catalog order then tag order, repeats included |
| `Tags.OccurrencesMembers` | App.jsx:73 | the walked tag occurrences hold every tag of every project, and nothing else |
| `Tags.Dedup` | App.jsx:72-74 | insertion into an ordered set keeps exactly the elements of the input, each once |
| `Tags.DedupHead` | App.jsx:72 | the first element inserted stays first |
| `Tags.DedupSnoc` | App.jsx:73 | `Set.add` appends a new element and leaves the set unchanged for one already present |
| `Tags.DedupFirstOccurrenceOrder` | App.jsx:72-74 | the set lists its elements in the order of their first occurrence in the input |
| `Tags.TagList` | App.jsx:71-75 | defines `allTags`: the insertion-ordered set built from `'All'` followed by the walked tag occurrences |
| `Tags.TagListProperties` | App.jsx:71-75 | the tag bar starts with `'All'`, holds `'All'` and every project tag and nothing else, has no duplicates, and is ordered by first occurrence |
| `Tags.UnofferedTagSelectsNothing` | App.jsx:71-81 | a tag missing from the tag bar filters out every project |
| `Tags.AddTags` | App.jsx:73 | adding one project's tags to the set, one by one, gives the deduplication of everything seen so far followed by those tags |
| `Tags.AllTags` | App.jsx:71-75 | the nested loop builds exactly the specified tag bar, with `'All'` first and no duplicates |
| `Gallery.Session.Valid` | App.jsx:67-75 | the session invariant: the tag bar is the catalog's, and the count is a positive multiple of 6 |
| `Gallery.Session.Visible` | App.jsx:77-81 | defines `filtered`: the view of the catalog under the current query, tag and count |
| `Gallery.Session.constructor` | App.jsx:67-75 | a new session has an empty query, the sentinel tag, a count of 6, the catalog's tag bar, and shows the first 6 projects of the catalog |
| `Gallery.Session.SetQuery` | App.jsx:132 | typing replaces the query verbatim and leaves the tag and the count unchanged |
| `Gallery.Session.SelectTag` | App.jsx:135 | clicking a tag selects it and resets the count to 6 whatever it was; the query is unchanged and at most 6 cards show, the first 6 matches under the new tag |
| `Gallery.Session.LoadMore` | App.jsx:162 | "Load more" adds exactly 6 to the count, keeps query and tag, keeps every shown card in place, and changes nothing once every match is already shown (the old count reached the number of matches) |

Calling `View` twice with the same arguments gives the same result because
`View` is a function, so no lemma states it.

## Left out

- Rendering, Tailwind classes and `framer-motion` props (App.jsx:83-203): presentation only.
- The profile constants, the skills list and the static links (App.jsx:27-36, 91-124): data with no behaviour.
- The sample catalog (App.jsx:39-64): replaced by an arbitrary catalog; no lemma is stated about these three projects.
- The contact form's `mailto:` navigation and `encodeURIComponent` (App.jsx:183): a browser side effect over constant strings.
- The browser's `required` validation (App.jsx:184-186): done by the browser, not by the code.
- Text.LowerChar: maps only the ASCII letters A-Z; JavaScript's `toLowerCase` applies Unicode case mapping, which is not modelled.
- Text.Lower: lower-cases character by character with `Text.LowerChar`, so it keeps the length; Unicode mappings that change the length are not modelled.
- Gallery.Session.LoadMore: `visibleCount` is an unbounded `nat`; JavaScript numbers lose precision above 2^53, which a click counter cannot reach.
- React's `useState` batching and `useMemo` caching: the state is plain fields, and the tag bar is computed once, in the constructor, as `useMemo` with no dependencies does.
- Gallery.Session.SelectTag: accepts any string. In the app the handler is only bound to tags from the tag bar; `Tags.UnofferedTagSelectsNothing` says what any other tag would do.
