# Academic portfolio: listings, filters and post rendering

This project models the data logic of a personal academic website: a blog
listing and a publications listing. The blog listing has a keyword search,
tag filter buttons and published-only posts. The publications listing has
type tabs, a keyword search, grouping by year, per-type counts and a BibTeX
export. The home page derives a link slug for each recent post. The post
page rejects missing slugs and turns a post's text into HTML.

The model is split into these modules:

- `Text`: the string operations the pages use:
  - ASCII `toLowerCase`;
  - `String.prototype.includes`, proved equal to "occurs at some offset";
  - the code-point order standing in for the code-unit order of `Array.prototype.sort()`;
  - `Array.prototype.join`.
- `Listing`: the order-preserving `Array.prototype.filter` that every
  listing is built on, and its laws.
- `Blog`: models `src/pages/Blog.tsx`:
  - the post record;
  - the tag vocabulary (deduplicated, then sorted);
  - the listing predicate;
  - the page's query state as a class `Query`, whose methods are the page's
    controls.
- `Publications`: models `src/pages/Publications.tsx`:
  - the record;
  - the filter effect, as a method proved equal to a single filter pass;
  - the `groupByYear` reduce, as a loop proved equal to a map of buckets;
  - the newest-first year list;
  - the export text;
  - the tab counts;
  - the page state as a class `PublicationsView`. Its methods re-run the
    filter effect, so `filteredPublications` always matches the store, the
    term and the tab.
- `Slug`: models `title.toLowerCase().replace(/[^a-z0-9]+/g, '-')` from
  `src/pages/Index.tsx`. It also proves, for the first recent post, that the
  slug the home page links to is the id the blog listing gives that post,
  for that title and id given as word and separator lists (see "## Left out").
- `PostPage`: models the route guard of `src/pages/BlogPost.tsx` and the two
  global replacements applied to a post's content before it is injected as
  HTML.

## Model

| member | source | states |
|---|---|---|
| Text.LowerChar | src/pages/Blog.tsx:85 | an upper-case ASCII letter moves to its lower-case letter (code + 32); any other character is unchanged; the result is never upper case |
| Text.Lower | src/pages/Blog.tsx:85 | lower-casing a string keeps its length and leaves no upper-case letter |
| Text.LowerAppend | src/pages/Blog.tsx:85 | lower-casing distributes over concatenation |
| Text.LowerOfLower | src/pages/Blog.tsx:85 | a string without upper case is its own lower case, so lower-casing is idempotent |
| Text.Includes | src/pages/Blog.tsx:85 | `s.includes(t)` is true exactly when `t` occurs in `s` at some offset |
| Text.IncludesEmpty | src/pages/Blog.tsx:84-87 | the empty string is included in every string |
| Text.Less | src/pages/Blog.tsx:76 | the string order of `sort()`: a proper prefix comes first, otherwise the first differing character decides; its laws are the `Less…` lemmas below |
| Text.LessIrreflexive | src/pages/Blog.tsx:76 | no string sorts before itself |
| Text.LessTransitive | src/pages/Blog.tsx:76 | the sort order is transitive |
| Text.LessTotal | src/pages/Blog.tsx:76 | of any two different strings, one sorts before the other |
| Text.LessAsymmetric | src/pages/Blog.tsx:76 | two strings never each sort before the other |
| Text.LessEqTransitive | src/pages/Blog.tsx:76 | the non-strict order is transitive |
| Text.Join | src/pages/Publications.tsx:128 | `parts.join(sep)`: the parts in order with `sep` between each neighbouring pair; `JoinLength` and `JoinAppend` state its properties |
| Text.JoinLength | src/pages/Publications.tsx:128 | a join is as long as its parts plus one separator between each neighbouring pair |
| Text.JoinAppend | src/pages/Publications.tsx:128 | joining two non-empty lists puts exactly one separator between their joins |
| Listing.Filter | src/pages/Blog.tsx:83 | a filter never lengthens a list, and it keeps exactly the elements that pass |
| Listing.FilterIsSubseq | src/pages/Blog.tsx:83 | a filter's result is a subsequence of its input: original order, nothing added |
| Listing.FilterKeepsAll | src/pages/Publications.tsx:95 | when everything passes, the list is returned unchanged |
| Listing.FilterKeepsNone | src/pages/Publications.tsx:126 | when nothing passes, the result is empty |
| Listing.FilterIdempotent | src/pages/Blog.tsx:82-94 | filtering a filtered list again with the same test changes nothing |
| Listing.FilterAppend | src/pages/Blog.tsx:83 | a filter works on each part of a concatenation separately |
| Listing.FilterExt | src/pages/Publications.tsx:98-109 | two tests that agree on every element give the same result |
| Listing.FilterFilter | src/pages/Publications.tsx:98-109 | two filters in a row equal one filter by both tests |
| Listing.FilterMonotone | src/pages/Blog.tsx:89-90 | a stronger test keeps a subsequence of what a weaker one keeps |
| Listing.FilterMultiset | src/pages/Blog.tsx:99 | a passing value keeps all its copies; a failing value keeps none |
| Blog.FlatTags | src/pages/Blog.tsx:76 | `flatMap` over the posts holds exactly the tags of the posts |
| Blog.Distinct | src/pages/Blog.tsx:76 | `Array.from(new Set(...))` has no duplicates and exactly the input's values |
| Blog.DistinctCons | src/pages/Blog.tsx:76 | `new Set` keeps insertion order: the first value comes first, and the rest is deduplicated with that value's later copies dropped |
| Blog.DistinctSnoc | src/pages/Blog.tsx:76 | a value added at the end is kept exactly when it has not occurred before |
| Blog.DistinctOfDistinct | src/pages/Blog.tsx:76 | a list without duplicates comes back unchanged |
| Blog.Insert | src/pages/Blog.tsx:76 | insertion adds exactly one copy of the value, keeps an ordered list ordered, and keeps it strictly ordered when the value is new |
| Blog.Sort | src/pages/Blog.tsx:76 | `sort()` returns a permutation of its input in ascending order, strictly ascending when the input has no duplicates |
| Blog.StrictlyAscendingUnique | src/pages/Blog.tsx:76 | two strictly ascending lists with the same elements are equal, so the sorted vocabulary does not depend on how it is sorted |
| Blog.AllTagsSpec | src/pages/Blog.tsx:76 | the vocabulary is strictly ascending, has no duplicates, holds exactly the tags of the posts, and is the only such list |
| Blog.AllTags | src/pages/Blog.tsx:76 | the vocabulary: every post's tags, deduplicated, then sorted; `AllTagsSpec` states what it holds |
| Blog.MatchesSearch | src/pages/Blog.tsx:84-87 | the search test: an empty term, or the lower-cased term included in the lower-cased title, excerpt or some tag; `MatchesSearchIff` restates it by substring offsets |
| Blog.MatchesTags | src/pages/Blog.tsx:89-90 | the tag test: no tag selected, or every selected tag among the post's tags, compared exactly; `FilteredMonotone` and `FilteredBySet` state its consequences |
| Blog.Matches | src/pages/Blog.tsx:92 | a post is listed when it passes the search test, the tag test and is published; `UnpublishedHidden` states the published gate |
| Blog.FilteredPosts | src/pages/Blog.tsx:82-94 | a post is listed exactly when it is in the store and passes the search, tag and published tests |
| Blog.MatchesSearchIff | src/pages/Blog.tsx:84-87 | a post passes the search exactly when the term is empty or the lower-cased term occurs in the lower-cased title, excerpt or some tag |
| Blog.SearchIgnoresCase | src/pages/Blog.tsx:84-87 | upper- or lower-case in the term makes no difference |
| Blog.UnpublishedHidden | src/pages/Blog.tsx:92 | an unpublished post is never listed, whatever the query |
| Blog.FilteredIsSubseq | src/pages/Blog.tsx:82-94 | the listing keeps the store order and adds nothing |
| Blog.FilteredIdempotent | src/pages/Blog.tsx:82-94 | filtering the listing again with the same query changes nothing |
| Blog.FilteredMonotone | src/pages/Blog.tsx:89-90 | selecting one more tag can only narrow the listing |
| Blog.FilteredBySet | src/pages/Blog.tsx:89-90 | only the set of selected tags matters, not their order or repetition |
| Blog.FilteredCleared | src/pages/Blog.tsx:104-107 | with no term and no tags, the listing is the published posts in store order |
| Blog.Toggled | src/pages/Blog.tsx:96-102 | toggling a selected tag removes every copy of it and keeps the rest in order; toggling an unselected tag appends it |
| Blog.ToggleTwice | src/pages/Blog.tsx:96-102 | toggling twice restores the set of selected tags, and restores the selection itself when the tag was not selected |
| Blog.ToggleTwiceIff | src/pages/Blog.tsx:96-102 | toggling twice restores the selection exactly when the tag was not selected, or was selected once and in last place |
| Blog.ToggleTwiceListing | src/pages/Blog.tsx:96-102 | toggling a tag twice leaves the listing unchanged |
| Blog.Query.constructor | src/pages/Blog.tsx:79-80 | the search term and the selected tags start empty |
| Blog.Query.SetSearchTerm | src/pages/Blog.tsx:130 | the search box replaces the term and leaves the tags alone |
| Blog.Query.ToggleTag | src/pages/Blog.tsx:96-102 | a tag button applies `Toggled` to the selection and leaves the term alone |
| Blog.Query.ClearFilters | src/pages/Blog.tsx:104-107 | clearing empties both the term and the selection |
| Blog.Query.Results | src/pages/Blog.tsx:82-94 | the current listing holds exactly the store's posts that match the current state |
| Publications.MatchesSearch | src/pages/Publications.tsx:103-109 | the search test: the lower-cased term included in the lower-cased title, some author or the venue; `MatchesSearchIff` restates it by substring offsets |
| Publications.Visible | src/pages/Publications.tsx:98-109 | a record is shown when it has the tab's type (any type on `'all'`) and the term is empty or it passes the search test; `FilterPublications` ties it to the effect's two steps |
| Publications.Filtered | src/pages/Publications.tsx:94-112 | a record is shown exactly when it is in the store, has the tab's type (any type on `'all'`), and matches the term when the term is not empty |
| Publications.FilterPublications | src/pages/Publications.tsx:94-112 | the effect's two steps (type filter, then search filter) equal one filter pass with the combined test |
| Publications.ShowAll | src/pages/Publications.tsx:98-100 | on `'all'` with an empty term the whole store is shown, in order |
| Publications.ShowType | src/pages/Publications.tsx:98-100 | on a type tab with an empty term the shown list is that type's records, in order |
| Publications.MatchesSearchIff | src/pages/Publications.tsx:103-109 | a record matches exactly when the lower-cased term occurs in its lower-cased title, some author, or its venue |
| Publications.VisibleIgnoresOtherFields | src/pages/Publications.tsx:103-109 | the DOI, abstract and BibTeX never change whether a record is shown |
| Publications.SearchIgnoresCase | src/pages/Publications.tsx:103-109 | upper- or lower-case in the term makes no difference |
| Publications.FilteredIsSubseq | src/pages/Publications.tsx:94-112 | the shown list keeps the store order and adds nothing |
| Publications.FilteredIdempotent | src/pages/Publications.tsx:94-112 | filtering the shown list again changes nothing |
| Publications.Push | src/pages/Publications.tsx:144-147 | one reducer step on a map: the record's year gets a bucket if it has none, and the record is appended to it; `PushYear` is proved to compute it and `GroupedSnoc` ties it to the groups |
| Publications.GroupedSnoc | src/pages/Publications.tsx:141-150 | appending a record extends its year's bucket (creating it if missing) and no other bucket |
| Publications.GroupedStep | src/pages/Publications.tsx:142-148 | one reduce step turns the grouping of a prefix into the grouping of the next prefix |
| Publications.PushYear | src/pages/Publications.tsx:142-148 | the reducer creates a missing bucket, then pushes the record onto its year's bucket |
| Publications.GroupByYear | src/pages/Publications.tsx:141-150 | the reduce returns, for each year present, that year's records in list order |
| Publications.GroupedPartition | src/pages/Publications.tsx:141-150 | every record is in its own year's bucket and in no other |
| Publications.GroupedBuckets | src/pages/Publications.tsx:141-150 | every bucket is non-empty, holds only its year's records, and keeps list order |
| Publications.BucketSizesCons | src/pages/Publications.tsx:141-150 | a record in front adds one to the bucket total exactly when its year is counted |
| Publications.BucketSizesTotal | src/pages/Publications.tsx:141-150 | over distinct years covering every record, the bucket sizes add up to the number of records |
| Publications.Max | src/pages/Publications.tsx:153 | the greatest year is one of the years and at least every year |
| Publications.SortDescending | src/pages/Publications.tsx:153 | the year keys sorted with `b - a` are strictly decreasing and are exactly the keys |
| Publications.Years | src/pages/Publications.tsx:153 | the years listed: the group keys, newest first; `YearsPartition` states their order and coverage |
| Publications.YearsPartition | src/pages/Publications.tsx:152-153 | the listed years are strictly decreasing, are exactly the years of the shown records, and their buckets share out all of those records |
| Publications.HasBibtex | src/pages/Publications.tsx:126 | `pub.bibtex` is truthy: present and not the empty string |
| Publications.Entries | src/pages/Publications.tsx:125-127 | the entries are exactly the non-empty BibTeX texts of the shown records |
| Publications.EntriesAppend | src/pages/Publications.tsx:125-127 | entries are taken from each part of a list separately, in order |
| Publications.ExportContent | src/pages/Publications.tsx:124-128 | the export text: the entries joined by one blank line (`"\n\n"`); `ExportNone`, `ExportOne`, `ExportAppend` and `ExportLength` state its properties |
| Publications.ExportNone | src/pages/Publications.tsx:124-128 | with no BibTeX among the shown records, the export is empty |
| Publications.ExportOne | src/pages/Publications.tsx:124-128 | with exactly one entry, the export is that entry with no separator |
| Publications.ExportAppend | src/pages/Publications.tsx:124-128 | the exports of two lists are joined by exactly one blank line |
| Publications.ExportLength | src/pages/Publications.tsx:124-128 | the export is as long as its entries plus two characters per gap between them |
| Publications.Counts | src/pages/Publications.tsx:206-214 | the four badge numbers: the store's length and the number of records of each type, all over the whole store |
| Publications.CountsSum | src/pages/Publications.tsx:206-214 | the three type counts add up to the `All` count |
| Publications.CountsMatchTabs | src/pages/Publications.tsx:206-214 | each tab's badge equals the length of what that tab shows when the search box is empty |
| Publications.PublicationsView.constructor | src/pages/Publications.tsx:87-91 | the page starts on the fallback store, the `'all'` tab and an empty term, showing the whole store |
| Publications.PublicationsView.SetSearchTerm | src/pages/Publications.tsx:199 | a new term re-runs the filter; the store and the tab stay |
| Publications.PublicationsView.SelectTab | src/pages/Publications.tsx:204 | a new tab re-runs the filter; the store and the term stay |
| Publications.PublicationsView.ReplaceStore | src/pages/Publications.tsx:114-122 | replacing the store re-runs the filter; the term and the tab stay |
| Publications.PublicationsView.ExportBibTeX | src/pages/Publications.tsx:124-128 | the download holds the entries of the shown records only |
| Publications.PublicationsView.ByYear | src/pages/Publications.tsx:152 | the grouping is `Grouped` of the shown records, so `GroupedPartition`, `GroupedBuckets` and `YearsPartition` apply to it: a bucket for exactly the years of the shown records, each holding that year's shown records in order |
| Publications.PublicationsView.TabCountsNow | src/pages/Publications.tsx:206-214 | the badges count the whole store, never the shown list: `All` is the store's length, and Journal, Conference and Preprint are the numbers of the store's records of that type; the three type counts add up to `All` |
| Slug.RunLength | src/pages/Index.tsx:152 | the length of one match of `[^a-z0-9]+` at the front: the run holds no `[a-z0-9]` character and stops at the end or just before one |
| Slug.Hyphenate | src/pages/Index.tsx:152 | `replace(/[^a-z0-9]+/g, '-')`: a `[a-z0-9]` character is copied, a maximal run of others becomes one `-`; the result is empty exactly when the input is, and starts with the input's first character or with `-` |
| Slug.HyphenateShape | src/pages/Index.tsx:152 | after the replacement only `[a-z0-9]` and single dashes are left |
| Slug.Slug | src/pages/Index.tsx:152 | a slug is made of `[a-z0-9]` and `-`, with no two dashes side by side |
| Slug.SlugKeepsAlphanumerics | src/pages/Index.tsx:152 | removing a slug's dashes leaves exactly the `[a-z0-9]` characters of the lower-cased title, in order |
| Slug.HyphenateKeepsAlphanumerics | src/pages/Index.tsx:152 | the replacement keeps every `[a-z0-9]` character and adds none |
| Slug.HyphenateLast | src/pages/Index.tsx:152 | the last character of the result is `-` when the input ends outside `[a-z0-9]`, and is the input's last character otherwise |
| Slug.SlugEnds | src/pages/Index.tsx:152 | the slug starts and ends with `-` exactly when the lower-cased title starts or ends outside `[a-z0-9]`: nothing is trimmed |
| Slug.HyphenateFixed | src/pages/Index.tsx:152 | a string of `[a-z0-9]` and single dashes is unchanged by the replacement |
| Slug.SlugIdempotent | src/pages/Index.tsx:152 | the slug of a slug is the slug itself |
| Slug.HyphenateAppend | src/pages/Index.tsx:152 | text ending in `[a-z0-9]` is replaced independently of what follows it |
| Slug.RunLengthAppend | src/pages/Index.tsx:152 | a match of `[^a-z0-9]+` that ends inside `a` does not depend on what follows `a` |
| Slug.HyphenateSeparator | src/pages/Index.tsx:152 | a non-empty run outside `[a-z0-9]`, followed by a word or by nothing, becomes one `-` |
| Slug.HyphenateWords | src/pages/Index.tsx:152 | words of `[a-z0-9]` separated by runs of other characters become the words joined by `-` |
| Slug.LowerSpaced | src/pages/Index.tsx:152 | lower-casing a spaced title lower-cases each word and each separator |
| Slug.SlugOfWords | src/pages/Index.tsx:152 | a title made of words and separators slugs to its lower-cased words joined by `-` |
| Slug.NextflowSlug | src/pages/Index.tsx:24 | the first recent post's title, given as its words and separators, slugs to that post's id in the blog listing (src/pages/Blog.tsx:21), given as its words joined by `-` |
| Slug.CondaSlugEndsWithDash | src/pages/Index.tsx:31 | the second recent post's title ends in `)`, so its slug ends in `-` |
| PostPage.Route | src/pages/BlogPost.tsx:223-227 | the page redirects to `/blog` exactly when the slug is missing, empty or not a key of the table; otherwise it shows that key's entry |
| PostPage.ReplaceNewlines | src/pages/BlogPost.tsx:278 | `replace(/\n/g, '<br>')`: each newline becomes `<br>`, every other character is kept; `ReplaceNewlinesShape`, `ReplaceNewlinesLength` and `ReplaceNewlinesNone` state its properties |
| PostPage.ReplaceNewlinesShape | src/pages/BlogPost.tsx:278 | after `replace(/\n/g, '<br>')` no newline is left, no backtick is added, and non-empty text stays non-empty |
| PostPage.ReplaceNewlinesAppend | src/pages/BlogPost.tsx:278 | the newline replacement works on each part of a string separately |
| PostPage.ReplaceNewlinesLength | src/pages/BlogPost.tsx:278 | each newline makes the text three characters longer |
| PostPage.ReplaceNewlinesNone | src/pages/BlogPost.tsx:278 | text without newlines is unchanged |
| PostPage.TickFreeRun | src/pages/BlogPost.tsx:278 | `[^`]+` takes the longest run of non-backtick characters, stopping at the first backtick or at the end |
| PostPage.FenceAt | src/pages/BlogPost.tsx:278 | a match at the front is three backticks, a non-empty backtick-free body, and three backticks |
| PostPage.TickFreeRunPrefix | src/pages/BlogPost.tsx:278 | the run stops exactly at the first backtick |
| PostPage.FenceAtBlock | src/pages/BlogPost.tsx:278 | every well-formed fenced block at the front is matched with its whole body |
| PostPage.Fence | src/pages/BlogPost.tsx:278 | the fence replacement adds no newline |
| PostPage.FenceBlock | src/pages/BlogPost.tsx:278 | a fenced block at the front becomes `<pre><code>` around its body, followed by the rest replaced on its own |
| PostPage.FenceCons | src/pages/BlogPost.tsx:278 | a character other than a backtick cannot start a match, so it is copied |
| PostPage.FenceTickFreePrefix | src/pages/BlogPost.tsx:278 | text before the first backtick is copied unchanged (matches are taken leftmost first) |
| PostPage.FenceNone | src/pages/BlogPost.tsx:278 | text without three backticks in a row is unchanged |
| PostPage.Render | src/pages/BlogPost.tsx:278 | the injected HTML: the fence replacement applied after the newline replacement; `RenderNoNewline`, `RenderPlain`, `RenderBlock` and `RenderTickFreePrefix` state its properties |
| PostPage.RenderNoNewline | src/pages/BlogPost.tsx:278 | the injected HTML has no newline, inside code blocks or outside them |
| PostPage.RenderPlain | src/pages/BlogPost.tsx:278 | content with no newline and no triple backtick is injected unchanged |
| PostPage.ReplaceNewlinesBlock | src/pages/BlogPost.tsx:278 | the newline pass goes through a block's fences and rewrites its body |
| PostPage.RenderBlock | src/pages/BlogPost.tsx:278 | a fenced block becomes `<pre><code>` around its body with newlines as `<br>`, followed by the rest rendered on its own |
| PostPage.RenderTickFreePrefix | src/pages/BlogPost.tsx:278 | text before the first backtick only has its newlines replaced |

## Left out

- Rendering of the pages (JSX, styling, icons and date formatting) is not modelled. Only the data each page computes is.
- React scheduling is not modelled: `useState`, `useMemo` and `useEffect` re-running after a state change. Each class method performs the state change and the recomputation together.
- Text.Lower: models `toLowerCase` on ASCII letters only. Unicode case mapping (accented letters, characters whose lower case is longer) is not modelled.
- Text.Less: compares characters by code point. JavaScript's default `sort()` compares UTF-16 code units; the two orders differ only above the Basic Multilingual Plane.
- Blog.Sort: the sorting algorithm of the JavaScript engine is not modelled. `Blog.StrictlyAscendingUnique` shows that every correct sort gives the same vocabulary here, because the list has no duplicates.
- PostPage.Route: `!blogPostContent[slug]` is also false for keys inherited from `Object.prototype` such as `constructor`. The model looks up only the table's own keys.
- The post table itself (src/pages/BlogPost.tsx:7-218) is not modelled. `Route` takes the table as a parameter.
- Publications.Publication: `year` is a JavaScript number, modelled as an unbounded integer. `Object.keys(...).map(Number)` round-trips integers exactly, so no conversion is modelled.
- Publications.Tab: the tab value is a string in the source. It is modelled as the four values the tab control can emit.
- Publications.PublicationsView.ReplaceStore: models only the end state of "Sync from ORCID", where the store becomes the fallback list. The `setTimeout` delay, the `isLoading` flag and the network call that the comment anticipates are not modelled.
- Publications.PublicationsView.ExportBibTeX: models only the text of the download. The `Blob`, the object URL and the temporary link click are browser I/O.
- Publications.SortDescending and Publications.Max are ghost: they specify the year order without a particular sorting algorithm.
- The fallback data of the publications page, and the blog posts other than the two titles used by `Slug.NextflowSlug` and `Slug.CondaSlugEndsWithDash`, are not modelled.
- Slug.NextflowSlug: the title and the id enter as word and separator lists. That these spell the literal title at src/pages/Index.tsx:24 and the literal id at src/pages/Blog.tsx:21 is read off the lists and stated in a comment, not proved: string-literal equalities of that length are too costly for the solver.
- The record datatypes `Blog.BlogPost` and `Publications.Publication` have no row above, since rows name functions, methods and lemmas. They mirror the records at src/pages/Blog.tsx:8-17 and src/pages/Publications.tsx:9-18 field by field.
- The remaining pages and components (navigation, contact, CV, UI widgets) are not part of this model.
