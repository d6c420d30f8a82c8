/**
 The publications page (src/pages/Publications.tsx): the type tab and search
 filter, the grouping of the filtered list by year with the years listed
 newest first, the BibTeX export text, and the per-type counts on the tabs.
 */
module Publications {
  import opened Wrappers
  import opened Text
  import opened Listing

  datatype PubType = Journal | Conference | Preprint

  /** A record of the store; `type` and `abstract` are named `kind` and `abstractText` here. */
  datatype Publication = Publication(
    title: string,
    authors: seq<string>,
    venue: string,
    year: int,
    doi: Option<string>,
    kind: PubType,
    abstractText: Option<string>,
    bibtex: Option<string>)

  /** The value of the tab control: `'all'` or one publication type. */
  datatype Tab = AllTab | TypeTab(kind: PubType)

  // ---------------------------------------------------------------------
  // Type and search filter.
  // ---------------------------------------------------------------------

  function OfType(k: PubType): Publication -> bool {
    (p: Publication) => p.kind == k
  }

  /** The lower-cased term inside the lower-cased title, some author or the venue. */
  predicate MatchesSearch(p: Publication, term: string) {
    var q := Lower(term);
    Includes(Lower(p.title), q) ||
    (exists a :: a in p.authors && Includes(Lower(a), q)) ||
    Includes(Lower(p.venue), q)
  }

  function SearchFor(term: string): Publication -> bool {
    p => MatchesSearch(p, term)
  }

  /** Whether a record is shown for the search term and tab, as a single test. */
  predicate Visible(p: Publication, term: string, tab: Tab) {
    (tab.AllTab? || p.kind == tab.kind) && (term == "" || MatchesSearch(p, term))
  }

  function VisibleFor(term: string, tab: Tab): Publication -> bool {
    p => Visible(p, term, tab)
  }

  /** The records shown, as one filter pass over the store. */
  function Filtered(publications: seq<Publication>, term: string, tab: Tab): (r: seq<Publication>)
    ensures forall p :: p in r <==> p in publications && Visible(p, term, tab)
  {
    Filter(publications, VisibleFor(term, tab))
  }

  /** The filter effect: narrow by type unless the tab is `'all'`, then by the search term if it is not empty. */
  method FilterPublications(publications: seq<Publication>, searchTerm: string, activeTab: Tab)
    returns (filtered: seq<Publication>)
    ensures filtered == Filtered(publications, searchTerm, activeTab)
  {
    filtered := publications;
    if activeTab != AllTab {
      filtered := Filter(filtered, OfType(activeTab.kind));
    }
    assert filtered == Filter(publications, VisibleFor("", activeTab)) by {
      if activeTab == AllTab {
        FilterKeepsAll(publications, VisibleFor("", activeTab));
      } else {
        FilterExt(publications, OfType(activeTab.kind), VisibleFor("", activeTab));
      }
    }
    if searchTerm != "" {
      filtered := Filter(filtered, SearchFor(searchTerm));
      FilterFilter(publications, VisibleFor("", activeTab), SearchFor(searchTerm), VisibleFor(searchTerm, activeTab));
    } else {
      FilterExt(publications, VisibleFor("", activeTab), VisibleFor(searchTerm, activeTab));
    }
  }

  /** On the `'all'` tab with no search term every record is shown, in store order. */
  lemma ShowAll(publications: seq<Publication>)
    ensures Filtered(publications, "", AllTab) == publications
  {
    FilterKeepsAll(publications, VisibleFor("", AllTab));
  }

  /** On a type tab with no search term exactly the records of that type are shown, in store order. */
  lemma ShowType(publications: seq<Publication>, k: PubType)
    ensures Filtered(publications, "", TypeTab(k)) == Filter(publications, OfType(k))
  {
    FilterExt(publications, VisibleFor("", TypeTab(k)), OfType(k));
  }

  /**
   The search in terms of substring occurrence: a record passes iff the
   lower-cased term occurs at some offset of its lower-cased title, of one
   of its authors, or of its venue.
   */
  lemma MatchesSearchIff(p: Publication, term: string)
    ensures MatchesSearch(p, term) <==>
      (exists i :: OccursAt(Lower(p.title), Lower(term), i)) ||
      (exists k, i :: 0 <= k < |p.authors| && OccursAt(Lower(p.authors[k]), Lower(term), i)) ||
      (exists i :: OccursAt(Lower(p.venue), Lower(term), i))
  {
    var q := Lower(term);
    if exists a :: a in p.authors && Includes(Lower(a), q) {
      var a :| a in p.authors && Includes(Lower(a), q);
      var k :| 0 <= k < |p.authors| && p.authors[k] == a;
      var i :| OccursAt(Lower(a), q, i);
      assert OccursAt(Lower(p.authors[k]), q, i);
    }
    if exists k, i :: 0 <= k < |p.authors| && OccursAt(Lower(p.authors[k]), q, i) {
      var k, i :| 0 <= k < |p.authors| && OccursAt(Lower(p.authors[k]), q, i);
      assert p.authors[k] in p.authors && Includes(Lower(p.authors[k]), q);
    }
  }

  /** The abstract, DOI and BibTeX of a record play no part in whether it is shown. */
  lemma VisibleIgnoresOtherFields(p: Publication, term: string, tab: Tab,
                                  doi: Option<string>, abs: Option<string>, bib: Option<string>)
    ensures Visible(p.(doi := doi, abstractText := abs, bibtex := bib), term, tab) == Visible(p, term, tab)
  {
  }

  /** The search ignores the case of the term. */
  lemma SearchIgnoresCase(p: Publication, term: string)
    ensures MatchesSearch(p, Lower(term)) == MatchesSearch(p, term)
  {
    LowerOfLower(term);
  }

  /** The shown list is the store in its original order with some records left out. */
  lemma FilteredIsSubseq(publications: seq<Publication>, term: string, tab: Tab)
    ensures IsSubseq(Filtered(publications, term, tab), publications)
  {
    FilterIsSubseq(publications, VisibleFor(term, tab));
  }

  /** Filtering the shown list again with the same term and tab changes nothing. */
  lemma FilteredIdempotent(publications: seq<Publication>, term: string, tab: Tab)
    ensures Filtered(Filtered(publications, term, tab), term, tab) == Filtered(publications, term, tab)
  {
    FilterIdempotent(publications, VisibleFor(term, tab));
  }

  // ---------------------------------------------------------------------
  // Grouping by year.
  // ---------------------------------------------------------------------

  function InYear(y: int): Publication -> bool {
    (p: Publication) => p.year == y
  }

  /** The records of year `y`, in list order. */
  function Bucket(pubs: seq<Publication>, y: int): seq<Publication> {
    Filter(pubs, InYear(y))
  }

  /** One bucket for each year that occurs. */
  function Grouped(pubs: seq<Publication>): map<int, seq<Publication>> {
    map y | y in (set p | p in pubs :: p.year) :: Bucket(pubs, y)
  }

  /** The years grouped are exactly the years of the records. */
  lemma GroupedKeys(pubs: seq<Publication>)
    ensures forall y :: y in Grouped(pubs) <==> exists p :: p in pubs && p.year == y
  {
  }

  /** `acc[year].push(pub)`, creating the bucket first when it is missing. */
  function Push(g: map<int, seq<Publication>>, p: Publication): map<int, seq<Publication>> {
    g[p.year := (if p.year in g then g[p.year] else []) + [p]]
  }

  /** Appending a record extends the bucket of its year, creating it when missing, and no other. */
  lemma GroupedSnoc(pubs: seq<Publication>, p: Publication)
    ensures Grouped(pubs + [p]) == Push(Grouped(pubs), p)
  {
    var g', h := Grouped(pubs + [p]), Push(Grouped(pubs), p);
    GroupedSnocKeys(pubs, p);
    forall y | y in g' ensures g'[y] == h[y] {
      GroupedSnocBucket(pubs, p, y);
    }
  }

  lemma GroupedSnocKeys(pubs: seq<Publication>, p: Publication)
    ensures Grouped(pubs + [p]).Keys == Grouped(pubs).Keys + {p.year}
  {
    GroupedKeys(pubs);
    GroupedKeys(pubs + [p]);
    assert p in pubs + [p];
    forall y | y in Grouped(pubs + [p]) && y != p.year ensures y in Grouped(pubs) {
      var q :| q in pubs + [p] && q.year == y;
      assert q in pubs;
    }
    forall y | y in Grouped(pubs) ensures y in Grouped(pubs + [p]) {
      var q :| q in pubs && q.year == y;
      assert q in pubs + [p];
    }
  }

  lemma GroupedSnocBucket(pubs: seq<Publication>, p: Publication, y: int)
    requires y in Grouped(pubs + [p])
    ensures y in Push(Grouped(pubs), p)
    ensures Grouped(pubs + [p])[y] == Push(Grouped(pubs), p)[y]
  {
    GroupedSnocKeys(pubs, p);
    FilterAppend(pubs, [p], InYear(y));
    if y !in Grouped(pubs) {
      FilterKeepsNone(pubs, InYear(y));
    }
  }

  /** One step of the reduce. */
  lemma GroupedStep(pubs: seq<Publication>, i: nat)
    requires i < |pubs|
    ensures Grouped(pubs[..i + 1]) == Push(Grouped(pubs[..i]), pubs[i])
  {
    assert pubs[..i + 1] == pubs[..i] + [pubs[i]];
    GroupedSnoc(pubs[..i], pubs[i]);
  }

  /** The reducer of `groupByYear`: create the bucket of the record's year when missing, then push onto it. */
  method PushYear(acc: map<int, seq<Publication>>, pub: Publication) returns (r: map<int, seq<Publication>>)
    ensures r == Push(acc, pub)
  {
    r := acc;
    var year := pub.year;
    if year !in r {
      r := r[year := []];
    }
    r := r[year := r[year] + [pub]];
  }

  /** `groupByYear`: a reduce that pushes each record onto the bucket of its year. */
  method GroupByYear(pubs: seq<Publication>) returns (acc: map<int, seq<Publication>>)
    ensures acc == Grouped(pubs)
  {
    acc := map[];
    var i := 0;
    while i < |pubs|
      invariant 0 <= i <= |pubs|
      invariant acc == Grouped(pubs[..i])
    {
      acc := PushYear(acc, pubs[i]);
      GroupedStep(pubs, i);
      i := i + 1;
    }
    assert pubs[..i] == pubs;
  }

  /** Every record lies in the bucket of its own year and in no other bucket. */
  lemma GroupedPartition(pubs: seq<Publication>, p: Publication, y: int)
    requires p in pubs
    ensures p.year in Grouped(pubs) && p in Grouped(pubs)[p.year]
    ensures y in Grouped(pubs) && p in Grouped(pubs)[y] ==> y == p.year
  {
    GroupedKeys(pubs);
  }

  /** Each bucket is non-empty, holds only its year, and keeps list order. */
  lemma GroupedBuckets(pubs: seq<Publication>, y: int)
    requires y in Grouped(pubs)
    ensures var b := Grouped(pubs)[y];
      b != [] && (forall p :: p in b ==> p.year == y) && IsSubseq(b, pubs)
  {
    GroupedKeys(pubs);
    var q :| q in pubs && q.year == y;
    assert q in Grouped(pubs)[y];
    FilterIsSubseq(pubs, InYear(y));
  }

  predicate DistinctYears(ys: seq<int>) {
    forall i, j :: 0 <= i < j < |ys| ==> ys[i] != ys[j]
  }

  /** The total size of the buckets of the years `ys`. */
  function BucketSizes(pubs: seq<Publication>, ys: seq<int>): nat {
    if ys == [] then 0 else |Bucket(pubs, ys[0])| + BucketSizes(pubs, ys[1..])
  }

  lemma {:induction false} BucketSizesEmpty(ys: seq<int>)
    ensures BucketSizes([], ys) == 0
  {
    if ys != [] { BucketSizesEmpty(ys[1..]); }
  }

  /** A record in front adds one to the total exactly when its year is among `ys`. */
  lemma {:induction false} BucketSizesCons(p: Publication, rest: seq<Publication>, ys: seq<int>)
    requires DistinctYears(ys)
    ensures BucketSizes([p] + rest, ys) == BucketSizes(rest, ys) + (if p.year in ys then 1 else 0)
  {
    if ys != [] {
      assert DistinctYears(ys[1..]);
      BucketSizesCons(p, rest, ys[1..]);
      assert ([p] + rest)[1..] == rest;
      assert ys[0] == p.year ==> p.year !in ys[1..];
    }
  }

  /** Over a duplicate-free list of years covering every record, the bucket sizes add up to the list length. */
  lemma {:induction false} BucketSizesTotal(pubs: seq<Publication>, ys: seq<int>)
    requires DistinctYears(ys)
    requires forall p :: p in pubs ==> p.year in ys
    ensures BucketSizes(pubs, ys) == |pubs|
  {
    if pubs == [] {
      BucketSizesEmpty(ys);
    } else {
      BucketSizesTotal(pubs[1..], ys);
      BucketSizesCons(pubs[0], pubs[1..], ys);
      assert [pubs[0]] + pubs[1..] == pubs;
    }
  }

  /** The largest element of a non-empty set of years. */
  ghost function Max(ys: set<int>): (m: int)
    requires ys != {}
    ensures m in ys && forall y :: y in ys ==> y <= m
    decreases |ys|
  {
    assert (forall y :: y !in ys) ==> ys == {};
    var x :| x in ys;
    if ys == {x} then x
    else
      var m := Max(ys - {x});
      assert forall y :: y in ys ==> y == x || y in ys - {x};
      if x > m then x else m
  }

  /** The year keys newest first: `Object.keys(...).map(Number).sort((a, b) => b - a)`. */
  ghost function SortDescending(ys: set<int>): (r: seq<int>)
    ensures forall i, j :: 0 <= i < j < |r| ==> r[i] > r[j]
    ensures forall y :: y in r <==> y in ys
    decreases |ys|
  {
    if ys == {} then []
    else
      var m := Max(ys);
      [m] + SortDescending(ys - {m})
  }

  ghost function Years(groups: map<int, seq<Publication>>): seq<int> {
    SortDescending(groups.Keys)
  }

  /** The years shown are the years of the shown records, strictly decreasing, and their buckets share out all of the records. */
  lemma YearsPartition(pubs: seq<Publication>)
    ensures var ys := Years(Grouped(pubs));
      (forall i, j :: 0 <= i < j < |ys| ==> ys[i] > ys[j]) &&
      (forall y :: y in ys <==> exists p :: p in pubs && p.year == y) &&
      BucketSizes(pubs, ys) == |pubs|
  {
    GroupedKeys(pubs);
    var ys := Years(Grouped(pubs));
    forall p | p in pubs ensures p.year in ys {
      assert p.year in Grouped(pubs);
    }
    BucketSizesTotal(pubs, ys);
  }

  // ---------------------------------------------------------------------
  // BibTeX export.
  // ---------------------------------------------------------------------

  /** `pub.bibtex` is truthy: present and not empty. */
  predicate HasBibtex(p: Publication) {
    p.bibtex.Some? && p.bibtex.value != ""
  }

  /** `.filter(pub => pub.bibtex).map(pub => pub.bibtex)`. */
  function Entries(filtered: seq<Publication>): (r: seq<string>)
    ensures forall e :: e in r <==> exists p :: p in filtered && HasBibtex(p) && e == p.bibtex.value
  {
    var f := Filter(filtered, HasBibtex);
    var r := seq(|f|, i requires 0 <= i < |f| => assert f[i] in f; f[i].bibtex.value);
    assert forall e :: e in r ==> exists p :: p in filtered && HasBibtex(p) && e == p.bibtex.value by {
      forall e | e in r ensures exists p :: p in filtered && HasBibtex(p) && e == p.bibtex.value {
        var i :| 0 <= i < |r| && r[i] == e;
        assert f[i] in f;
      }
    }
    assert forall p :: p in filtered && HasBibtex(p) ==> p.bibtex.value in r by {
      forall p | p in filtered && HasBibtex(p) ensures p.bibtex.value in r {
        var i :| 0 <= i < |f| && f[i] == p;
        assert r[i] == p.bibtex.value;
      }
    }
    r
  }

  /** The text written to `publications.bib`. */
  function ExportContent(filtered: seq<Publication>): string {
    Join(Entries(filtered), "\n\n")
  }

  lemma {:induction false} EntriesAppend(a: seq<Publication>, b: seq<Publication>)
    ensures Entries(a + b) == Entries(a) + Entries(b)
  {
    FilterAppend(a, b, HasBibtex);
  }

  /** No record with a BibTeX entry: the export is empty. */
  lemma ExportNone(filtered: seq<Publication>)
    requires forall p :: p in filtered ==> !HasBibtex(p)
    ensures ExportContent(filtered) == ""
  {
    FilterKeepsNone(filtered, HasBibtex);
  }

  /** Exactly one record with a BibTeX entry: the export is that entry, with no separator. */
  lemma ExportOne(filtered: seq<Publication>, p: Publication)
    requires Filter(filtered, HasBibtex) == [p]
    ensures HasBibtex(p) && ExportContent(filtered) == p.bibtex.value
  {
    assert p in Filter(filtered, HasBibtex);
  }

  /** Exporting two lists one after the other puts one blank line between their exports. */
  lemma ExportAppend(a: seq<Publication>, b: seq<Publication>)
    requires Entries(a) != [] && Entries(b) != []
    ensures ExportContent(a + b) == ExportContent(a) + "\n\n" + ExportContent(b)
  {
    EntriesAppend(a, b);
    JoinAppend(Entries(a), Entries(b), "\n\n");
  }

  /** The export is as long as its entries plus two characters between each neighbouring pair. */
  lemma ExportLength(filtered: seq<Publication>)
    requires Entries(filtered) != []
    ensures |ExportContent(filtered)| == TotalLength(Entries(filtered)) + 2 * (|Entries(filtered)| - 1)
  {
    JoinLength(Entries(filtered), "\n\n");
  }

  // ---------------------------------------------------------------------
  // Tab counts.
  // ---------------------------------------------------------------------

  datatype TabCounts = TabCounts(all: nat, journal: nat, conference: nat, preprint: nat)

  /** The numbers on the four tabs, all taken over the whole store. */
  function Counts(publications: seq<Publication>): TabCounts {
    TabCounts(
      |publications|,
      |Filter(publications, OfType(Journal))|,
      |Filter(publications, OfType(Conference))|,
      |Filter(publications, OfType(Preprint))|)
  }

  /** Every record has exactly one of the three types, so the type counts add up to the `all` count. */
  lemma {:induction false} CountsSum(publications: seq<Publication>)
    ensures var c := Counts(publications); c.journal + c.conference + c.preprint == c.all
  {
    if publications != [] { CountsSum(publications[1..]); }
  }

  /** Each tab's count is the length of the list that tab shows while the search box is empty. */
  lemma CountsMatchTabs(publications: seq<Publication>)
    ensures var c := Counts(publications);
      c.all == |Filtered(publications, "", AllTab)| &&
      c.journal == |Filtered(publications, "", TypeTab(Journal))| &&
      c.conference == |Filtered(publications, "", TypeTab(Conference))| &&
      c.preprint == |Filtered(publications, "", TypeTab(Preprint))|
  {
    ShowAll(publications);
    ShowType(publications, Journal);
    ShowType(publications, Conference);
    ShowType(publications, Preprint);
  }

  // ---------------------------------------------------------------------
  // The page state.
  // ---------------------------------------------------------------------

  /** The page's `publications`, `searchTerm`, `activeTab` and `filteredPublications` state. */
  class PublicationsView {
    var publications: seq<Publication>
    var searchTerm: string
    var activeTab: Tab
    var filteredPublications: seq<Publication>

    /** The filter effect has run on the current store, term and tab. */
    predicate Valid()
      reads this
    {
      filteredPublications == Filtered(publications, searchTerm, activeTab)
    }

    /** Starts on the fallback store, the `'all'` tab and an empty search, showing the whole store. */
    constructor (store: seq<Publication>)
      ensures Valid()
      ensures publications == store && searchTerm == "" && activeTab == AllTab
      ensures filteredPublications == store
    {
      publications := store;
      searchTerm := "";
      activeTab := AllTab;
      filteredPublications := store;
      ShowAll(store);
    }

    method SetSearchTerm(term: string)
      modifies this
      ensures Valid()
      ensures searchTerm == term && publications == old(publications) && activeTab == old(activeTab)
    {
      searchTerm := term;
      filteredPublications := FilterPublications(publications, searchTerm, activeTab);
    }

    method SelectTab(tab: Tab)
      modifies this
      ensures Valid()
      ensures activeTab == tab && publications == old(publications) && searchTerm == old(searchTerm)
    {
      activeTab := tab;
      filteredPublications := FilterPublications(publications, searchTerm, activeTab);
    }

    /** The end of an ORCID sync: the store is replaced as a whole. */
    method ReplaceStore(store: seq<Publication>)
      modifies this
      ensures Valid()
      ensures publications == store && searchTerm == old(searchTerm) && activeTab == old(activeTab)
    {
      publications := store;
      filteredPublications := FilterPublications(publications, searchTerm, activeTab);
    }

    /** The text of the download: the entries of the shown records only. */
    method ExportBibTeX() returns (content: string)
      requires Valid()
      ensures content == ExportContent(Filtered(publications, searchTerm, activeTab))
    {
      content := ExportContent(filteredPublications);
    }

    /** `publicationsByYear`, grouped from the shown records. */
    function ByYear(): (g: map<int, seq<Publication>>)
      reads this
      ensures g == Grouped(filteredPublications)
      ensures forall y :: y in g <==> exists p :: p in filteredPublications && p.year == y
    {
      Grouped(filteredPublications)
    }

    /** The tab counts, from the store and never from the shown list. */
    function TabCountsNow(): (c: TabCounts)
      reads this
      ensures c.all == |publications|
      ensures c.journal == |Filter(publications, OfType(Journal))|
      ensures c.conference == |Filter(publications, OfType(Conference))|
      ensures c.preprint == |Filter(publications, OfType(Preprint))|
      ensures c.journal + c.conference + c.preprint == c.all
    {
      CountsSum(publications);
      Counts(publications)
    }
  }
}
