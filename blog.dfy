/**
 The blog listing (src/pages/Blog.tsx): the tag vocabulary shown as filter
 buttons, the predicate that decides which posts are listed, and the query
 state (search term and selected tags) that the page's controls change.
 */
module Blog {
  import opened Wrappers
  import opened Text
  import opened Listing

  datatype BlogPost = BlogPost(
    id: string,
    title: string,
    excerpt: string,
    content: Option<string>,
    date: string,
    readTime: string,
    tags: seq<string>,
    published: bool)

  // ---------------------------------------------------------------------
  // The tag vocabulary: every post's tags, deduplicated, then sorted.
  // ---------------------------------------------------------------------

  /** `posts.flatMap(post => post.tags)`. */
  function FlatTags(posts: seq<BlogPost>): (r: seq<string>)
    ensures forall t :: t in r <==> exists p :: p in posts && t in p.tags
  {
    if posts == [] then []
    else
      var rest := FlatTags(posts[1..]);
      assert forall p :: p in posts <==> p == posts[0] || p in posts[1..];
      posts[0].tags + rest
  }

  predicate NoDuplicates(s: seq<string>) {
    forall i, j :: 0 <= i < |s| && 0 <= j < |s| && i != j ==> s[i] != s[j]
  }

  /** `Array.from(new Set(s))`: each value once, at the place it first occurs. */
  function Distinct(s: seq<string>): (r: seq<string>)
    ensures NoDuplicates(r)
    ensures forall t :: t in r <==> t in s
  {
    if s == [] then []
    else
      var r := Distinct(s[..|s| - 1]);
      assert s == s[..|s| - 1] + [s[|s| - 1]];
      if s[|s| - 1] in r then r else r + [s[|s| - 1]]
  }

  /**
   `new Set` keeps insertion order: the first value comes first, and its
   later copies are dropped from the rest.
   */
  lemma {:induction false} DistinctCons(x: string, s: seq<string>)
    ensures Distinct([x] + s) == [x] + Distinct(Filter(s, u => u != x))
    decreases |s|
  {
    if s == [] {
      assert [x] + s == [x];
      DistinctSnoc([], x);
    } else {
      var init, y := s[..|s| - 1], s[|s| - 1];
      var l, f := [x] + init, Filter(init, u => u != x);
      assert s == init + [y];
      assert [x] + s == l + [y];
      DistinctCons(x, init);
      DistinctSnoc(l, y);
      FilterAppend(init, [y], u => u != x);
      if y != x {
        assert y in l <==> y in f;
        DistinctSnoc(f, y);
        Regroup3([x], Distinct(f), [y]);
      } else {
        assert l[0] == y;
        assert Filter(s, u => u != x) == f + [];
        assert f + [] == f;
      }
    }
  }

  /** One more value at the end is added exactly when it is new. */
  lemma DistinctSnoc(s: seq<string>, y: string)
    ensures Distinct(s + [y]) == if y in s then Distinct(s) else Distinct(s) + [y]
  {
    assert (s + [y])[..|s + [y]| - 1] == s;
  }

  /** A list that already has no duplicates is returned as it is. */
  lemma {:induction false} DistinctOfDistinct(s: seq<string>)
    requires NoDuplicates(s)
    ensures Distinct(s) == s
  {
    if s != [] {
      var init := s[..|s| - 1];
      assert NoDuplicates(init);
      DistinctOfDistinct(init);
      assert s[|s| - 1] !in init;
      assert init + [s[|s| - 1]] == s;
    }
  }

  /** Ordered by `<=` on strings, as `sort()` leaves an array. */
  predicate Ascending(s: seq<string>) {
    forall i, j :: 0 <= i < j < |s| ==> LessEq(s[i], s[j])
  }

  predicate StrictlyAscending(s: seq<string>) {
    forall i, j :: 0 <= i < j < |s| ==> Less(s[i], s[j])
  }

  /** Puts `x` in front of the first element it is not greater than. */
  function Insert(x: string, s: seq<string>): (r: seq<string>)
    ensures multiset(r) == multiset(s) + multiset{x}
    ensures Ascending(s) ==> Ascending(r)
    ensures StrictlyAscending(s) && x !in s ==> StrictlyAscending(r)
  {
    if s == [] then [x]
    else if LessEq(x, s[0]) then
      PrependBelow(x, s);
      [x] + s
    else
      var t := Insert(x, s[1..]);
      assert s == [s[0]] + s[1..];
      LessTotal(x, s[0]);
      forall k | 0 <= k < |t| ensures t[k] == x || t[k] in s[1..] {
        assert t[k] in multiset(t);
      }
      HeadBelow(x, s, t);
      [s[0]] + t
  }

  /** Putting a value no greater than the head in front keeps a list ordered. */
  lemma PrependBelow(x: string, s: seq<string>)
    requires s != [] && LessEq(x, s[0])
    ensures Ascending(s) ==> Ascending([x] + s)
    ensures StrictlyAscending(s) && x !in s ==> StrictlyAscending([x] + s)
  {
    if Ascending(s) {
      forall j | 1 <= j < |s| + 1 ensures LessEq(x, ([x] + s)[j]) {
        LessEqTransitive(x, s[0], s[j - 1]);
      }
    }
    if StrictlyAscending(s) && x !in s {
      forall j | 1 <= j < |s| + 1 ensures Less(x, ([x] + s)[j]) {
        if j > 1 { LessTransitive(x, s[0], s[j - 1]); }
      }
    }
  }

  /** A head below `x` and below the rest of `s` stays below their ordered merge `t`. */
  lemma HeadBelow(x: string, s: seq<string>, t: seq<string>)
    requires s != [] && Less(s[0], x)
    requires forall k :: 0 <= k < |t| ==> t[k] == x || t[k] in s[1..]
    ensures Ascending(s) && (Ascending(s[1..]) ==> Ascending(t)) ==> Ascending([s[0]] + t)
    ensures StrictlyAscending(s) && (StrictlyAscending(s[1..]) ==> StrictlyAscending(t)) ==>
      StrictlyAscending([s[0]] + t)
  {
    forall k | 0 <= k < |t| && t[k] != x ensures exists i :: 1 <= i < |s| && s[i] == t[k] {
      var i :| 0 <= i < |s[1..]| && s[1..][i] == t[k];
      assert s[i + 1] == t[k];
    }
  }

  /** `s.sort()` with the default comparator. */
  function Sort(s: seq<string>): (r: seq<string>)
    ensures multiset(r) == multiset(s)
    ensures Ascending(r)
    ensures NoDuplicates(s) ==> StrictlyAscending(r)
  {
    if s == [] then []
    else
      var r := Sort(s[1..]);
      assert s == [s[0]] + s[1..];
      HeadFresh(s, r);
      Insert(s[0], r)
  }

  /** In a list without duplicates the head is not among the rest, however the rest is permuted. */
  lemma HeadFresh(s: seq<string>, r: seq<string>)
    requires s != [] && multiset(r) == multiset(s[1..])
    ensures NoDuplicates(s) ==> NoDuplicates(s[1..]) && s[0] !in r
  {
    if NoDuplicates(s) {
      assert NoDuplicates(s[1..]);
      forall k | 0 <= k < |s| - 1 ensures s[1..][k] != s[0] {
        assert s[k + 1] != s[0];
      }
      assert multiset(r)[s[0]] == 0;
    }
  }

  /** Two strictly ascending lists with the same elements are the same list. */
  lemma {:induction false} StrictlyAscendingUnique(a: seq<string>, b: seq<string>)
    requires StrictlyAscending(a) && StrictlyAscending(b)
    requires forall t :: t in a <==> t in b
    ensures a == b
  {
    assert a != [] ==> a[0] in b;
    assert b != [] ==> b[0] in a;
    if a != [] && b != [] {
      if a[0] != b[0] {
        var i :| 0 <= i < |a| && a[i] == b[0];
        var j :| 0 <= j < |b| && b[j] == a[0];
        assert Less(a[0], b[0]) && Less(b[0], a[0]);
        LessAsymmetric(a[0], b[0]);
      }
      forall t ensures t in a[1..] <==> t in b[1..] {
        if t in a[1..] {
          var i :| 0 <= i < |a[1..]| && a[1..][i] == t;
          assert Less(a[0], a[i + 1]);
          LessIrreflexive(a[0]);
          assert t in b && t != b[0];
          assert b == [b[0]] + b[1..];
        }
        if t in b[1..] {
          var j :| 0 <= j < |b[1..]| && b[1..][j] == t;
          assert Less(b[0], b[j + 1]);
          LessIrreflexive(b[0]);
          assert t in a && t != a[0];
          assert a == [a[0]] + a[1..];
        }
      }
      StrictlyAscendingUnique(a[1..], b[1..]);
      assert a == [a[0]] + a[1..] && b == [b[0]] + b[1..];
    }
  }

  /** `Array.from(new Set(posts.flatMap(post => post.tags))).sort()`. */
  function AllTags(posts: seq<BlogPost>): seq<string> {
    Sort(Distinct(FlatTags(posts)))
  }

  /**
   The vocabulary holds every tag of every post and nothing else, strictly
   ascending (so without duplicates), and it is the only list that does.
   */
  lemma AllTagsSpec(posts: seq<BlogPost>)
    ensures var r := AllTags(posts);
      StrictlyAscending(r) && NoDuplicates(r) &&
      (forall t :: t in r <==> exists p :: p in posts && t in p.tags)
    ensures forall s ::
      (StrictlyAscending(s) && forall t :: t in s <==> exists p :: p in posts && t in p.tags) ==> s == AllTags(posts)
  {
    var d := Distinct(FlatTags(posts));
    var r := AllTags(posts);
    assert forall t :: t in r <==> t in multiset(r);
    assert forall t :: t in d <==> t in multiset(d);
    assert forall t :: t in r <==> exists p :: p in posts && t in p.tags;
    forall i, j | 0 <= i < |r| && 0 <= j < |r| && i != j ensures r[i] != r[j] {
      if i < j { LessIrreflexive(r[i]); } else { LessIrreflexive(r[j]); }
    }
    forall s | StrictlyAscending(s) && (forall t :: t in s <==> exists p :: p in posts && t in p.tags)
      ensures s == r
    {
      StrictlyAscendingUnique(s, r);
    }
  }

  // ---------------------------------------------------------------------
  // The listing filter.
  // ---------------------------------------------------------------------

  /** The search test: an empty term, or the lower-cased term inside the lower-cased title, excerpt or some tag. */
  predicate MatchesSearch(p: BlogPost, term: string) {
    var q := Lower(term);
    term == "" ||
    Includes(Lower(p.title), q) ||
    Includes(Lower(p.excerpt), q) ||
    exists tag :: tag in p.tags && Includes(Lower(tag), q)
  }

  /** The tag test: no tag selected, or every selected tag among the post's tags, compared exactly. */
  predicate MatchesTags(p: BlogPost, selected: seq<string>) {
    |selected| == 0 || forall t :: t in selected ==> t in p.tags
  }

  predicate IsPublished(p: BlogPost) {
    p.published
  }

  predicate Matches(p: BlogPost, term: string, selected: seq<string>) {
    MatchesSearch(p, term) && MatchesTags(p, selected) && IsPublished(p)
  }

  /** The callback passed to `blogPosts.filter` for one query. */
  function Matcher(term: string, selected: seq<string>): BlogPost -> bool {
    p => Matches(p, term, selected)
  }

  /** `blogPosts.filter(...)` for the query `(term, selected)`. */
  function FilteredPosts(posts: seq<BlogPost>, term: string, selected: seq<string>): (r: seq<BlogPost>)
    ensures forall p :: p in r <==> p in posts && Matches(p, term, selected)
  {
    Filter(posts, Matcher(term, selected))
  }

  /**
   The search test in terms of substring occurrence: a post passes iff the
   term is empty or the lower-cased term occurs at some offset of the
   lower-cased title, excerpt or one of the tags.
   */
  lemma MatchesSearchIff(p: BlogPost, term: string)
    ensures MatchesSearch(p, term) <==>
      term == [] ||
      (exists i :: OccursAt(Lower(p.title), Lower(term), i)) ||
      (exists i :: OccursAt(Lower(p.excerpt), Lower(term), i)) ||
      (exists k, i :: 0 <= k < |p.tags| && OccursAt(Lower(p.tags[k]), Lower(term), i))
  {
    var q := Lower(term);
    if exists tag :: tag in p.tags && Includes(Lower(tag), q) {
      var tag :| tag in p.tags && Includes(Lower(tag), q);
      var k :| 0 <= k < |p.tags| && p.tags[k] == tag;
      var i :| OccursAt(Lower(tag), q, i);
      assert OccursAt(Lower(p.tags[k]), q, i);
    }
    if exists k, i :: 0 <= k < |p.tags| && OccursAt(Lower(p.tags[k]), q, i) {
      var k, i :| 0 <= k < |p.tags| && OccursAt(Lower(p.tags[k]), q, i);
      assert p.tags[k] in p.tags && Includes(Lower(p.tags[k]), q);
    }
  }

  /** The search ignores the case of the term. */
  lemma SearchIgnoresCase(p: BlogPost, term: string)
    ensures MatchesSearch(p, Lower(term)) == MatchesSearch(p, term)
  {
    LowerOfLower(term);
  }

  /** Whatever the query, an unpublished post is never listed. */
  lemma UnpublishedHidden(posts: seq<BlogPost>, term: string, selected: seq<string>, p: BlogPost)
    requires !p.published
    ensures p !in FilteredPosts(posts, term, selected)
  {
  }

  /** The listing is the posts in their original order with some left out. */
  lemma FilteredIsSubseq(posts: seq<BlogPost>, term: string, selected: seq<string>)
    ensures IsSubseq(FilteredPosts(posts, term, selected), posts)
  {
    FilterIsSubseq(posts, Matcher(term, selected));
  }

  /** Filtering the listing again with the same query changes nothing. */
  lemma FilteredIdempotent(posts: seq<BlogPost>, term: string, selected: seq<string>)
    ensures FilteredPosts(FilteredPosts(posts, term, selected), term, selected) == FilteredPosts(posts, term, selected)
  {
    FilterIdempotent(posts, Matcher(term, selected));
  }

  /** Selecting one more tag can only narrow the listing. */
  lemma FilteredMonotone(posts: seq<BlogPost>, term: string, selected: seq<string>, t: string)
    ensures IsSubseq(FilteredPosts(posts, term, selected + [t]), FilteredPosts(posts, term, selected))
  {
    forall p | p in posts && Matches(p, term, selected + [t]) ensures Matches(p, term, selected) {
      assert forall u :: u in selected ==> u in selected + [t];
    }
    FilterMonotone(posts, Matcher(term, selected + [t]), Matcher(term, selected));
  }

  /** Only the set of selected tags matters, not their order or repetitions. */
  lemma FilteredBySet(posts: seq<BlogPost>, term: string, s1: seq<string>, s2: seq<string>)
    requires forall t :: t in s1 <==> t in s2
    ensures FilteredPosts(posts, term, s1) == FilteredPosts(posts, term, s2)
  {
    if s1 != [] { assert s1[0] in s2; }
    if s2 != [] { assert s2[0] in s1; }
    FilterExt(posts, Matcher(term, s1), Matcher(term, s2));
  }

  /** With the filters cleared the listing is exactly the published posts, in order. */
  lemma FilteredCleared(posts: seq<BlogPost>)
    ensures FilteredPosts(posts, "", []) == Filter(posts, IsPublished)
  {
    FilterExt(posts, Matcher("", []), IsPublished);
  }

  // ---------------------------------------------------------------------
  // The query state.
  // ---------------------------------------------------------------------

  /** `prev.includes(tag) ? prev.filter(t => t !== tag) : [...prev, tag]`. */
  function Toggled(selected: seq<string>, tag: string): (r: seq<string>)
    ensures tag in selected ==> tag !in r && IsSubseq(r, selected)
    ensures tag in selected ==> multiset(r) == multiset(selected)[tag := 0]
    ensures tag !in selected ==> r == selected + [tag]
  {
    if tag in selected then
      var r := Filter(selected, u => u != tag);
      FilterIsSubseq(selected, u => u != tag);
      forall x ensures multiset(r)[x] == multiset(selected)[tag := 0][x] {
        FilterMultiset(selected, u => u != tag, x);
      }
      r
    else selected + [tag]
  }

  /** Toggling a tag twice restores the set of selected tags, and the selection itself when the tag was off. */
  lemma ToggleTwice(selected: seq<string>, tag: string)
    ensures forall t :: t in Toggled(Toggled(selected, tag), tag) <==> t in selected
    ensures tag !in selected ==> Toggled(Toggled(selected, tag), tag) == selected
  {
    var once := Toggled(selected, tag);
    if tag !in selected {
      FilterKeepsAll(selected, u => u != tag);
      FilterAppend(selected, [tag], u => u != tag);
    } else {
      forall t ensures t in once <==> t in selected && t != tag {
        assert t in once <==> multiset(once)[t] > 0;
      }
    }
  }

  /**
   Toggling a tag twice restores the selection exactly when the tag was off,
   or was selected once and last: removing it and appending it again puts it
   at the end.
   */
  lemma ToggleTwiceIff(selected: seq<string>, tag: string)
    ensures Toggled(Toggled(selected, tag), tag) == selected <==>
      tag !in selected || (multiset(selected)[tag] == 1 && selected[|selected| - 1] == tag)
  {
    ToggleTwice(selected, tag);
    if tag in selected {
      var once := Toggled(selected, tag);
      assert Toggled(once, tag) == once + [tag];
      if once + [tag] == selected {
        assert multiset(selected) == multiset(once) + multiset{tag};
      }
      if multiset(selected)[tag] == 1 && selected[|selected| - 1] == tag {
        var init := selected[..|selected| - 1];
        assert selected == init + [tag];
        assert multiset(selected) == multiset(init) + multiset{tag};
        assert tag !in init;
        FilterKeepsAll(init, u => u != tag);
        FilterAppend(init, [tag], u => u != tag);
        assert once == Filter(init, u => u != tag) + [];
      }
    }
  }

  /** Toggling a tag twice gives the same listing. */
  lemma ToggleTwiceListing(posts: seq<BlogPost>, term: string, selected: seq<string>, tag: string)
    ensures FilteredPosts(posts, term, Toggled(Toggled(selected, tag), tag)) == FilteredPosts(posts, term, selected)
  {
    ToggleTwice(selected, tag);
    FilteredBySet(posts, term, Toggled(Toggled(selected, tag), tag), selected);
  }

  /** The page's `searchTerm` and `selectedTags` state. */
  class Query {
    var searchTerm: string
    var selectedTags: seq<string>

    /** Both filters start empty. */
    constructor ()
      ensures searchTerm == "" && selectedTags == []
    {
      searchTerm := "";
      selectedTags := [];
    }

    /** The search box's `onChange`. */
    method SetSearchTerm(term: string)
      modifies this
      ensures searchTerm == term && selectedTags == old(selectedTags)
    {
      searchTerm := term;
    }

    method ToggleTag(tag: string)
      modifies this
      ensures selectedTags == Toggled(old(selectedTags), tag) && searchTerm == old(searchTerm)
    {
      selectedTags := Toggled(selectedTags, tag);
    }

    method ClearFilters()
      modifies this
      ensures searchTerm == "" && selectedTags == []
    {
      searchTerm := "";
      selectedTags := [];
    }

    /** `filteredPosts` for the current state: published posts only, in listing order. */
    function Results(posts: seq<BlogPost>): (r: seq<BlogPost>)
      reads this
      ensures forall p :: p in r <==> p in posts && Matches(p, searchTerm, selectedTags)
    {
      FilteredPosts(posts, searchTerm, selectedTags)
    }
  }
}
