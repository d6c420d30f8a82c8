/**
 The link slug that the home page builds for each recent post
 (src/pages/Index.tsx:152): the title is lower-cased and every maximal run
 of characters outside `[a-z0-9]` becomes one `-`, exactly as the global
 regular-expression replacement `/[^a-z0-9]+/g` does.
 */
module Slug {
  import opened Text
  import opened Listing

  predicate IsSlugChar(c: char) {
    'a' <= c <= 'z' || '0' <= c <= '9'
  }

  predicate IsNotDash(c: char) {
    c != '-'
  }

  /** Every character is in `[a-z0-9]` or is `-`. */
  predicate SlugAlphabet(s: string) {
    forall i :: 0 <= i < |s| ==> IsSlugChar(s[i]) || s[i] == '-'
  }

  /** No two `-` stand side by side. */
  ghost predicate NoDoubleDash(s: string) {
    forall i :: 0 <= i < |s| - 1 ==> !(s[i] == '-' && s[i + 1] == '-')
  }

  /** The length of the leading run of characters outside `[a-z0-9]`: what one match of `[^a-z0-9]+` consumes. */
  function RunLength(s: string): (n: nat)
    ensures n <= |s| && NoSlugChars(s[..n]) && (n == |s| || IsSlugChar(s[n]))
  {
    if s == [] || IsSlugChar(s[0]) then 0
    else
      var n := RunLength(s[1..]);
      assert s[..1 + n] == [s[0]] + s[1..][..n];
      1 + n
  }

  /** `s.replace(/[^a-z0-9]+/g, '-')`: a character of `[a-z0-9]` is kept, a maximal run of others becomes one `-`. */
  function Hyphenate(s: string): (r: string)
    ensures s == [] <==> r == []
    ensures s != [] && IsSlugChar(s[0]) ==> r[0] == s[0]
    ensures s != [] && !IsSlugChar(s[0]) ==> r[0] == '-'
    decreases |s|
  {
    if s == [] then []
    else if IsSlugChar(s[0]) then [s[0]] + Hyphenate(s[1..])
    else "-" + Hyphenate(s[RunLength(s)..])
  }

  /** Hyphenation leaves only `[a-z0-9]` and single dashes. */
  lemma {:induction false} HyphenateShape(s: string)
    ensures SlugAlphabet(Hyphenate(s)) && NoDoubleDash(Hyphenate(s))
    decreases |s|
  {
    if s != [] {
      var rest := if IsSlugChar(s[0]) then s[1..] else s[RunLength(s)..];
      HyphenateShape(rest);
      var t := Hyphenate(rest);
      assert Hyphenate(s) == [if IsSlugChar(s[0]) then s[0] else '-'] + t;
      assert !IsSlugChar(s[0]) ==> t == [] || t[0] != '-';
    }
  }

  /** `title.toLowerCase().replace(/[^a-z0-9]+/g, '-')`. */
  function Slug(title: string): (r: string)
    ensures SlugAlphabet(r) && NoDoubleDash(r)
  {
    HyphenateShape(Lower(title));
    Hyphenate(Lower(title))
  }

  /** Deleting the dashes of a slug leaves exactly the `[a-z0-9]` characters of the lower-cased title, in order. */
  lemma SlugKeepsAlphanumerics(title: string)
    ensures Filter(Slug(title), IsNotDash) == Filter(Lower(title), IsSlugChar)
  {
    HyphenateKeepsAlphanumerics(Lower(title));
  }

  lemma {:induction false} HyphenateKeepsAlphanumerics(s: string)
    ensures Filter(Hyphenate(s), IsNotDash) == Filter(s, IsSlugChar)
    decreases |s|
  {
    if s != [] {
      if IsSlugChar(s[0]) {
        HyphenateKeepsAlphanumerics(s[1..]);
        assert Hyphenate(s)[1..] == Hyphenate(s[1..]);
      } else {
        HyphenateKeepsAlphanumerics(s[RunLength(s)..]);
        DashStep(s);
      }
    }
  }

  /** A leading run of other characters becomes a `-`, and neither contributes an alphanumeric. */
  lemma DashStep(s: string)
    requires s != [] && !IsSlugChar(s[0])
    ensures Filter(Hyphenate(s), IsNotDash) == Filter(Hyphenate(s[RunLength(s)..]), IsNotDash)
    ensures Filter(s, IsSlugChar) == Filter(s[RunLength(s)..], IsSlugChar)
  {
    DashDropped(Hyphenate(s[RunLength(s)..]));
    RunDropped(s, RunLength(s));
  }

  lemma DashDropped(t: string)
    ensures Filter("-" + t, IsNotDash) == Filter(t, IsNotDash)
  {
    assert ("-" + t)[0] == '-' && ("-" + t)[1..] == t;
  }

  lemma RunDropped(s: string, n: nat)
    requires n <= |s| && NoSlugChars(s[..n])
    ensures Filter(s, IsSlugChar) == Filter(s[n..], IsSlugChar)
  {
    assert s == s[..n] + s[n..];
    FilterAppend(s[..n], s[n..], IsSlugChar);
    NoSlugCharsFilter(s[..n]);
  }

  lemma {:induction false} NoSlugCharsFilter(w: string)
    requires NoSlugChars(w)
    ensures Filter(w, IsSlugChar) == []
  {
    if w != [] {
      assert NoSlugChars(w[1..]);
      NoSlugCharsFilter(w[1..]);
    }
  }

  /** No trimming at the end: a title ending outside `[a-z0-9]` gives a slug ending in `-`. */
  lemma {:induction false} HyphenateLast(s: string)
    requires s != []
    ensures !IsSlugChar(s[|s| - 1]) ==> Hyphenate(s)[|Hyphenate(s)| - 1] == '-'
    ensures IsSlugChar(s[|s| - 1]) ==> Hyphenate(s)[|Hyphenate(s)| - 1] == s[|s| - 1]
    decreases |s|
  {
    var h := Hyphenate(s);
    if IsSlugChar(s[0]) {
      assert h == [s[0]] + Hyphenate(s[1..]);
      if |s| > 1 {
        HyphenateLast(s[1..]);
        assert s[1..][|s| - 2] == s[|s| - 1];
      }
    } else {
      var n := RunLength(s);
      var rest := s[n..];
      assert h == "-" + Hyphenate(rest);
      if rest != [] {
        HyphenateLast(rest);
        assert rest[|rest| - 1] == s[|s| - 1];
      } else {
        assert s[..n] == s;
      }
    }
  }

  /** No trimming: punctuation at either end of the title shows up as a `-` at that end of the slug. */
  lemma SlugEnds(title: string)
    requires title != []
    ensures var l := Lower(title); var r := Slug(title);
      r != [] &&
      (IsSlugChar(l[0]) <==> r[0] != '-') &&
      (IsSlugChar(l[|l| - 1]) <==> r[|r| - 1] != '-')
  {
    HyphenateLast(Lower(title));
  }

  /** A slug is a fixed point of hyphenation. */
  lemma {:induction false} HyphenateFixed(s: string)
    requires SlugAlphabet(s) && NoDoubleDash(s)
    ensures Hyphenate(s) == s
    decreases |s|
  {
    if s != [] {
      assert SlugAlphabet(s[1..]) && NoDoubleDash(s[1..]);
      HyphenateFixed(s[1..]);
      if !IsSlugChar(s[0]) {
        assert |s| > 1 ==> IsSlugChar(s[1]);
        assert s[1..] == [] || IsSlugChar(s[1..][0]);
        assert RunLength(s[1..]) == 0;
        assert s == "-" + s[1..];
      }
    }
  }

  lemma SlugIdempotent(title: string)
    ensures Slug(Slug(title)) == Slug(title)
  {
    var r := Slug(title);
    assert NoUpper(r);
    LowerOfLower(r);
    HyphenateFixed(r);
  }

  /** Text that ends in `[a-z0-9]` hyphenates independently of what follows. */
  lemma {:induction false} HyphenateAppend(a: string, b: string)
    requires a != [] && IsSlugChar(a[|a| - 1])
    ensures Hyphenate(a + b) == Hyphenate(a) + Hyphenate(b)
    decreases |a|
  {
    if IsSlugChar(a[0]) {
      if |a| > 1 {
        assert a[1..][|a| - 2] == a[|a| - 1];
        HyphenateAppend(a[1..], b);
      } else {
        assert a[1..] + b == b;
      }
      assert a == [a[0]] + a[1..];
      HyphenateAppendKeep(a[0], a[1..], b);
    } else {
      RunEndsInside(a);
      HyphenateAppend(a[RunLength(a)..], b);
      HyphenateAppendDash(a, b);
    }
  }

  /** The case of `HyphenateAppend` where `a` starts with a kept character `c` followed by `t`. */
  lemma HyphenateAppendKeep(c: char, t: string, b: string)
    requires IsSlugChar(c)
    requires Hyphenate(t + b) == Hyphenate(t) + Hyphenate(b)
    ensures Hyphenate([c] + t + b) == Hyphenate([c] + t) + Hyphenate(b)
  {
    Regroup3([c], t, b);
    HyphenateKeep(c, t + b);
    HyphenateKeep(c, t);
    Regroup3([c], Hyphenate(t), Hyphenate(b));
  }

  /** A kept character in front is copied in front. */
  lemma HyphenateKeep(c: char, s: string)
    requires IsSlugChar(c)
    ensures Hyphenate([c] + s) == [c] + Hyphenate(s)
  {
    assert ([c] + s)[0] == c && ([c] + s)[1..] == s;
  }

  /** A run of other characters at the front of text ending in `[a-z0-9]` stops inside it. */
  lemma RunEndsInside(a: string)
    requires a != [] && IsSlugChar(a[|a| - 1])
    ensures RunLength(a) < |a| && a[RunLength(a)..][|a| - RunLength(a) - 1] == a[|a| - 1]
  {
    assert a[..|a|] == a;
  }

  /** The dash case of `HyphenateAppend`, once the rest after the run is known to append. */
  lemma HyphenateAppendDash(a: string, b: string)
    requires a != [] && !IsSlugChar(a[0]) && RunLength(a) < |a|
    requires Hyphenate(a[RunLength(a)..] + b) == Hyphenate(a[RunLength(a)..]) + Hyphenate(b)
    ensures Hyphenate(a + b) == Hyphenate(a) + Hyphenate(b)
  {
    var n := RunLength(a);
    RunLengthAppend(a, b);
    var ab := a + b;
    assert ab[0] == a[0];
    var x, y := Hyphenate(a[n..]), Hyphenate(b);
    assert ab[n..] == a[n..] + b;
    assert Hyphenate(ab) == "-" + Hyphenate(ab[n..]);
    assert Hyphenate(a) == "-" + x;
    Regroup3("-", x, y);
  }

  /** A run that ends inside `a` is not affected by what follows `a`. */
  lemma {:induction false} RunLengthAppend(a: string, b: string)
    requires RunLength(a) < |a|
    ensures RunLength(a + b) == RunLength(a)
  {
    assert (a + b)[0] == a[0];
    if !IsSlugChar(a[0]) {
      assert (a + b)[1..] == a[1..] + b;
      RunLengthAppend(a[1..], b);
    }
  }

  /** A non-empty run of separators in front of a word (or of nothing) becomes one `-`. */
  lemma HyphenateSeparator(sep: string, b: string)
    requires sep != [] && NoSlugChars(sep)
    requires b == [] || IsSlugChar(b[0])
    ensures Hyphenate(sep + b) == "-" + Hyphenate(b)
  {
    RunLengthOver(sep, b);
    assert (sep + b)[0] == sep[0];
    assert (sep + b)[|sep|..] == b;
  }

  /** A run made of all of `sep` stops where `[a-z0-9]` begins. */
  lemma {:induction false} RunLengthOver(sep: string, b: string)
    requires NoSlugChars(sep)
    requires b == [] || IsSlugChar(b[0])
    ensures RunLength(sep + b) == |sep|
  {
    if sep == [] {
      assert sep + b == b;
    } else {
      assert (sep + b)[0] == sep[0];
      assert (sep + b)[1..] == sep[1..] + b;
      assert NoSlugChars(sep[1..]);
      RunLengthOver(sep[1..], b);
    }
  }

  predicate AllSlugChars(w: string) {
    forall i :: 0 <= i < |w| ==> IsSlugChar(w[i])
  }

  predicate NoSlugChars(w: string) {
    forall i :: 0 <= i < |w| ==> !IsSlugChar(w[i])
  }

  /** Each element is a non-empty word of `[a-z0-9]`. */
  predicate Words(ws: seq<string>) {
    forall i :: 0 <= i < |ws| ==> ws[i] != [] && AllSlugChars(ws[i])
  }

  /** Each element is a non-empty run of characters outside `[a-z0-9]`. */
  predicate Separators(ss: seq<string>) {
    forall i :: 0 <= i < |ss| ==> ss[i] != [] && NoSlugChars(ss[i])
  }

  /** Words interleaved with separators: `words[0] + seps[0] + words[1] + ...`. */
  function Spaced(words: seq<string>, seps: seq<string>): string
    requires |words| == |seps| + 1
  {
    if seps == [] then words[0] else words[0] + seps[0] + Spaced(words[1..], seps[1..])
  }

  /** Words of `[a-z0-9]` separated by runs of other characters hyphenate to the words joined by `-`. */
  lemma {:induction false} HyphenateWords(words: seq<string>, seps: seq<string>)
    requires |words| == |seps| + 1 && Words(words) && Separators(seps)
    ensures Spaced(words, seps) != [] && IsSlugChar(Spaced(words, seps)[0])
    ensures Hyphenate(Spaced(words, seps)) == Join(words, "-")
  {
    var w := words[0];
    HyphenateFixed(w);
    if seps != [] {
      var sep, rest := seps[0], Spaced(words[1..], seps[1..]);
      HyphenateWords(words[1..], seps[1..]);
      HyphenateAppend(w, sep + rest);
      HyphenateSeparator(sep, rest);
      assert w + sep + rest == w + (sep + rest);
    }
  }

  /** Lower-cases every element of a list. */
  function LowerAll(ws: seq<string>): (r: seq<string>)
    ensures |r| == |ws|
  {
    if ws == [] then [] else [Lower(ws[0])] + LowerAll(ws[1..])
  }

  /** Character by character, `w` lower-cases to `l`. */
  predicate LowerIs(w: string, l: string) {
    |w| == |l| && forall i :: 0 <= i < |w| ==> LowerChar(w[i]) == l[i]
  }

  /** Element by element, `ws` lower-cases to `ls`. */
  predicate LowersTo(ws: seq<string>, ls: seq<string>) {
    |ws| == |ls| && forall i :: 0 <= i < |ws| ==> LowerIs(ws[i], ls[i])
  }

  /** A string without upper-case letters lower-cases to itself. */
  lemma LowerIsNoUpper(w: string)
    requires NoUpper(w)
    ensures LowerIs(w, w)
  {
    LowerOfLower(w);
    assert forall i :: 0 <= i < |w| ==> Lower(w)[i] == LowerChar(w[i]);
  }

  lemma LowerIsLower(w: string, l: string)
    requires LowerIs(w, l)
    ensures Lower(w) == l
  {
    assert forall i :: 0 <= i < |w| ==> Lower(w)[i] == l[i];
  }

  lemma {:induction false} LowersToLowerAll(ws: seq<string>, ls: seq<string>)
    requires LowersTo(ws, ls)
    ensures LowerAll(ws) == ls
  {
    if ws != [] {
      LowersToLowerAll(ws[1..], ls[1..]);
      LowerIsLower(ws[0], ls[0]);
      assert ls == [ls[0]] + ls[1..];
    }
  }

  lemma {:induction false} LowerSpaced(words: seq<string>, seps: seq<string>)
    requires |words| == |seps| + 1
    ensures Lower(Spaced(words, seps)) == Spaced(LowerAll(words), LowerAll(seps))
  {
    if seps != [] {
      LowerSpaced(words[1..], seps[1..]);
      LowerAppend(words[0] + seps[0], Spaced(words[1..], seps[1..]));
      LowerAppend(words[0], seps[0]);
      assert LowerAll(words)[1..] == LowerAll(words[1..]);
      assert LowerAll(seps)[1..] == LowerAll(seps[1..]);
    }
  }

  /**
   The title at src/pages/Index.tsx:24, as its words and the separators between
   them, and the id of the same post at src/pages/Blog.tsx:21, as its words.
   Spaced(NextflowTitleWords, NextflowTitleSeparators) spells the title
     "Nextflow DSL2 modules: patterns for reproducible RNA-seq and WGBS workflows"
   and Join(NextflowIdWords, "-") spells the id
     "nextflow-dsl2-modules-patterns-for-reproducible-rna-seq-and-wgbs-workflows".
   This is read off the lists rather than proved here: equalities between string
   literals of this length are too expensive for the solver.
   */
  const NextflowTitleWords: seq<string> :=
    ["Nextflow", "DSL2", "modules", "patterns", "for", "reproducible", "RNA", "seq", "and", "WGBS", "workflows"]
  const NextflowTitleSeparators: seq<string> := [" ", " ", ": ", " ", " ", " ", "-", " ", " ", " "]
  const NextflowIdWords: seq<string> :=
    ["nextflow", "dsl2", "modules", "patterns", "for", "reproducible", "rna", "seq", "and", "wgbs", "workflows"]

  /** The home page links the first recent post to the id the blog listing gives it. */
  lemma NextflowSlug()
    ensures Slug(Spaced(NextflowTitleWords, NextflowTitleSeparators)) == Join(NextflowIdWords, "-")
  {
    NextflowLowers();
    NextflowIds();
    NextflowSeparators();
    SlugOfWords(NextflowTitleWords, NextflowTitleSeparators, NextflowIdWords);
  }

  lemma NextflowLowers()
    ensures LowersTo(NextflowTitleWords, NextflowIdWords)
  {
    NextflowLowersFront();
    NextflowLowersBack();
  }

  /** "Nextflow DSL2 modules patterns for reproducible". */
  lemma NextflowLowersFront()
    ensures forall i :: 0 <= i < 6 ==> LowerIs(NextflowTitleWords[i], NextflowIdWords[i])
  {
    NextflowCapitalized();
    NextflowLowerCase();
  }

  lemma NextflowLowerCase()
    ensures LowerIs("modules", "modules") && LowerIs("patterns", "patterns")
    ensures LowerIs("for", "for") && LowerIs("reproducible", "reproducible")
  {
    LowerIsNoUpper("modules");
    LowerIsNoUpper("patterns");
    LowerIsNoUpper("for");
    LowerIsNoUpper("reproducible");
  }

  lemma NextflowCapitalized()
    ensures LowerIs("Nextflow", "nextflow") && LowerIs("DSL2", "dsl2")
  {
  }

  /** "RNA seq and WGBS workflows". */
  lemma NextflowLowersBack()
    ensures forall i :: 6 <= i < 11 ==> LowerIs(NextflowTitleWords[i], NextflowIdWords[i])
  {
    NextflowAcronyms();
    forall i | i == 7 || i == 8 || i == 10 ensures LowerIs(NextflowTitleWords[i], NextflowIdWords[i]) {
      LowerIsNoUpper(NextflowTitleWords[i]);
    }
  }

  lemma NextflowAcronyms()
    ensures LowerIs("RNA", "rna") && LowerIs("WGBS", "wgbs")
  {
  }

  lemma NextflowIds()
    ensures Words(NextflowIdWords)
  {
  }

  lemma NextflowSeparators()
    ensures |NextflowTitleWords| == |NextflowTitleSeparators| + 1
    ensures LowersTo(NextflowTitleSeparators, NextflowTitleSeparators) && Separators(NextflowTitleSeparators)
  {
    forall i | 0 <= i < |NextflowTitleSeparators|
      ensures LowerIs(NextflowTitleSeparators[i], NextflowTitleSeparators[i])
    {
      LowerIsNoUpper(NextflowTitleSeparators[i]);
    }
  }

  /** A title made of words and separators slugs to its lower-cased words joined by `-`. */
  lemma SlugOfWords(ws: seq<string>, ss: seq<string>, ids: seq<string>)
    requires |ws| == |ss| + 1
    requires LowersTo(ws, ids) && Words(ids) && LowersTo(ss, ss) && Separators(ss)
    ensures Slug(Spaced(ws, ss)) == Join(ids, "-")
  {
    LowerSpaced(ws, ss);
    LowersToLowerAll(ws, ids);
    LowersToLowerAll(ss, ss);
    HyphenateWords(ids, ss);
  }

  /** The title at src/pages/Index.tsx:31. */
  const CondaTitle: string := "Solving Conda dependency hell (and when to switch to Mamba/Micromamba)"

  /** The title at src/pages/Index.tsx:31 ends in `)`, so its slug keeps a trailing `-`. */
  lemma CondaSlugEndsWithDash()
    ensures var r := Slug(CondaTitle); r != [] && r[|r| - 1] == '-'
  {
    assert Lower(CondaTitle)[|CondaTitle| - 1] == ')';
    SlugEnds(CondaTitle);
  }
}
