/**
 The single-post page (src/pages/BlogPost.tsx): the guard that sends an
 unknown or missing slug back to the listing, and the string rewrite that
 turns a post's content into the HTML the page injects.
 */
module PostPage {
  import opened Wrappers
  import opened Listing

  /** An entry of the `blogPostContent` table. */
  datatype PostEntry = PostEntry(title: string, date: string, readTime: string, tags: seq<string>, content: string)

  /** What the route renders: a redirect, or the page of one entry. */
  datatype Page = Redirect(target: string) | Show(entry: PostEntry)

  /** `if (!slug || !blogPostContent[slug]) <Navigate to="/blog" replace />`, else the entry's page. */
  function Route(slug: Option<string>, table: map<string, PostEntry>): (page: Page)
    ensures page.Redirect? <==> slug.None? || slug.value == "" || slug.value !in table
    ensures page.Redirect? ==> page.target == "/blog"
    ensures page.Show? ==> slug.Some? && slug.value in table && page.entry == table[slug.value]
  {
    match slug
    case None => Redirect("/blog")
    case Some(s) => if s == "" || s !in table then Redirect("/blog") else Show(table[s])
  }

  // ---------------------------------------------------------------------
  // `.replace(/\n/g, '<br>')`
  // ---------------------------------------------------------------------

  predicate IsNewline(c: char) {
    c == '\n'
  }

  /** Every newline becomes `<br>`; every other character is kept. */
  function ReplaceNewlines(s: string): string {
    if s == [] then []
    else (if s[0] == '\n' then "<br>" else [s[0]]) + ReplaceNewlines(s[1..])
  }

  /** No newline is left, and no backtick is introduced. */
  lemma {:induction false} ReplaceNewlinesShape(s: string)
    ensures '\n' !in ReplaceNewlines(s)
    ensures TickFree(s) ==> TickFree(ReplaceNewlines(s))
    ensures s != [] ==> ReplaceNewlines(s) != []
  {
    if s != [] {
      ReplaceNewlinesShape(s[1..]);
      var head := if s[0] == '\n' then "<br>" else [s[0]];
      var r, t := ReplaceNewlines(s), ReplaceNewlines(s[1..]);
      assert r == head + t;
      assert '\n' !in head && (s[0] != '`' ==> '`' !in head);
      assert TickFree(s) ==> s[0] != '`' && TickFree(s[1..]);
      assert forall k :: 0 <= k < |r| ==> r[k] in head || r[k] in t;
    }
  }

  /** The rewrite works on each part of a string separately. */
  lemma {:induction false} ReplaceNewlinesAppend(a: string, b: string)
    ensures ReplaceNewlines(a + b) == ReplaceNewlines(a) + ReplaceNewlines(b)
  {
    if a == [] {
      assert a + b == b;
    } else {
      var head := if a[0] == '\n' then "<br>" else [a[0]];
      assert (a + b)[0] == a[0] && (a + b)[1..] == a[1..] + b;
      assert ReplaceNewlines(a + b) == head + ReplaceNewlines(a[1..] + b);
      ReplaceNewlinesAppend(a[1..], b);
    }
  }

  /** Each newline grows the text by three characters: `<br>` in place of one character. */
  lemma {:induction false} ReplaceNewlinesLength(s: string)
    ensures |ReplaceNewlines(s)| == |s| + 3 * |Filter(s, IsNewline)|
  {
    if s != [] { ReplaceNewlinesLength(s[1..]); }
  }

  /** Text without newlines is left as it is. */
  lemma {:induction false} ReplaceNewlinesNone(s: string)
    requires '\n' !in s
    ensures ReplaceNewlines(s) == s
  {
    if s != [] {
      ReplaceNewlinesNone(s[1..]);
      assert s == [s[0]] + s[1..];
    }
  }

  // ---------------------------------------------------------------------
  // `.replace(/```([^`]+)```/g, '<pre><code>$1</code></pre>')`
  // ---------------------------------------------------------------------

  predicate TickFree(s: string) {
    forall k :: 0 <= k < |s| ==> s[k] != '`'
  }

  /** Three backticks in a row start at offset `i`. */
  predicate TripleAt(s: string, i: int) {
    0 <= i && i + 3 <= |s| && s[i..i + 3] == "```"
  }

  /** No three backticks in a row anywhere. */
  predicate NoTripleTick(s: string) {
    forall i :: 0 <= i < |s| ==> !TripleAt(s, i)
  }

  /** The length of the leading run of characters other than a backtick: what `[^`]+` consumes. */
  function TickFreeRun(s: string): (n: nat)
    ensures n <= |s| && TickFree(s[..n]) && (n == |s| || s[n] == '`')
  {
    if s == [] || s[0] == '`' then 0
    else
      var n := TickFreeRun(s[1..]);
      assert s[..1 + n] == [s[0]] + s[1..][..n];
      1 + n
  }

  /**
   The length of the body when a fenced block starts at the front of `s`:
   three backticks, a non-empty run without backticks, three backticks.
   `[^`]+` cannot stop before a character that is not a backtick, so the only
   candidate body is the whole run.
   */
  function FenceAt(s: string): (m: Option<nat>)
    ensures m.Some? ==>
      0 < m.value && 6 + m.value <= |s| &&
      s[..3] == "```" && TickFree(s[3..3 + m.value]) && s[3 + m.value..6 + m.value] == "```"
  {
    if |s| < 3 || s[..3] != "```" then None
    else
      var n := TickFreeRun(s[3..]);
      assert s[3..][..n] == s[3..3 + n];
      if n > 0 && 6 + n <= |s| && s[3 + n..6 + n] == "```" then Some(n) else None
  }

  /** The run stops exactly where the first backtick is. */
  lemma {:induction false} TickFreeRunPrefix(x: string, b: string)
    requires TickFree(x) && b != [] && b[0] == '`'
    ensures TickFreeRun(x + b) == |x|
  {
    if x == [] {
      assert x + b == b;
    } else {
      assert (x + b)[0] == x[0] && (x + b)[1..] == x[1..] + b;
      TickFreeRunPrefix(x[1..], b);
    }
  }

  /** Every block that fits the pattern is found, with its whole body. */
  lemma FenceAtBlock(x: string, rest: string)
    requires x != [] && TickFree(x)
    ensures var s := "```" + x + "```" + rest;
      FenceAt(s) == Some(|x|) && s[3..3 + |x|] == x && s[6 + |x|..] == rest
  {
    var s := "```" + x + "```" + rest;
    assert s[..3] == "```";
    assert s[3..] == x + ("```" + rest);
    TickFreeRunPrefix(x, "```" + rest);
    assert s[3 + |x|..6 + |x|] == "```";
    assert s[3..3 + |x|] == x;
    assert s[6 + |x|..] == rest;
  }

  /** The global replacement: scanning left to right, each block found is rewritten and scanning resumes after it. */
  function Fence(s: string): (r: string)
    ensures '\n' !in s ==> '\n' !in r
    decreases |s|
  {
    if s == [] then []
    else
      match FenceAt(s)
      case Some(n) => "<pre><code>" + s[3..3 + n] + "</code></pre>" + Fence(s[6 + n..])
      case None => [s[0]] + Fence(s[1..])
  }

  /** A fenced block at the front becomes `<pre><code>` around its body, and the rest is rewritten on its own. */
  lemma FenceBlock(x: string, rest: string)
    requires x != [] && TickFree(x)
    ensures Fence("```" + x + "```" + rest) == "<pre><code>" + x + "</code></pre>" + Fence(rest)
  {
    FenceAtBlock(x, rest);
  }

  /** Text before the first backtick is copied as it is: matches are sought leftmost first. */
  lemma {:induction false} FenceTickFreePrefix(a: string, b: string)
    requires TickFree(a)
    ensures Fence(a + b) == a + Fence(b)
  {
    if a == [] {
      assert a + b == b;
    } else {
      var c, t := a[0], a[1..];
      assert a == [c] + t;
      Regroup3([c], t, b);
      Regroup3([c], t, Fence(b));
      FenceTickFreePrefix(t, b);
      FenceCons(c, t + b);
    }
  }

  /** A character other than a backtick in front cannot start a block, so it is copied. */
  lemma FenceCons(c: char, s: string)
    requires c != '`'
    ensures Fence([c] + s) == [c] + Fence(s)
  {
    var cs := [c] + s;
    assert cs[0] == c && cs[1..] == s;
    assert FenceAt(cs).None? by {
      if |cs| >= 3 { assert cs[..3][0] == c; }
    }
  }

  /** Text without three backticks in a row is left as it is. */
  lemma {:induction false} FenceNone(s: string)
    requires NoTripleTick(s)
    ensures Fence(s) == s
    decreases |s|
  {
    if s != [] {
      assert FenceAt(s).None? by {
        assert !TripleAt(s, 0);
      }
      forall i | 0 <= i < |s| - 1 ensures !TripleAt(s[1..], i) {
        assert !TripleAt(s, i + 1);
        if i + 3 <= |s[1..]| {
          assert s[1..][i..i + 3] == s[i + 1..i + 4];
        }
      }
      FenceNone(s[1..]);
      assert s == [s[0]] + s[1..];
    }
  }

  // ---------------------------------------------------------------------
  // The two rewrites chained.
  // ---------------------------------------------------------------------

  /** `post.content.replace(/\n/g, '<br>').replace(/```([^`]+)```/g, '<pre><code>$1</code></pre>')`. */
  function Render(content: string): string {
    Fence(ReplaceNewlines(content))
  }

  /** The injected HTML contains no newline, inside fenced bodies or out. */
  lemma RenderNoNewline(content: string)
    ensures '\n' !in Render(content)
  {
    ReplaceNewlinesShape(content);
  }

  /** Content with neither a newline nor three backticks in a row is injected as it is. */
  lemma RenderPlain(content: string)
    requires '\n' !in content && NoTripleTick(content)
    ensures Render(content) == content
  {
    ReplaceNewlinesNone(content);
    FenceNone(content);
  }

  /** Newline rewriting goes through the fences of a block and rewrites its body. */
  lemma ReplaceNewlinesBlock(x: string, rest: string)
    ensures ReplaceNewlines("```" + x + "```" + rest) == "```" + ReplaceNewlines(x) + "```" + ReplaceNewlines(rest)
  {
    ReplaceNewlinesAround("```", x, rest);
  }

  /** Text around two copies of a newline-free `f` is rewritten piece by piece. */
  lemma ReplaceNewlinesAround(f: string, x: string, rest: string)
    requires '\n' !in f
    ensures ReplaceNewlines(f + x + f + rest) == f + ReplaceNewlines(x) + f + ReplaceNewlines(rest)
  {
    var rx, rr := ReplaceNewlines(x), ReplaceNewlines(rest);
    ReplaceNewlinesNone(f);
    ReplaceNewlinesAppend(f, rest);
    ReplaceNewlinesAppend(x, f + rest);
    ReplaceNewlinesAppend(f, x + (f + rest));
    Regroup4(f, x, f, rest);
    Regroup4(f, rx, f, rr);
  }

  /** A fenced block is rewritten after its newlines have become `<br>`. */
  lemma RenderBlock(x: string, rest: string)
    requires x != [] && TickFree(x)
    ensures Render("```" + x + "```" + rest) ==
      "<pre><code>" + ReplaceNewlines(x) + "</code></pre>" + Render(rest)
  {
    ReplaceNewlinesBlock(x, rest);
    ReplaceNewlinesShape(x);
    FenceBlock(ReplaceNewlines(x), ReplaceNewlines(rest));
  }

  /** Text before the first backtick is only newline-rewritten. */
  lemma RenderTickFreePrefix(a: string, b: string)
    requires TickFree(a)
    ensures Render(a + b) == ReplaceNewlines(a) + Render(b)
  {
    ReplaceNewlinesAppend(a, b);
    ReplaceNewlinesShape(a);
    FenceTickFreePrefix(ReplaceNewlines(a), ReplaceNewlines(b));
  }
}
