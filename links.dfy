/**
 * Rewriting of link destinations from Markdown pages to the generated HTML pages
 * (src/main.rs:100-106 for the body, src/main.rs:183-190 for the footnotes).
 */
module Links {
  import opened Text
  import opened Events

  /**
   * A destination ending in ".md" has every ".md" in it replaced by ".html" (not only the suffix);
   * any other destination is kept. The result of a rewrite ends in ".html" and holds no ".md".
   */
  function RewriteDestination(dest: string): (r: string)
    ensures !EndsWith(dest, ".md") ==> r == dest
    ensures EndsWith(dest, ".md") ==> r == ReplaceAll(dest, ".md", ".html")
    ensures EndsWith(dest, ".md") ==> EndsWith(r, ".html") && !Contains(r, ".md")
  {
    if EndsWith(dest, ".md") then
      ReplaceMdEndsWithHtml(dest);
      ReplaceMdLeavesNone(dest);
      ReplaceAll(dest, ".md", ".html")
    else dest
  }

  /** The rewrite applied to a link start: type and title are kept. */
  function RewriteLink(linkType: LinkType, dest: string, title: string): (e: Event)
    ensures e.Start? && e.tag.Link? && e.tag.linkType == linkType && e.tag.title == title
    ensures !EndsWith(dest, ".md") ==> e.tag.dest == dest
    ensures EndsWith(dest, ".md") ==> e.tag.dest == ReplaceAll(dest, ".md", ".html")
    ensures EndsWith(dest, ".md") ==> EndsWith(e.tag.dest, ".html") && !Contains(e.tag.dest, ".md")
  {
    Start(Link(linkType, RewriteDestination(dest), title))
  }

  /** With ".md" only as the suffix, the rewrite swaps that suffix for ".html" and keeps every other character. */
  lemma SuffixOnlyRewrite(stem: string)
    requires !Contains(stem, ".md")
    ensures RewriteDestination(stem + ".md") == stem + ".html"
  {
    assert (stem + ".md")[|stem + ".md"| - 3..] == ".md";
    ReplaceMdSplit(stem, []);
    assert stem + ".md" + [] == stem + ".md";
  }

  /** With a ".md" inside the stem as well, the rewrite is not the suffix swap: that ".md" is replaced too. */
  lemma InnerMdRewrite(stem: string)
    requires Contains(stem, ".md")
    ensures RewriteDestination(stem + ".md") != stem + ".html"
  {
    var k := ContainsWitness(stem, ".md");
    assert (stem + ".html")[k..k + 3] == stem[k..k + 3];
    OccursAtContains(stem + ".html", ".md", k);
    ReplaceMdLeavesNone(stem + ".md");
    assert (stem + ".md")[|stem + ".md"| - 3..] == ".md";
  }

  /**
   * Up to its first ".md" a text is copied unchanged; that ".md" becomes ".html" and the scan
   * goes on after it.
   */
  lemma {:induction false} ReplaceMdSplit(a: string, b: string)
    requires !Contains(a, ".md")
    ensures ReplaceAll(a + ".md" + b, ".md", ".html") == a + ".html" + ReplaceAll(b, ".md", ".html")
    decreases |a|
  {
    var s := a + ".md" + b;
    if a == [] {
      assert s == ".md" + b;
      assert s[..3] == ".md" && s[3..] == b;
    } else {
      var rb := ReplaceAll(b, ".md", ".html");
      NoMdAtStart(a, b);
      ReplaceSkip(s, ".md", ".html");
      ConcatTail(a, ".md", b);
      assert !Contains(a[1..], ".md");
      ReplaceMdSplit(a[1..], b);
      ConcatTail(a, ".html", rb);
    }
  }

  /** A nonempty text without ".md", followed by ".md", does not start with ".md". */
  lemma NoMdAtStart(a: string, b: string)
    requires a != [] && !Contains(a, ".md")
    ensures var s := a + ".md" + b; |s| >= 3 && s[..3] != ".md"
  {
    var s := a + ".md" + b;
    if |a| >= 3 {
      assert s[..3] == a[..3];
    } else if |a| == 1 {
      assert s[1] == '.';
    } else {
      assert s[2] == '.';
    }
  }

  /** The first character survives the replacement (".md" and ".html" both start with '.'). */
  lemma {:induction false} ReplaceMdFirst(u: string)
    requires |u| > 0
    ensures |ReplaceAll(u, ".md", ".html")| > 0 && ReplaceAll(u, ".md", ".html")[0] == u[0]
  {
    if |u| >= 3 && u[..3] == ".md" {
      assert u[0] == ".md"[0];
    }
  }

  lemma {:induction false} ReplaceMdEndsWithHtml(s: string)
    requires EndsWith(s, ".md")
    ensures EndsWith(ReplaceAll(s, ".md", ".html"), ".html")
    decreases |s|
  {
    var r := ReplaceAll(s, ".md", ".html");
    // ".md" cannot overlap itself: a text of length 4 or 5 ending in ".md" does not start with it
    if |s| == 4 {
      assert s[1] == s[|s| - 3..][0];
    } else if |s| == 5 {
      assert s[2] == s[|s| - 3..][0];
    }
    if |s| == 3 {
      assert s == ".md";
    } else if s[..3] == ".md" {
      assert |s| >= 6;
      var t := s[3..];
      assert t[|t| - 3..] == s[|s| - 3..];
      ReplaceMdEndsWithHtml(t);
      var rt := ReplaceAll(t, ".md", ".html");
      assert r == ".html" + rt;
      assert r[|r| - 5..] == rt[|rt| - 5..];
    } else {
      var t := s[1..];
      assert t[|t| - 3..] == s[|s| - 3..];
      ReplaceMdEndsWithHtml(t);
      var rt := ReplaceAll(t, ".md", ".html");
      assert r == [s[0]] + rt;
      assert r[|r| - 5..] == rt[|rt| - 5..];
    }
  }

  /** A character other than '.' in front of a text cannot start a ".md". */
  lemma ContainsMdCons(c: char, r: string)
    requires c != '.'
    ensures Contains([c] + r, ".md") <==> Contains(r, ".md")
  {
    assert ([c] + r)[1..] == r;
    assert ([c] + r)[0] != ".md"[0];
  }

  /** A '.' in front of a text not starting with "md" cannot start a ".md". */
  lemma ContainsMdDot(r: string)
    requires !StartsWith(r, "md")
    ensures Contains(['.'] + r, ".md") <==> Contains(r, ".md")
  {
    var s := ['.'] + r;
    assert s[1..] == r;
    if |r| >= 2 {
      assert s[..3] == ['.'] + r[..2];
    }
  }

  lemma {:induction false} ReplaceMdKeepsNoMdStart(t: string)
    requires !StartsWith(t, "md")
    ensures !StartsWith(ReplaceAll(t, ".md", ".html"), "md")
  {
    if |t| >= 3 && t[0] == 'm' {
      assert t[..3] != ".md" by { assert ".md"[0] == '.'; }
      var rt := ReplaceAll(t[1..], ".md", ".html");
      assert ReplaceAll(t, ".md", ".html") == ['m'] + rt;
      ReplaceMdFirst(t[1..]);
      assert t[..2] == [t[0], t[1]];
      assert rt[0] == t[1];
      assert (['m'] + rt)[1] == rt[0];
    } else if |t| >= 3 {
      ReplaceMdFirst(t);
    }
  }

  /** After the replacement no ".md" is left: ".md" cannot overlap itself, so the scan sees every occurrence. */
  lemma {:induction false} ReplaceMdLeavesNone(s: string)
    ensures !Contains(ReplaceAll(s, ".md", ".html"), ".md")
    decreases |s|
  {
    if |s| < 3 {
      ShortNotContains(s, ".md");
    } else if s[..3] == ".md" {
      var r := ReplaceAll(s[3..], ".md", ".html");
      ReplaceMdLeavesNone(s[3..]);
      ContainsMdCons('l', r);
      ContainsMdCons('m', ['l'] + r);
      ContainsMdCons('t', ['m'] + (['l'] + r));
      ContainsMdCons('h', ['t'] + (['m'] + (['l'] + r)));
      ContainsMdDot(['h'] + (['t'] + (['m'] + (['l'] + r))));
      assert ".html" + r == ['.'] + (['h'] + (['t'] + (['m'] + (['l'] + r))));
    } else {
      var r := ReplaceAll(s[1..], ".md", ".html");
      ReplaceMdLeavesNone(s[1..]);
      if s[0] == '.' {
        assert s[..3] == [s[0]] + s[1..][..2];
        ReplaceMdKeepsNoMdStart(s[1..]);
        ContainsMdDot(r);
      } else {
        ContainsMdCons(s[0], r);
      }
    }
  }
}
