/**
 * Skipping the frontmatter (src/main.rs:49-64): the preamble is assumed to be four lines between
 * two "---" lines, so everything up to and including the sixth '\n' is dropped. Nothing is parsed
 * or checked; text with fewer than six newlines makes the byte loop index past the end.
 */
module Frontmatter {
  import opened Outcomes
  import opened Text

  /** Number of newlines the preamble is assumed to hold. */
  const PreambleNewlines: nat := 6

  /** Index one past the n-th '\n' of `s` (0 when n is 0), or None when `s` has fewer than n. */
  function NewlineEnd(s: string, n: nat): (r: Option<nat>)
    ensures r.Some? ==> r.value <= |s| && CountChar(s[..r.value], '\n') == n
    ensures r.Some? && n > 0 ==> r.value > 0 && s[r.value - 1] == '\n'
    ensures r.None? <==> CountChar(s, '\n') < n
    decreases |s|
  {
    if n == 0 then Some(0)
    else if s == [] then None
    else
      var rest := NewlineEnd(s[1..], if s[0] == '\n' then n - 1 else n);
      if rest.None? then None
      else
        assert s[..rest.value + 1] == [s[0]] + s[1..][..rest.value];
        assert s[..rest.value + 1][1..] == s[1..][..rest.value];
        Some(rest.value + 1)
  }

  /**
   * The frontmatter loop: walks the text byte by byte until six newlines are counted and
   * returns the index where the body starts.
   */
  method SkipFrontmatter(markdown: string) returns (r: Result<nat>)
    ensures r.Ok? <==> CountChar(markdown, '\n') >= PreambleNewlines
    ensures r.Ok? ==> 0 < r.value <= |markdown| && markdown[r.value - 1] == '\n'
    ensures r.Ok? ==> CountChar(markdown[..r.value], '\n') == PreambleNewlines
    ensures r.Err? ==> r.error == FrontmatterTooShort
    ensures r.Ok? ==> NewlineEnd(markdown, PreambleNewlines) == Some(r.value)
  {
    var idx: nat := 0;
    var newlineNo: nat := 0;
    while newlineNo < PreambleNewlines
      invariant idx <= |markdown|
      invariant newlineNo == CountChar(markdown[..idx], '\n') <= PreambleNewlines
      invariant newlineNo == PreambleNewlines ==> idx > 0 && markdown[idx - 1] == '\n'
      decreases |markdown| - idx, PreambleNewlines - newlineNo
    {
      if idx == |markdown| {
        assert markdown[..idx] == markdown;
        return Err(FrontmatterTooShort);
      }
      CountCharAppend(markdown[..idx], [markdown[idx]], '\n');
      assert markdown[..idx + 1] == markdown[..idx] + [markdown[idx]];
      if markdown[idx] == '\n' {
        newlineNo := newlineNo + 1;
      }
      idx := idx + 1;
    }
    NewlineEndIsFirst(markdown, newlineNo, idx);
    r := Ok(idx);
  }

  /** An index one past a '\n' with n newlines before it is where NewlineEnd points. */
  lemma {:induction false} NewlineEndIsFirst(s: string, n: nat, k: nat)
    requires 0 < n && 0 < k <= |s| && s[k - 1] == '\n' && CountChar(s[..k], '\n') == n
    ensures NewlineEnd(s, n) == Some(k)
    decreases |s|
  {
    var m := if s[0] == '\n' then n - 1 else n;
    assert s[..k] == [s[0]] + s[1..][..k - 1];
    if k == 1 {
      assert s[0] == '\n' && m == 0;
    } else {
      assert s[1..][k - 2] == s[k - 1];
      if m > 0 {
        NewlineEndIsFirst(s[1..], m, k - 1);
      } else {
        assert CountChar(s[1..][..k - 1], '\n') == 0;
        assert s[1..][..k - 1] == s[1..][..k - 2] + [s[k - 1]];
        CountCharAppend(s[1..][..k - 2], [s[k - 1]], '\n');
      }
    }
  }

  /**
   * Skipping is not idempotent: a second skip of `b` newlines on the body left by a first skip of
   * `a` drops more text, so the two skips together remove everything up to newline a + b
   * (twelve for the frontmatter skip).
   */
  lemma SkipTwice(s: string, a: nat, b: nat, i: nat, j: nat)
    requires 0 < a && 0 < b
    requires NewlineEnd(s, a) == Some(i)
    requires i <= |s| && NewlineEnd(s[i..], b) == Some(j)
    ensures 0 < j && NewlineEnd(s, a + b) == Some(i + j)
  {
    JoinedSkips(s, a, b, i, j);
  }

  /** The newline closing the second stretch is newline a + b of the whole text. */
  lemma JoinedSkips(s: string, a: nat, b: nat, i: nat, j: nat)
    requires 0 < b && 0 < j && i + j <= |s| && s[i..][j - 1] == '\n'
    requires CountChar(s[..i], '\n') == a && CountChar(s[i..][..j], '\n') == b
    ensures NewlineEnd(s, a + b) == Some(i + j)
  {
    PrefixCount(s, i, j);
    assert s[i + j - 1] == s[i..][j - 1];
    NewlineEndIsFirst(s, a + b, i + j);
  }

  /** Newlines before i + j: those before i plus those in the next j characters. */
  lemma PrefixCount(s: string, i: nat, j: nat)
    requires i + j <= |s|
    ensures CountChar(s[..i + j], '\n') == CountChar(s[..i], '\n') + CountChar(s[i..][..j], '\n')
  {
    assert s[..i + j] == s[..i] + s[i..][..j];
    CountCharAppend(s[..i], s[i..][..j], '\n');
  }
}
