/** String operations of Rust's standard library that the core relies on, as functions on `seq<char>`. */
module Text {
  import opened Outcomes

  predicate StartsWith(s: string, p: string) {
    |p| <= |s| && s[..|p|] == p
  }

  predicate EndsWith(s: string, p: string) {
    |p| <= |s| && s[|s| - |p|..] == p
  }

  /** `p` occurs in `s` starting at index `k`. */
  predicate OccursAt(s: string, p: string, k: nat) {
    k + |p| <= |s| && s[k..k + |p|] == p
  }

  /** `p` occurs somewhere in `s` (Rust's `str::contains`). */
  predicate Contains(s: string, p: string)
    decreases |s|
  {
    StartsWith(s, p) || (|s| > 0 && Contains(s[1..], p))
  }

  lemma {:induction false} OccursAtContains(s: string, p: string, k: nat)
    requires OccursAt(s, p, k)
    ensures Contains(s, p)
  {
    if k > 0 {
      assert s[1..][k - 1..k - 1 + |p|] == s[k..k + |p|];
      OccursAtContains(s[1..], p, k - 1);
    }
  }

  lemma {:induction false} ContainsWitness(s: string, p: string) returns (k: nat)
    requires Contains(s, p)
    ensures OccursAt(s, p, k)
  {
    if StartsWith(s, p) {
      k := 0;
    } else {
      var j := ContainsWitness(s[1..], p);
      assert s[1..][j..j + |p|] == s[j + 1..j + 1 + |p|];
      k := j + 1;
    }
  }

  lemma {:induction false} ShortNotContains(s: string, p: string)
    requires |s| < |p|
    ensures !Contains(s, p)
  {
    if |s| > 0 {
      ShortNotContains(s[1..], p);
    }
  }

  /** Index of the first `c` in `s`, or `|s|` when there is none. */
  function IndexOfChar(s: string, c: char): (i: nat)
    ensures i <= |s|
    ensures i < |s| ==> s[i] == c
    ensures forall k :: 0 <= k < i ==> s[k] != c
  {
    if s == [] then 0
    else if s[0] == c then 0
    else 1 + IndexOfChar(s[1..], c)
  }

  lemma OccursAtShift(s: string, p: string, k: nat)
    requires |s| > 0
    ensures OccursAt(s, p, k + 1) <==> OccursAt(s[1..], p, k)
  {
    if k + 1 + |p| <= |s| {
      assert s[1..][k..k + |p|] == s[k + 1..k + 1 + |p|];
    }
  }

  /** Leftmost occurrence of `p` in `s`. */
  function FirstIndexOf(s: string, p: string): (r: Option<nat>)
    ensures r.Some? ==> OccursAt(s, p, r.value)
    ensures r.Some? ==> forall k: nat :: k < r.value ==> !OccursAt(s, p, k)
    ensures r.None? ==> forall k: nat :: !OccursAt(s, p, k)
    decreases |s|
  {
    if StartsWith(s, p) then Some(0)
    else if |s| <= |p| then None
    else
      var rest := FirstIndexOf(s[1..], p);
      assert forall k: nat :: OccursAt(s, p, k + 1) <==> OccursAt(s[1..], p, k) by {
        forall k: nat ensures OccursAt(s, p, k + 1) <==> OccursAt(s[1..], p, k) {
          OccursAtShift(s, p, k);
        }
      }
      assert !OccursAt(s, p, 0);
      assert forall k: nat :: OccursAt(s, p, k) ==> k > 0 && OccursAt(s[1..], p, k - 1) by {
        forall k: nat | OccursAt(s, p, k) ensures k > 0 && OccursAt(s[1..], p, k - 1) {
          if k > 0 { OccursAtShift(s, p, k - 1); }
        }
      }
      if rest.None? then None else Some(rest.value + 1)
  }

  /** Rightmost occurrence of `p` in `s`. */
  function LastIndexOf(s: string, p: string): (r: Option<nat>)
    ensures r.Some? ==> OccursAt(s, p, r.value)
    ensures r.Some? ==> forall k: nat :: r.value < k ==> !OccursAt(s, p, k)
    ensures r.None? ==> forall k: nat :: !OccursAt(s, p, k)
    decreases |s|
  {
    if |s| < |p| then None
    else if s[|s| - |p|..] == p then Some(|s| - |p|)
    else
      var rest := LastIndexOf(s[..|s| - 1], p);
      assert forall k: nat :: OccursAt(s, p, k) && k + |p| < |s| ==> OccursAt(s[..|s| - 1], p, k) by {
        forall k: nat | OccursAt(s, p, k) && k + |p| < |s| ensures OccursAt(s[..|s| - 1], p, k) {
          assert s[..|s| - 1][k..k + |p|] == s[k..k + |p|];
        }
      }
      assert forall k: nat :: OccursAt(s[..|s| - 1], p, k) ==> OccursAt(s, p, k) by {
        forall k: nat | OccursAt(s[..|s| - 1], p, k) ensures OccursAt(s, p, k) {
          assert s[..|s| - 1][k..k + |p|] == s[k..k + |p|];
        }
      }
      rest
  }

  /** Rust's `str::replace`: every non-overlapping occurrence of `pat`, scanned left to right, becomes `rep`. */
  function ReplaceAll(s: string, pat: string, rep: string): string
    requires |pat| > 0
    decreases |s|
  {
    if |s| < |pat| then s
    else if s[..|pat|] == pat then rep + ReplaceAll(s[|pat|..], pat, rep)
    else [s[0]] + ReplaceAll(s[1..], pat, rep)
  }

  lemma ConcatTail(a: string, m: string, b: string)
    requires a != []
    ensures (a + m + b)[1..] == a[1..] + m + b
    ensures [a[0]] + (a[1..] + m + b) == a + m + b
  {
  }

  /** A text that does not start with the pattern keeps its first character. */
  lemma ReplaceSkip(s: string, pat: string, rep: string)
    requires 0 < |pat| <= |s| && s[..|pat|] != pat
    ensures ReplaceAll(s, pat, rep) == [s[0]] + ReplaceAll(s[1..], pat, rep)
  {
  }

  /** A text without the pattern is left as it is; a text starting with it starts with the replacement. */
  lemma {:induction false} ReplaceAllAbsent(s: string, pat: string, rep: string)
    requires |pat| > 0
    ensures !Contains(s, pat) ==> ReplaceAll(s, pat, rep) == s
    ensures StartsWith(s, pat) ==> StartsWith(ReplaceAll(s, pat, rep), rep)
    decreases |s|
  {
    if |s| >= |pat| {
      if s[..|pat|] == pat {
        assert (rep + ReplaceAll(s[|pat|..], pat, rep))[..|rep|] == rep;
      } else {
        ReplaceAllAbsent(s[1..], pat, rep);
        assert [s[0]] + s[1..] == s;
      }
    }
  }

  /** Number of occurrences of `c` in `s`. */
  function CountChar(s: string, c: char): nat {
    if s == [] then 0 else (if s[0] == c then 1 else 0) + CountChar(s[1..], c)
  }

  lemma {:induction false} CountCharAppend(a: string, b: string, c: char)
    ensures CountChar(a + b, c) == CountChar(a, c) + CountChar(b, c)
  {
    if a == [] {
      assert a + b == b;
    } else {
      assert (a + b)[0] == a[0];
      assert (a + b)[1..] == a[1..] + b;
      CountCharAppend(a[1..], b, c);
    }
  }

  lemma {:induction false} CountCharAbsent(s: string, c: char)
    requires c !in s
    ensures CountChar(s, c) == 0
  {
    if s != [] {
      CountCharAbsent(s[1..], c);
    }
  }

  /** Rust's `[&str]::join(sep)`. */
  function Join(xs: seq<string>, sep: string): string
    decreases |xs|
  {
    if |xs| == 0 then []
    else if |xs| == 1 then xs[0]
    else xs[0] + sep + Join(xs[1..], sep)
  }

  /** Joining the first k strings gives a prefix of joining them all. */
  lemma {:induction false} JoinPrefix(xs: seq<string>, k: nat, sep: string)
    requires k <= |xs|
    ensures StartsWith(Join(xs, sep), Join(xs[..k], sep))
    decreases k
  {
    if k == 1 {
      assert xs[..1] == [xs[0]];
    } else if k >= 2 {
      assert xs[..k][1..] == xs[1..][..k - 1];
      JoinPrefix(xs[1..], k - 1, sep);
    }
  }

  /** Joining lines without newlines with "\n" puts exactly one newline between neighbours and none at the end. */
  lemma {:induction false} JoinNewlines(xs: seq<string>)
    requires |xs| > 0
    requires forall i :: 0 <= i < |xs| ==> '\n' !in xs[i]
    ensures CountChar(Join(xs, "\n"), '\n') == |xs| - 1
  {
    CountCharAbsent(xs[0], '\n');
    if |xs| > 1 {
      JoinNewlines(xs[1..]);
      CountCharAppend(xs[0], "\n", '\n');
      CountCharAppend(xs[0] + "\n", Join(xs[1..], "\n"), '\n');
    }
  }

  /** Rust's `str::lines()` on text without carriage returns: split at '\n', no empty line after a final '\n'. */
  function Lines(s: string): (ls: seq<string>)
    ensures forall i :: 0 <= i < |ls| ==> '\n' !in ls[i]
    ensures s != [] ==> |ls| > 0
    decreases |s|
  {
    if s == [] then []
    else
      var i := IndexOfChar(s, '\n');
      if i == |s| then [s] else [s[..i]] + Lines(s[i + 1..])
  }

  lemma JoinCons(x: string, xs: seq<string>, sep: string)
    requires |xs| > 0
    ensures Join([x] + xs, sep) == x + sep + Join(xs, sep)
  {
    assert ([x] + xs)[1..] == xs;
  }

  /** Rejoining the lines restores the text, except for one final newline. */
  lemma {:induction false} LinesJoin(s: string)
    ensures Join(Lines(s), "\n") + (if s != [] && s[|s| - 1] == '\n' then "\n" else "") == s
    decreases |s|
  {
    if s != [] {
      var i := IndexOfChar(s, '\n');
      if i < |s| {
        var head, t := s[..i], s[i + 1..];
        SplitAt(s, i);
        if t == [] {
          assert Lines(s) == [head];
        } else {
          LinesJoin(t);
          var tail := if t[|t| - 1] == '\n' then "\n" else "";
          assert Lines(s) == [head] + Lines(t);
          JoinCons(head, Lines(t), "\n");
          assert s[|s| - 1] == t[|t| - 1];
          assert head + "\n" + Join(Lines(t), "\n") + tail == head + "\n" + (Join(Lines(t), "\n") + tail);
        }
      }
    }
  }

  /** A text is what comes before index i, the character at i, and what comes after it. */
  lemma SplitAt(s: string, i: nat)
    requires i < |s|
    ensures s == s[..i] + [s[i]] + s[i + 1..]
  {
  }

  function DigitChar(d: nat): (c: char)
    requires d < 10
    ensures '0' <= c <= '9' && c as int - '0' as int == d
  {
    ('0' as int + d) as char
  }

  /** Decimal formatting of a counter, as `format!("{}", n)` writes it. */
  function DecimalString(n: nat): (s: string)
    ensures |s| > 0 && forall i :: 0 <= i < |s| ==> '0' <= s[i] <= '9'
  {
    if n < 10 then [DigitChar(n)] else DecimalString(n / 10) + [DigitChar(n % 10)]
  }

  /** The number a string of decimal digits denotes. */
  function DecimalValue(s: string): nat
    requires forall i :: 0 <= i < |s| ==> '0' <= s[i] <= '9'
  {
    if s == [] then 0 else 10 * DecimalValue(s[..|s| - 1]) + (s[|s| - 1] as int - '0' as int)
  }

  /** The formatted counter reads back as the counter. */
  lemma {:induction false} DecimalRoundTrip(n: nat)
    ensures DecimalValue(DecimalString(n)) == n
  {
    if n >= 10 {
      DecimalRoundTrip(n / 10);
      var s := DecimalString(n);
      assert s[..|s| - 1] == DecimalString(n / 10);
    }
  }
}
