/**
 * Footnotes (src/main.rs:19, 146-199): definition lines are taken out of the page, each is cut
 * by the pattern `\[\^(.*)\]:(.*)$` into a label (its name) and a body, the definitions are written as a
 * second Markdown source, and the list items of that source get the labels as element ids.
 */
module Footnotes {
  import opened Outcomes
  import opened Text
  import opened Events
  import opened Links

  /** A line that the splitter treats as a footnote definition. */
  predicate IsFootnoteLine(line: string) {
    StartsWith(line, "[^")
  }

  predicate NoNewlines(ls: seq<string>) {
    forall i :: 0 <= i < |ls| ==> '\n' !in ls[i]
  }

  // ---------------------------------------------------------------------------------------------
  // Splitting the page into content lines and definition lines

  /** The definition lines, in input order. */
  function Definitions(ls: seq<string>): (ds: seq<string>)
    ensures |ds| <= |ls|
    ensures forall i :: 0 <= i < |ds| ==> IsFootnoteLine(ds[i]) && ds[i] in ls
  {
    if ls == [] then []
    else
      var prefix, line := ls[..|ls| - 1], ls[|ls| - 1];
      assert forall x :: x in prefix ==> x in ls;
      Definitions(prefix) + (if IsFootnoteLine(line) then [line] else [])
  }

  /** The content lines, in input order. */
  function BodyLines(ls: seq<string>): (bs: seq<string>)
    ensures |bs| <= |ls|
    ensures forall i :: 0 <= i < |bs| ==> !IsFootnoteLine(bs[i]) && bs[i] in ls
  {
    if ls == [] then []
    else
      var prefix, line := ls[..|ls| - 1], ls[|ls| - 1];
      assert forall x :: x in prefix ==> x in ls;
      BodyLines(prefix) + (if IsFootnoteLine(line) then [] else [line])
  }

  /** Every line goes to exactly one of the two outputs: together they are the input, as a multiset. */
  lemma {:induction false} SplitPartition(ls: seq<string>)
    ensures |Definitions(ls)| + |BodyLines(ls)| == |ls|
    ensures multiset(Definitions(ls)) + multiset(BodyLines(ls)) == multiset(ls)
  {
    if ls != [] {
      var prefix, line := ls[..|ls| - 1], ls[|ls| - 1];
      SplitPartition(prefix);
      SplitLast(ls);
      SnocLast(ls);
      var d, b := Definitions(prefix), BodyLines(prefix);
      if IsFootnoteLine(line) {
        AddToPart(d, b, prefix, line);
      } else {
        AddToPart(b, d, prefix, line);
      }
    }
  }

  lemma SnocLast(ls: seq<string>)
    requires ls != []
    ensures ls == ls[..|ls| - 1] + [ls[|ls| - 1]]
  {
  }

  /** Adding one line to either part of a split of `prefix` splits `prefix + [line]`. */
  lemma AddToPart(x: seq<string>, y: seq<string>, prefix: seq<string>, line: string)
    requires multiset(x) + multiset(y) == multiset(prefix)
    ensures multiset(x + [line]) + multiset(y) == multiset(prefix + [line])
    ensures multiset(y) + multiset(x + [line]) == multiset(prefix + [line])
  {
  }

  /** The last line goes to exactly one of the two outputs, after what the earlier lines gave. */
  lemma SplitLast(ls: seq<string>)
    requires ls != []
    ensures var prefix, line := ls[..|ls| - 1], ls[|ls| - 1];
      if IsFootnoteLine(line)
      then Definitions(ls) == Definitions(prefix) + [line] && BodyLines(ls) == BodyLines(prefix)
      else Definitions(ls) == Definitions(prefix) && BodyLines(ls) == BodyLines(prefix) + [line]
  {
  }

  /** A page without definition lines is kept whole. */
  lemma {:induction false} NoDefinitionsKept(ls: seq<string>)
    requires forall i :: 0 <= i < |ls| ==> !IsFootnoteLine(ls[i])
    ensures BodyLines(ls) == ls && Definitions(ls) == []
  {
    if ls != [] {
      NoDefinitionsKept(ls[..|ls| - 1]);
    }
  }

  /** The content lines of a run of lines that holds no definition line are that run itself. */
  lemma {:induction false} BodyLinesPrefix(ls: seq<string>, k: nat)
    requires k <= |ls|
    requires forall i :: 0 <= i < k ==> !IsFootnoteLine(ls[i])
    ensures k <= |BodyLines(ls)| && BodyLines(ls)[..k] == ls[..k]
    decreases |ls|
  {
    if k == |ls| {
      NoDefinitionsKept(ls);
      assert ls[..k] == ls;
    } else {
      var prefix := ls[..|ls| - 1];
      BodyLinesPrefix(prefix, k);
      assert prefix[..k] == ls[..k];
    }
  }

  /** `split_content_and_footnotes`: one pass over the lines, pushing each onto one of two lists. */
  method SplitContentAndFootnotes(markdown: string) returns (content: string, footnotes: seq<string>)
    ensures footnotes == Definitions(Lines(markdown))
    ensures content == Join(BodyLines(Lines(markdown)), "\n")
    ensures NoNewlines(footnotes)
  {
    var lines := Lines(markdown);
    footnotes := [];
    var kept: seq<string> := [];
    for i := 0 to |lines|
      invariant footnotes == Definitions(lines[..i])
      invariant kept == BodyLines(lines[..i])
    {
      var line := lines[i];
      assert lines[..i + 1][..i] == lines[..i];
      if StartsWith(line, "[^") {
        footnotes := footnotes + [line];
      } else {
        kept := kept + [line];
      }
    }
    assert lines[..|lines|] == lines;
    content := Join(kept, "\n");
  }

  /** Definition lines come from the page's lines, so none holds a newline. */
  lemma DefinitionsNoNewlines(markdown: string)
    ensures NoNewlines(Definitions(Lines(markdown)))
  {
  }

  /** The content has one newline fewer than it has lines: exactly one '\n' between neighbours. */
  lemma ContentNewlines(markdown: string)
    requires |BodyLines(Lines(markdown))| > 0
    ensures CountChar(Join(BodyLines(Lines(markdown)), "\n"), '\n') == |BodyLines(Lines(markdown))| - 1
  {
    JoinNewlines(BodyLines(Lines(markdown)));
  }

  // ---------------------------------------------------------------------------------------------
  // The definition pattern

  datatype Footnote = Footnote(name: string, body: string)

  /**
   * The captures of `\[\^(.*)\]:(.*)$` on a line without '\n': the match starts at the leftmost
   * "[^", and the greedy first group runs to the last "]:" after it; the second group is the rest
   * of the line, which `.*$` always takes.
   */
  function ParseFootnote(line: string): Option<Footnote>
    requires '\n' !in line
  {
    match FirstIndexOf(line, "[^")
    case None => None
    case Some(i) =>
      match LastIndexOf(line, "]:")
      case None => None
      case Some(j) => if j < i + 2 then None else Some(Footnote(line[i + 2..j], line[j + 2..]))
  }

  /**
   * What a match captures: the line ends with "[^", the name, "]:" and the body, and the body
   * holds no "]:"; a line lacking either marker does not match.
   */
  lemma ParseFootnoteShape(line: string)
    requires '\n' !in line
    ensures ParseFootnote(line).Some? ==>
      var f := ParseFootnote(line).value;
      EndsWith(line, "[^" + f.name + "]:" + f.body) && !Contains(f.body, "]:")
    ensures !Contains(line, "[^") || !Contains(line, "]:") ==> ParseFootnote(line).None?
  {
    var first := FirstIndexOf(line, "[^");
    var last := LastIndexOf(line, "]:");
    if first.Some? && last.Some? && first.value + 2 <= last.value {
      MatchShape(line, first.value, last.value);
    } else {
      NoMatch(line);
    }
  }

  lemma MatchShape(line: string, i: nat, j: nat)
    requires '\n' !in line && i + 2 <= j
    requires FirstIndexOf(line, "[^") == Some(i) && LastIndexOf(line, "]:") == Some(j)
    ensures ParseFootnote(line) == Some(Footnote(line[i + 2..j], line[j + 2..]))
    ensures EndsWith(line, "[^" + line[i + 2..j] + "]:" + line[j + 2..]) && !Contains(line[j + 2..], "]:")
    ensures Contains(line, "[^") && Contains(line, "]:")
  {
    ParseAt(line, i, j);
    ShapeAt(line, i, j);
    AfterLast(line, "]:", j);
  }

  /** The captures for a marker at i and a separator at j. */
  lemma ShapeAt(line: string, i: nat, j: nat)
    requires i + 2 <= j && OccursAt(line, "[^", i) && OccursAt(line, "]:", j)
    ensures EndsWith(line, "[^" + line[i + 2..j] + "]:" + line[j + 2..])
    ensures Contains(line, "[^") && Contains(line, "]:")
  {
    MatchTail(line, i, j);
    OccursAtContains(line, "[^", i);
    OccursAtContains(line, "]:", j);
  }

  /** Without a "[^" followed by a later "]:" the pattern does not match. */
  lemma NoMatch(line: string)
    requires '\n' !in line
    requires var first, last := FirstIndexOf(line, "[^"), LastIndexOf(line, "]:");
      !(first.Some? && last.Some? && first.value + 2 <= last.value)
    ensures ParseFootnote(line).None?
  {
  }

  /** The text from a "[^" to the end of the line, cut at a later "]:". */
  lemma MatchTail(line: string, i: nat, j: nat)
    requires OccursAt(line, "[^", i) && OccursAt(line, "]:", j) && i + 2 <= j
    ensures EndsWith(line, "[^" + line[i + 2..j] + "]:" + line[j + 2..])
  {
    assert line[i..] == line[i..i + 2] + line[i + 2..j] + line[j..j + 2] + line[j + 2..];
  }

  /**
   * On a definition line the pattern matches exactly when the line contains "]:"; the line is
   * then "[^" + name + "]:" + body, with the last "]:" as the split, so the body holds none.
   */
  lemma DefinitionLineParse(line: string)
    requires IsFootnoteLine(line) && '\n' !in line
    ensures ParseFootnote(line).Some? <==> Contains(line, "]:")
    ensures ParseFootnote(line).Some? ==>
      var f := ParseFootnote(line).value;
      line == "[^" + f.name + "]:" + f.body && !Contains(f.body, "]:")
  {
    assert OccursAt(line, "[^", 0);
    assert FirstIndexOf(line, "[^") == Some(0);
    ContainsIffLast(line, "]:");
    var last := LastIndexOf(line, "]:");
    if last.Some? {
      var j := last.value;
      SeparatorAfterMarker(line, j);
      assert ParseFootnote(line) == Some(Footnote(line[2..j], line[j + 2..]));
      Reassemble(line, "[^", "]:", j);
      AfterLast(line, "]:", j);
    } else {
      assert ParseFootnote(line) == None;
    }
  }

  /** A text contains `p` exactly when `p` has a last occurrence in it. */
  lemma ContainsIffLast(s: string, p: string)
    ensures Contains(s, p) <==> LastIndexOf(s, p).Some?
  {
    if Contains(s, p) {
      var k := ContainsWitness(s, p);
    }
    if LastIndexOf(s, p).Some? {
      OccursAtContains(s, p, LastIndexOf(s, p).value);
    }
  }

  /** On a line starting with "[^", a "]:" cannot start before index 2. */
  lemma SeparatorAfterMarker(line: string, j: nat)
    requires StartsWith(line, "[^") && OccursAt(line, "]:", j)
    ensures j >= 2
  {
    assert line[0] == '[' && line[1] == '^' by { assert line[..2] == "[^"; }
    assert line[j] == ']' by { assert line[j..j + 2][0] == line[j]; }
  }

  /** A text that starts with `p` and has `q` at `j` is `p`, the text between, `q` and the rest. */
  lemma Reassemble(s: string, p: string, q: string, j: nat)
    requires OccursAt(s, p, 0) && |p| <= j && OccursAt(s, q, j)
    ensures s == p + s[|p|..j] + q + s[j + |q|..]
  {
    assert s == s[..|p|] + s[|p|..j] + s[j..j + |q|] + s[j + |q|..];
  }

  /** After the last occurrence of `p` there is none. */
  lemma AfterLast(s: string, p: string, j: nat)
    requires |p| > 0 && LastIndexOf(s, p) == Some(j)
    ensures j + |p| <= |s| && !Contains(s[j + |p|..], p)
  {
    var rest := s[j + |p|..];
    forall k: nat | OccursAt(rest, p, k) ensures OccursAt(s, p, j + |p| + k) {
      assert rest[k..k + |p|] == s[j + |p| + k..j + |p| + k + |p|];
    }
    NoOccurrence(rest, p);
  }

  /** Without any occurrence there is nothing to contain. */
  lemma {:induction false} NoOccurrence(s: string, p: string)
    requires forall k: nat :: !OccursAt(s, p, k)
    ensures !Contains(s, p)
    decreases |s|
  {
    assert !OccursAt(s, p, 0);
    if |s| > 0 {
      forall k: nat ensures !OccursAt(s[1..], p, k) {
        OccursAtShift(s, p, k);
      }
      NoOccurrence(s[1..], p);
    }
  }

  /** In "[^" + name + "]:" + body, an occurrence of "]:" after the written one lies inside the body. */
  lemma LaterSeparator(name: string, body: string, k: nat)
    requires OccursAt("[^" + name + "]:" + body, "]:", k) && k > |name| + 2
    ensures Contains(body, "]:")
  {
    var line := "[^" + name + "]:" + body;
    var m := |name| + 2;
    assert line[m + 1] == ':';
    assert line[k] == ']' by { assert line[k..k + 2][0] == line[k]; }
    assert k >= m + 2;
    assert body[k - m - 2..k - m] == line[k..k + 2];
    OccursAtContains(body, "]:", k - m - 2);
  }

  /** When the body holds no "]:", the last "]:" of the written definition is the one after the name. */
  lemma WrittenSeparatorIsLast(name: string, body: string)
    requires !Contains(body, "]:")
    ensures LastIndexOf("[^" + name + "]:" + body, "]:") == Some(|name| + 2)
  {
    var line := "[^" + name + "]:" + body;
    var m := |name| + 2;
    assert line[m..m + 2] == "]:";
    forall k: nat | k > m ensures !OccursAt(line, "]:", k) {
      if OccursAt(line, "]:", k) {
        LaterSeparator(name, body, k);
      }
    }
    LastOccurrence(line, "]:", m);
  }

  /** An occurrence with none after it is the last one. */
  lemma LastOccurrence(s: string, p: string, m: nat)
    requires OccursAt(s, p, m) && forall k: nat :: k > m ==> !OccursAt(s, p, k)
    ensures LastIndexOf(s, p) == Some(m)
  {
  }

  /** A definition written from a name and a body reads back as them exactly when the body holds no "]:". */
  lemma FootnoteRoundTrip(name: string, body: string)
    requires '\n' !in name && '\n' !in body
    ensures '\n' !in "[^" + name + "]:" + body
    ensures ParseFootnote("[^" + name + "]:" + body) == Some(Footnote(name, body)) <==> !Contains(body, "]:")
  {
    var line := "[^" + name + "]:" + body;
    WrittenPieces(name, body);
    ParseFootnoteShape(line);
    if !Contains(body, "]:") {
      WrittenSeparatorIsLast(name, body);
      ParseAt(line, 0, |name| + 2);
    }
  }

  /** The written definition line: its marker comes first, and it cuts back into name and body. */
  lemma WrittenPieces(name: string, body: string)
    requires '\n' !in name && '\n' !in body
    ensures var line := "[^" + name + "]:" + body;
      && '\n' !in line
      && FirstIndexOf(line, "[^") == Some(0)
      && line[2..|name| + 2] == name && line[|name| + 4..] == body
  {
    var line := "[^" + name + "]:" + body;
    assert line[..2] == "[^";
    assert OccursAt(line, "[^", 0);
  }

  /** With the first marker at i and the last separator at j, the captures are what lies between and after. */
  lemma ParseAt(line: string, i: nat, j: nat)
    requires '\n' !in line && i + 2 <= j
    requires FirstIndexOf(line, "[^") == Some(i) && LastIndexOf(line, "]:") == Some(j)
    ensures ParseFootnote(line) == Some(Footnote(line[i + 2..j], line[j + 2..]))
  {
  }

  // ---------------------------------------------------------------------------------------------
  // The synthetic source of the footnote list

  /**
   * One list entry: the body, a space and the back-link to the reference anchor. The link text is
   * the three characters written in src/main.rs:165 (U+00E2 U+2020 U+00A9, how the UTF-8 bytes of
   * the arrow U+21A9 read in Windows-1252).
   */
  function Entry(f: Footnote): string {
    "1. " + f.body + " <a class=\"fn-back\" href=\"#" + f.name + "-back\">\U{E2}\U{2020}\U{A9}</a>"
  }

  /** The entries written one after the other, with nothing between them. */
  function Entries(fs: seq<Footnote>): string {
    if fs == [] then [] else Entries(fs[..|fs| - 1]) + Entry(fs[|fs| - 1])
  }

  /** The source handed to the parser: a thematic break line, then the entries. */
  function Source(fs: seq<Footnote>): string {
    "---\n" + Entries(fs)
  }

  /** Every definition line parsed, or None at the first one the pattern does not match. */
  function ParseAll(ls: seq<string>): (r: Option<seq<Footnote>>)
    requires NoNewlines(ls)
    ensures r.Some? <==> forall i :: 0 <= i < |ls| ==> ParseFootnote(ls[i]).Some?
    ensures r.Some? ==> |r.value| == |ls| && forall i :: 0 <= i < |ls| ==> ParseFootnote(ls[i]) == Some(r.value[i])
  {
    if ls == [] then Some([])
    else
      var prefix := ls[..|ls| - 1];
      match ParseAll(prefix)
      case None => None
      case Some(fs) =>
        match ParseFootnote(ls[|ls| - 1])
        case None => None
        case Some(f) => Some(fs + [f])
  }

  function Labels(fs: seq<Footnote>): (ls: seq<string>)
    ensures |ls| == |fs| && forall i :: 0 <= i < |fs| ==> ls[i] == fs[i].name
  {
    seq(|fs|, i requires 0 <= i < |fs| => fs[i].name)
  }

  /** The `push_str` loop: the source, or a failure when some definition line does not match. */
  method BuildFootnoteSource(footnotes: seq<string>) returns (r: Result<string>)
    requires NoNewlines(footnotes)
    ensures r.Ok? <==> ParseAll(footnotes).Some?
    ensures r.Ok? ==> r.value == Source(ParseAll(footnotes).value)
    ensures r.Err? ==> r.error == MalformedFootnote
  {
    var markdown := "---\n";
    for i := 0 to |footnotes|
      invariant ParseAll(footnotes[..i]).Some?
      invariant markdown == Source(ParseAll(footnotes[..i]).value)
    {
      var captures := ParseFootnote(footnotes[i]);
      if captures.None? {
        assert !ParseFootnote(footnotes[i]).Some?;
        return Err(MalformedFootnote);
      }
      ghost var fs := ParseAll(footnotes[..i]).value;
      AppendEntry(footnotes, i, fs, captures.value);
      markdown := markdown + Entry(captures.value);
    }
    assert footnotes[..|footnotes|] == footnotes;
    r := Ok(markdown);
  }

  /** One more matching line: its captures are appended, and so is its entry. */
  lemma AppendEntry(footnotes: seq<string>, i: nat, fs: seq<Footnote>, f: Footnote)
    requires i < |footnotes| && NoNewlines(footnotes)
    requires ParseAll(footnotes[..i]) == Some(fs) && ParseFootnote(footnotes[i]) == Some(f)
    ensures ParseAll(footnotes[..i + 1]) == Some(fs + [f])
    ensures Source(fs + [f]) == Source(fs) + Entry(f)
  {
    ParseAllStep(footnotes, i, fs, f);
    EntriesSnoc(fs, f);
  }

  lemma ParseAllStep(footnotes: seq<string>, i: nat, fs: seq<Footnote>, f: Footnote)
    requires i < |footnotes| && NoNewlines(footnotes)
    requires ParseAll(footnotes[..i]) == Some(fs) && ParseFootnote(footnotes[i]) == Some(f)
    ensures ParseAll(footnotes[..i + 1]) == Some(fs + [f])
  {
    var prefix := footnotes[..i + 1];
    assert prefix[..i] == footnotes[..i];
    assert prefix[i] == footnotes[i];
    assert NoNewlines(prefix) by {
      forall k | 0 <= k < |prefix| ensures '\n' !in prefix[k] {
        assert prefix[k] == footnotes[k];
      }
    }
  }

  lemma EntriesSnoc(fs: seq<Footnote>, f: Footnote)
    ensures Entries(fs + [f]) == Entries(fs) + Entry(f)
  {
    assert (fs + [f])[..|fs|] == fs;
  }

  /**
   * With no newline in any name or body, the source holds a single newline, the one after the
   * break: all entries end up on one line, so the parser sees one list item however many
   * definitions there are.
   */
  lemma {:induction false} SourceOneNewline(fs: seq<Footnote>)
    requires forall i :: 0 <= i < |fs| ==> '\n' !in fs[i].name && '\n' !in fs[i].body
    ensures CountChar(Source(fs), '\n') == 1
  {
    EntriesNoNewline(fs);
    CountCharAppend("---\n", Entries(fs), '\n');
  }

  lemma {:induction false} EntriesNoNewline(fs: seq<Footnote>)
    requires forall i :: 0 <= i < |fs| ==> '\n' !in fs[i].name && '\n' !in fs[i].body
    ensures CountChar(Entries(fs), '\n') == 0
  {
    if fs != [] {
      var f := fs[|fs| - 1];
      EntriesNoNewline(fs[..|fs| - 1]);
      EntryNoNewline(f);
      CountCharAbsent(Entry(f), '\n');
      CountCharAppend(Entries(fs[..|fs| - 1]), Entry(f), '\n');
    }
  }

  lemma EntryNoNewline(f: Footnote)
    requires '\n' !in f.name && '\n' !in f.body
    ensures '\n' !in Entry(f)
  {
  }

  // ---------------------------------------------------------------------------------------------
  // Rewriting the parsed footnote list

  /** The opening list-item tag that carries a footnote name as its id. */
  function LiTag(name: string): string {
    "<li id=\"" + name + "\">"
  }

  predicate IsItemStart(e: Event) { e == Start(Item) }

  /** Number of list-item starts. */
  function CountItems(evs: seq<Event>): nat {
    if evs == [] then 0
    else CountItems(evs[..|evs| - 1]) + (if IsItemStart(evs[|evs| - 1]) then 1 else 0)
  }

  lemma {:induction false} CountItemsPrefix(evs: seq<Event>, k: nat)
    requires k <= |evs|
    ensures CountItems(evs[..k]) <= CountItems(evs)
    decreases |evs|
  {
    if k < |evs| {
      var prefix := evs[..|evs| - 1];
      assert prefix[..k] == evs[..k];
      CountItemsPrefix(prefix, k);
    } else {
      assert evs[..k] == evs;
    }
  }

  /**
   * The mapped stream: the j-th item start (from 0) becomes the tag for `labels[j]`, link starts are
   * rewritten, everything else is kept; an item start with no name left is an index failure.
   */
  function ItemsSpec(labels: seq<string>, evs: seq<Event>): (r: Result<seq<Event>>)
    ensures r.Ok? <==> CountItems(evs) <= |labels|
    ensures r.Ok? ==> |r.value| == |evs|
    ensures r.Err? ==> r.error == FootnoteIndexOutOfBounds
  {
    if evs == [] then Ok([])
    else
      var prefix, e := evs[..|evs| - 1], evs[|evs| - 1];
      match ItemsSpec(labels, prefix)
      case Err(err) => Err(err)
      case Ok(out) =>
        if IsItemStart(e) then
          var k := CountItems(prefix);
          if k < |labels| then Ok(out + [Html(LiTag(labels[k]))]) else Err(FootnoteIndexOutOfBounds)
        else if e.Start? && e.tag.Link? then Ok(out + [RewriteLink(e.tag.linkType, e.tag.dest, e.tag.title)])
        else Ok(out + [e])
  }

  /** What the event at index `i` becomes. */
  lemma {:induction false} ItemAt(labels: seq<string>, evs: seq<Event>, i: nat)
    requires ItemsSpec(labels, evs).Ok? && i < |evs|
    ensures var out, e := ItemsSpec(labels, evs).value, evs[i];
      && (IsItemStart(e) ==> CountItems(evs[..i]) < |labels| && out[i] == Html(LiTag(labels[CountItems(evs[..i])])))
      && (e.Start? && e.tag.Link? ==> out[i] == RewriteLink(e.tag.linkType, e.tag.dest, e.tag.title))
      && (!IsItemStart(e) && !(e.Start? && e.tag.Link?) ==> out[i] == e)
    decreases |evs|
  {
    var n := |evs| - 1;
    var prefix := evs[..n];
    var out := ItemsSpec(labels, evs).value;
    var pout := ItemsSpec(labels, prefix).value;
    assert out[..n] == pout;
    if i < n {
      ItemAt(labels, prefix, i);
      assert prefix[..i] == evs[..i];
      assert out[i] == pout[i];
    }
  }

  /** Event by event: which label each item start gets, and that all other events are kept or have their link rewritten. */
  lemma ItemsPointwise(labels: seq<string>, evs: seq<Event>)
    requires ItemsSpec(labels, evs).Ok?
    ensures var out := ItemsSpec(labels, evs).value;
      forall i :: 0 <= i < |evs| ==>
        && (IsItemStart(evs[i]) ==> CountItems(evs[..i]) < |labels| && out[i] == Html(LiTag(labels[CountItems(evs[..i])])))
        && (evs[i].Start? && evs[i].tag.Link? ==> out[i] == RewriteLink(evs[i].tag.linkType, evs[i].tag.dest, evs[i].tag.title))
        && (!IsItemStart(evs[i]) && !(evs[i].Start? && evs[i].tag.Link?) ==> out[i] == evs[i])
  {
    forall i | 0 <= i < |evs| {
      ItemAt(labels, evs, i);
    }
  }

  /** The closure's counter and lookup, as a loop: one output event per input event. */
  method RewriteItems(footnotes: seq<string>, evs: seq<Event>) returns (r: Result<seq<Event>>)
    requires NoNewlines(footnotes) && ParseAll(footnotes).Some?
    ensures r == ItemsSpec(Labels(ParseAll(footnotes).value), evs)
  {
    ghost var labels := Labels(ParseAll(footnotes).value);
    var footnoteNo: nat := 0;
    var out: seq<Event> := [];
    for i := 0 to |evs|
      invariant footnoteNo == CountItems(evs[..i])
      invariant ItemsSpec(labels, evs[..i]) == Ok(out)
    {
      var event := evs[i];
      assert evs[..i + 1][..i] == evs[..i];
      if IsItemStart(event) {
        if footnoteNo >= |footnotes| {
          CountItemsPrefix(evs, i + 1);
          return Err(FootnoteIndexOutOfBounds);
        }
        var capture := ParseFootnote(footnotes[footnoteNo]);
        footnoteNo := footnoteNo + 1;
        out := out + [Html(LiTag(capture.value.name))];
      } else if event.Start? && event.tag.Link? {
        out := out + [RewriteLink(event.tag.linkType, event.tag.dest, event.tag.title)];
      } else {
        out := out + [event];
      }
    }
    assert evs[..|evs|] == evs;
    r := Ok(out);
  }

  /** What `fmt_footnotes_to_html` returns, for a given parser and HTML writer. */
  function FootnotesSpec(footnotes: seq<string>, parse: string -> seq<Parsed>, pushHtml: seq<Event> -> string): Result<string>
    requires NoNewlines(footnotes)
  {
    match ParseAll(footnotes)
    case None => Err(MalformedFootnote)
    case Some(fs) =>
      match ItemsSpec(Labels(fs), EventsOf(parse(Source(fs))))
      case Err(e) => Err(e)
      case Ok(evs) => Ok(pushHtml(evs))
  }

  /** `fmt_footnotes_to_html`: build the source, parse it, rewrite the items and links, write HTML. */
  method FmtFootnotesToHtml(footnotes: seq<string>, parse: string -> seq<Parsed>, pushHtml: seq<Event> -> string)
    returns (r: Result<string>)
    requires NoNewlines(footnotes)
    ensures r == FootnotesSpec(footnotes, parse, pushHtml)
    ensures r.Err? <==> ParseAll(footnotes).None? || CountItems(EventsOf(parse(Source(ParseAll(footnotes).value)))) > |footnotes|
  {
    var markdown := BuildFootnoteSource(footnotes);
    if markdown.Err? {
      return Err(markdown.error);
    }
    var events := RewriteItems(footnotes, EventsOf(parse(markdown.value)));
    if events.Err? {
      return Err(events.error);
    }
    r := Ok(pushHtml(events.value));
  }
}
