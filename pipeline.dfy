/**
 * One page from file text to the body of the HTML page (src/main.rs:53-64, 78-144): the
 * frontmatter is skipped, footnote definition lines are split off, the rest is parsed and
 * rewritten, the footnote list is rendered after it, and the result fills the page template.
 */
module Pipeline {
  import opened Outcomes
  import opened Text
  import opened Events
  import opened Frontmatter
  import opened Footnotes
  import opened Body
  import OrbitBlock
  import Orbit

  /** The page body: the rewritten content written as HTML, then the footnote list; the first failure otherwise. */
  function PageBody(markdown: string, parse: string -> seq<Parsed>, pushHtml: seq<Event> -> string,
                    decode: string -> Option<Orbit.Deck>): Result<string>
  {
    var lines := Lines(markdown);
    DefinitionsNoNewlines(markdown);
    match BodySpec(markdown, decode, parse(Join(BodyLines(lines), "\n")))
    case Err(e) => Err(e)
    case Ok(events) =>
      match FootnotesSpec(Definitions(lines), parse, pushHtml)
      case Err(e) => Err(e)
      case Ok(footnotesHtml) => Ok(pushHtml(events) + footnotesHtml)
  }

  /** What `markdown_to_html` returns: the page body put into the template. */
  function Page(markdown: string, parse: string -> seq<Parsed>, pushHtml: seq<Event> -> string,
                decode: string -> Option<Orbit.Deck>, fillTemplate: string -> string): Result<string>
  {
    match PageBody(markdown, parse, pushHtml, decode)
    case Err(e) => Err(e)
    case Ok(body) => Ok(fillTemplate(body))
  }

  /** `markdown_to_html`, for a given parser, HTML writer, deck decoder and page template. */
  method MarkdownToHtml(markdown: string, parse: string -> seq<Parsed>, pushHtml: seq<Event> -> string,
                        decode: string -> Option<Orbit.Deck>, fillTemplate: string -> string)
    returns (r: Result<string>)
    ensures r == Page(markdown, parse, pushHtml, decode, fillTemplate)
  {
    var content, footnotes := SplitContentAndFootnotes(markdown);
    var events := RewriteBody(markdown, parse(content), decode);
    if events.Err? {
      return Err(events.error);
    }
    var htmlOutput := pushHtml(events.value);
    var footnotesHtml := FmtFootnotesToHtml(footnotes, parse, pushHtml);
    if footnotesHtml.Err? {
      return Err(footnotesHtml.error);
    }
    htmlOutput := htmlOutput + footnotesHtml.value;
    r := Ok(fillTemplate(htmlOutput));
  }

  /** A whole file: the frontmatter is skipped, the rest is converted. */
  function Document(raw: string, parse: string -> seq<Parsed>, pushHtml: seq<Event> -> string,
                    decode: string -> Option<Orbit.Deck>, fillTemplate: string -> string): Result<string>
  {
    match NewlineEnd(raw, PreambleNewlines)
    case None => Err(FrontmatterTooShort)
    case Some(k) => Page(raw[k..], parse, pushHtml, decode, fillTemplate)
  }

  /** The per-file step of the directory walk, without the file reads and writes. */
  method ConvertDocument(raw: string, parse: string -> seq<Parsed>, pushHtml: seq<Event> -> string,
                         decode: string -> Option<Orbit.Deck>, fillTemplate: string -> string)
    returns (r: Result<string>)
    ensures r == Document(raw, parse, pushHtml, decode, fillTemplate)
    ensures CountChar(raw, '\n') < PreambleNewlines ==> r == Err(FrontmatterTooShort)
  {
    var idx := SkipFrontmatter(raw);
    if idx.Err? {
      return Err(idx.error);
    }
    r := MarkdownToHtml(raw[idx.value..], parse, pushHtml, decode, fillTemplate);
  }

  /**
   * The text handed to the parser and the text the orbit offsets are applied to share every line
   * before the first definition line: offsets that stay in front of it pick the same characters
   * from both.
   */
  lemma CommonPrefix(markdown: string, k: nat)
    requires k <= |Lines(markdown)|
    requires forall i :: 0 <= i < k ==> !IsFootnoteLine(Lines(markdown)[i])
    ensures var p := Join(Lines(markdown)[..k], "\n");
      StartsWith(markdown, p) && StartsWith(Join(BodyLines(Lines(markdown)), "\n"), p)
  {
    var ls := Lines(markdown);
    var p := Join(ls[..k], "\n");
    JoinPrefix(ls, k, "\n");
    LinesJoin(markdown);
    assert StartsWith(markdown, Join(ls, "\n"));
    BodyLinesPrefix(ls, k);
    JoinPrefix(BodyLines(ls), k, "\n");
  }

  /** An orbit block that ends before the first definition line renders the same from both texts. */
  lemma BlockOffsetsAgree(markdown: string, k: nat, range: Range, decode: string -> Option<Orbit.Deck>)
    requires k <= |Lines(markdown)|
    requires forall i :: 0 <= i < k ==> !IsFootnoteLine(Lines(markdown)[i])
    requires range.start <= range.end <= |Join(Lines(markdown)[..k], "\n")|
    ensures OrbitBlock.BlockHtml(markdown, range, decode)
         == OrbitBlock.BlockHtml(Join(BodyLines(Lines(markdown)), "\n"), range, decode)
  {
    var content := Join(BodyLines(Lines(markdown)), "\n");
    var p := Join(Lines(markdown)[..k], "\n");
    CommonPrefix(markdown, k);
    SameSlice(markdown, content, p, range.start, range.end);
  }

  /** Two texts with a common prefix agree on every slice inside it. */
  lemma SameSlice(a: string, b: string, p: string, i: nat, j: nat)
    requires StartsWith(a, p) && StartsWith(b, p) && i <= j <= |p|
    ensures j <= |a| && j <= |b| && a[i..j] == b[i..j]
  {
    forall t | i <= t < j ensures a[t] == b[t] {
      assert a[t] == a[..|p|][t] == p[t] == b[..|p|][t] == b[t];
    }
  }

  /**
   * Without definition lines the content is the page itself, less one final newline if there is
   * one; offsets computed on it then fit the page.
   */
  lemma ContentOfPlainPage(markdown: string)
    requires forall i :: 0 <= i < |Lines(markdown)| ==> !IsFootnoteLine(Lines(markdown)[i])
    ensures var content := Join(BodyLines(Lines(markdown)), "\n");
      StartsWith(markdown, content) && |markdown| - |content| <= 1
  {
    NoDefinitionsKept(Lines(markdown));
    LinesJoin(markdown);
  }
}
