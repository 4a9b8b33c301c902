# orbit-rs page conversion, modelled in Dafny

orbit-rs turns a directory of Markdown notes into HTML pages. For each page it:

- skips a fixed-size frontmatter;
- takes the footnote definition lines out of the text;
- parses the rest with pulldown-cmark and rewrites the event stream;
- renders the footnote definitions as a second Markdown source with labelled list items;
- puts the result into a page template.

The rewriting does three things:
- footnote references become numbered back-anchors;
- `.md` link destinations become `.html`;
- a fenced block tagged `orbit` is replaced by a review deck rendered from its JSON payload.

This project models that per-page text transformation (`src/main.rs`) and the deck rendering (`src/orbit.rs`).

Modules, one file each:

- `Outcomes` (`outcomes.dfy`): `Option`, `Result`, and the ways a conversion aborts. Each abort is a panic or a propagated `?` in the source.
- `Text` (`text.dfy`): the standard-library string operations the code relies on, plus `Contains` and the occurrence predicates used only to state contracts:
  - `starts_with`, `ends_with`;
  - `replace`;
  - `lines`, `join`;
  - decimal formatting.
- `Events` (`events.dfy`): pulldown-cmark's events and tags, plus the offset iterator's `(event, range)` pairs.
- `Links` (`links.dfy`): the link destination rewrite shared by both passes.
- `Frontmatter` (`frontmatter.dfy`): the newline-counting loop.
- `Footnotes` (`footnotes.dfy`):
  - the splitter;
  - the definition pattern `\[\^(.*)\]:(.*)$`;
  - the synthetic footnote source;
  - the `<li id>` rewrite.
- `Orbit` (`orbit.dfy`): the deck and card types, and `to_html` with its card template.
- `OrbitBlock` (`orbit_block.dfy`): slicing the block out of the page and stripping its fences.
- `Body` (`body.dfy`): the event-rewriting loop of `markdown_to_html`, with its footnote counter and orbit flag.
- `Pipeline` (`pipeline.dfy`): `markdown_to_html` and the per-file frontmatter skip.

Every loop of the source is a Dafny method with a loop, proved equal to a specification function defined by recursion over the input. The properties are proved as lemmas about those functions.

Three library calls are function-typed parameters:
- the Markdown parser: `parse`, from text to `(event, range)` pairs;
- the HTML writer: `pushHtml`;
- the JSON decoder: `decode`, which may fail.

The page template is a parameter too, `fillTemplate`. So every statement holds for any parser, writer, decoder and template.

Behaviours of the code that a reader might not expect, each stated in the model:

- **Deck payload shape.** The decoded payload is an object whose `deck` field holds the cards (`src/orbit.rs:14-16`). The attachment field is read from the JSON key `question_attachments`.
- **Link rewrite.** A destination that ends in `.md` has *every* `.md` replaced by `.html`, not only the suffix (`src/main.rs:103`). The two agree exactly when `.md` occurs nowhere else: `Links.SuffixOnlyRewrite` proves they agree then, and `Links.InnerMdRewrite` that they differ when the stem holds a `.md` too.
- **Fenced blocks.** Start and end events of fenced blocks in *every* language are dropped, not only `orbit` ones (`Body.NoFenceBoundaries`).
- **Suppression inside an orbit block.** Inside an orbit block only the events of the catch-all arm are suppressed. Footnote references and link starts are still emitted (`Body.Suppressed`, `Body.RefStep`, `Body.LinkStep`).
- **Footnote entries.** The entries of the synthetic footnote source have no separator between them. So all definitions end up on one line of that source (`Footnotes.SourceOneNewline`).
- **Orbit offsets.** The block's offsets are computed on the text without definition lines, but applied to the text with them. `Pipeline.BlockOffsetsAgree` gives the condition under which this is harmless.
- **Short preamble.** A page whose preamble holds only five newlines loses its first body line to the frontmatter skip, because the sixth newline is the one ending that line. A following line that starts with `[^` but holds no `]:` is taken as a footnote definition, the definition pattern does not match it (`Footnotes.DefinitionLineParse`), and the conversion aborts with `MalformedFootnote` instead of producing a page.
- **Frontmatter skip.** Skipping the frontmatter twice does not give the result of one skip: it drops everything up to the twelfth newline (`Frontmatter.SkipTwice`).

## Model

| member | source | states |
|---|---|---|
| Frontmatter.SkipFrontmatter | src/main.rs:53-62 | Succeeds exactly when the text holds at least six newlines, otherwise fails with `FrontmatterTooShort`; the index returned is one past the sixth '\n': the prefix ends in '\n' and holds exactly six newlines |
| Frontmatter.NewlineEnd | src/main.rs:53-62 | The position one past the n-th newline: the prefix holds n newlines and ends in '\n'; there is none exactly when the text has fewer than n newlines |
| Frontmatter.SkipTwice | src/main.rs:53-64 | Skipping b newlines from where a skip of a newlines ended is skipping a + b from the start, and always drops more text: the skip is not idempotent |
| Footnotes.Definitions | src/main.rs:150-153 | The collected lines all start with "[^" and are lines of the input |
| Footnotes.BodyLines | src/main.rs:150-156 | The kept lines never start with "[^" and are lines of the input |
| Footnotes.SplitContentAndFootnotes | src/main.rs:146-159 | The loop returns the definition lines in order and the other lines joined with "\n" |
| Footnotes.SplitPartition | src/main.rs:150-156 | Every input line goes to exactly one output: the counts add up and the two outputs together are the input as a multiset |
| Footnotes.NoDefinitionsKept | src/main.rs:150-158 | Without definition lines every line is kept and no footnote is collected |
| Footnotes.ContentNewlines | src/main.rs:158 | The joined content holds one newline fewer than it has lines |
| Footnotes.DefinitionLineParse | src/main.rs:19 | On a line starting with "[^" the pattern matches exactly when the line contains "]:"; the line is then "[^" + label + "]:" + body, split at the last "]:", so the body holds no "]:" |
| Footnotes.FootnoteRoundTrip | src/main.rs:19 | A line written as "[^" + label + "]:" + body reads back as that label and body exactly when the body holds no "]:" |
| Footnotes.ParseFootnoteShape | src/main.rs:19 | When the pattern matches, the line ends with "[^" + label + "]:" + body and the body holds no "]:"; a line without "[^" or without "]:" does not match |
| Footnotes.ParseAll | src/main.rs:163-164 | All definitions parse exactly when each line matches; the result then has one footnote per line, in order |
| Footnotes.BuildFootnoteSource | src/main.rs:162-167 | The loop fails with `MalformedFootnote` exactly when some line does not match; otherwise it returns "---\n" followed by one entry per definition, with nothing between entries |
| Footnotes.SourceOneNewline | src/main.rs:162-166 | With no newline in labels or bodies the synthetic source holds exactly one newline, after the rule |
| Footnotes.ItemsSpec | src/main.rs:176-193 | The item rewrite fails, with `FootnoteIndexOutOfBounds`, exactly when there are more item starts than definitions; on success it maps events one to one |
| Footnotes.ItemsPointwise | src/main.rs:177-192 | The j-th item start becomes `<li id="label_j">` with the j-th definition's label; link starts are rewritten; every other event is kept as is |
| Footnotes.RewriteItems | src/main.rs:174-193 | The counter-carrying map computes the item rewrite, including its failure |
| Footnotes.FmtFootnotesToHtml | src/main.rs:161-199 | Fails exactly when a definition line does not match or the parsed list has more item starts than there are definitions; otherwise the writer's HTML for the rewritten list |
| Links.RewriteDestination | src/main.rs:101-104 | A destination not ending in ".md" is kept; one ending in ".md" becomes the result of replacing every ".md" by ".html" (the rest copied, as `Links.ReplaceMdSplit` states), which ends in ".html" and holds no ".md" |
| Links.RewriteLink | src/main.rs:100-106 | Type and title are kept; a destination not ending in ".md" is kept; one ending in ".md" becomes the result of replacing every ".md" by ".html", which ends in ".html" and holds no ".md" |
| Links.ReplaceMdSplit | src/main.rs:103 | Text before the first ".md" is copied unchanged, that ".md" becomes ".html", and the replacement continues after it |
| Links.SuffixOnlyRewrite | src/main.rs:102-104 | When ".md" occurs only as the suffix, the rewrite swaps exactly that suffix for ".html" |
| Links.InnerMdRewrite | src/main.rs:102-104 | When ".md" also occurs before the suffix, the rewrite differs from swapping only the suffix for ".html" |
| Links.ReplaceMdLeavesNone | src/main.rs:103 | Replacing every ".md" by ".html" leaves no ".md" |
| Links.ReplaceMdEndsWithHtml | src/main.rs:103 | A text ending in ".md" ends in ".html" after the replacement |
| Body.RewriteBody | src/main.rs:89-131 | The loop with its counter and flag computes the rewritten stream, or the first orbit failure |
| Body.RefStep | src/main.rs:95-98 | After any prefix, inside an orbit block or not, a footnote reference raises the counter by one and appends exactly one anchor carrying its label and the new count; the orbit flag is unchanged |
| Body.LinkStep | src/main.rs:100-106 | After any prefix, inside an orbit block or not, a link start is appended as the rewritten link start and the orbit flag is unchanged |
| Body.RefNamesBounds | src/main.rs:95-96 | A stream with no reference has no labels; one made only of references has one label per event |
| Body.RefNumbering | src/main.rs:90-98 | Without raw HTML and orbit blocks in the input, the raw HTML of the output is the anchors `<sup class="fn"><a id="L-back" href="#L">[k]</a></sup>` for k = 1, 2, ... in reference order, repeats counted |
| Body.PassThroughStep | src/main.rs:125-128 | Outside an orbit block, after any prefix that rewrites successfully, an event of the catch-all arm is appended unchanged and the block stays closed |
| Body.PassThrough | src/main.rs:125-128 | Outside an orbit block, events of the catch-all arm pass through unchanged and in order |
| Body.Suppressed | src/main.rs:125-128 | Inside an orbit block, events of the catch-all arm are dropped and the block stays open |
| Body.OrbitStartEmitsDeck | src/main.rs:108-117 | An orbit block start emits exactly one raw HTML event, the rendered deck, and opens the block; a failing block fails the page |
| Body.OrbitEndCloses | src/main.rs:119-123 | An orbit block end emits nothing and closes the block |
| Body.NoFenceBoundaries | src/main.rs:108-123 | No fenced block start or end, of any language, appears in the output |
| OrbitBlock.Payload | src/main.rs:202 | The payload is the block less its first 9 and last 4 characters, of length len - 13; a block shorter than 13 fails |
| OrbitBlock.PayloadOfFence | src/main.rs:202 | A block written as "```orbit\n" + payload + "```\n" gives back exactly the payload |
| OrbitBlock.DeserializeCodeblock | src/main.rs:201-206 | A short block fails with `OrbitBlockTooShort`; an undecodable payload fails with `DeckDecodeFailed`; otherwise the result is the decoder's deck |
| OrbitBlock.BlockHtml | src/main.rs:108-112 | Offsets that do not fit the page fail with `OrbitRangeOutOfBounds`; otherwise it succeeds exactly when the sliced block decodes, the result is then the review area of the decoded deck, and a failure is the block's own failure |
| Orbit.ToHtml | src/orbit.rs:19-28 | The loop returns the opening tag, the card elements in deck order and the closing tag; an empty deck gives exactly "<orbit-reviewarea></orbit-reviewarea>"; the length is 37 plus each card's share |
| Orbit.CardHtml | src/orbit.rs:38-52 | A card element is 75 template characters plus the three fields, inserted verbatim |
| Orbit.DeckHtmlLength | src/orbit.rs:19-28 | The review area is 37 characters of wrapper plus, per card, 75 plus the lengths of its three fields |
| Orbit.DeckHtmlRoundTrip | src/orbit.rs:7-9 | When no field holds a double quote, reading the review area back gives the same deck: one element per card, in order, each field in its own attribute and unmodified |
| Pipeline.MarkdownToHtml | src/main.rs:78-144 | Split, rewrite, write, then append the footnote list and fill the template; the first failure aborts the page |
| Pipeline.ConvertDocument | src/main.rs:53-64 | A file with fewer than six newlines fails with `FrontmatterTooShort`; otherwise the page is converted from just after the sixth newline |
| Pipeline.CommonPrefix | src/main.rs:84-86 | The page and the parsed content share every line before the first definition line |
| Pipeline.BlockOffsetsAgree | src/main.rs:110 | An orbit block that ends before the first definition line renders the same whether sliced from the page or from the parsed content |
| Pipeline.ContentOfPlainPage | src/main.rs:146-158 | Without definition lines the parsed content is the page itself, less at most one final newline |
| Text.Lines | src/main.rs:150 | No line holds a newline, and a nonempty text has at least one line |
| Text.ReplaceAllAbsent | src/main.rs:103 | A text without the pattern is unchanged by the replacement; a text starting with the pattern starts with the replacement afterwards |
| Text.LinesJoin | src/main.rs:150-158 | Joining the lines with "\n" gives back the text, except for one final newline |
| Text.DecimalRoundTrip | src/main.rs:97 | The counter written in decimal reads back as the counter |

## Left out

- `main` and `walk_markdown_directory` (`src/main.rs:25-76`) are not modelled. This covers argument handling, the directory walk, the file reads and writes, the output path, and the stylesheet copy. They are file-system glue; `Pipeline.ConvertDocument` is the per-file step without the I/O.
- `is_hidden` and `is_markdown` (`src/main.rs:208-217`) are not modelled. They are traversal filters of the directory walk.
- The pulldown-cmark parser and HTML writer are parameters. The model relies on nothing about them, except that the plain iterator yields the same events as the offset iterator, without the ranges.
- JSON decoding is a parameter that may fail. The deck it returns is taken as is.
- The Handlebars page template is a parameter. Its rendering failure is not modelled, because the template and its single slot are fixed.
- The card template is modelled as plain concatenation of its fixed parts and the three fields. Its rendering failure is likewise not modelled.
- Text is a sequence of characters. Byte offsets and UTF-8 boundaries are modelled as character indices, which agrees with the source for ASCII text. A slice that splits a multi-byte character, which panics in Rust, is not modelled.
- `lines()` is modelled without its removal of a '\r' before '\n'.
- Footnote counters are unbounded. The 32-bit overflow of `footnote_no` after 2^32 references is not modelled.
- Footnotes.ParseFootnote: models the pattern only on text without '\n'. Every caller passes a line, so this covers every use in the source. Its captures are stated by `Footnotes.ParseFootnoteShape` and `Footnotes.FootnoteRoundTrip`.
- Body.RefNumbering: stated only for streams without raw HTML and without orbit block starts, whose emitted HTML would be mixed with the anchors. `Body.RefStep` states the numbering for a reference after any prefix.
- Body.PassThrough: stated only for streams made entirely of catch-all events. `Body.PassThroughStep` states the pass-through for one such event after any prefix outside an orbit block.
- Panics (out-of-bounds indexing, `unwrap` on a failed match) are modelled as `Err` results, like the propagated errors. All of them abort the conversion.
