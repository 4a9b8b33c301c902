/**
 * The Markdown parser's event stream, reduced to the event kinds the rewriting passes
 * distinguish. The parser itself and the HTML writer are not modelled: they are supplied to the
 * pipeline as functions over these values.
 */
module Events {
  import opened Outcomes

  datatype LinkType =
    | Inline | Reference | ReferenceUnknown | Collapsed | CollapsedUnknown
    | Shortcut | ShortcutUnknown | Autolink | Email

  datatype CodeBlockKind = Indented | Fenced(info: string)

  datatype Tag =
    | Paragraph
    | Heading(level: nat)
    | BlockQuote
    | CodeBlock(kind: CodeBlockKind)
    | List(first: Option<nat>)
    | Item
    | FootnoteDefinition(name: string)
    | Emphasis
    | Strong
    | Strikethrough
    | Link(linkType: LinkType, dest: string, title: string)
    | Image(linkType: LinkType, dest: string, title: string)

  datatype Event =
    | Start(tag: Tag)
    | End(tag: Tag)
    | Text(text: string)
    | Code(code: string)
    | Html(html: string)
    | FootnoteReference(name: string)
    | SoftBreak
    | HardBreak
    | Rule
    | TaskListMarker(checked: bool)

  /** Byte range of an event in the text that was parsed. */
  datatype Range = Range(start: nat, end: nat)

  /** One item of the parser's offset iterator. */
  datatype Parsed = Parsed(event: Event, range: Range)

  /** The events of an offset stream, ranges dropped (the plain, non-offset iterator). */
  function EventsOf(ps: seq<Parsed>): (es: seq<Event>)
    ensures |es| == |ps| && forall i :: 0 <= i < |ps| ==> es[i] == ps[i].event
  {
    seq(|ps|, i requires 0 <= i < |ps| => ps[i].event)
  }

  /** The payloads of the raw-HTML events, in order. */
  function HtmlOf(es: seq<Event>): seq<string>
  {
    if es == [] then []
    else HtmlOf(es[..|es| - 1]) + (if es[|es| - 1].Html? then [es[|es| - 1].html] else [])
  }

  predicate IsFenceBoundary(e: Event) {
    (e.Start? || e.End?) && e.tag.CodeBlock? && e.tag.kind.Fenced?
  }
}
