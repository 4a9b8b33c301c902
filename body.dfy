/**
 * The rewriting pass over the body's event stream in `markdown_to_html` (src/main.rs:89-131):
 * footnote references become numbered back-anchors, ".md" link destinations are rewritten, an
 * orbit fenced block is replaced by its rendered deck, and the events inside it are dropped.
 */
module Body {
  import opened Outcomes
  import opened Text
  import opened Events
  import opened Links
  import opened OrbitBlock
  import Orbit

  /** The inline anchor that replaces the n-th footnote reference to `name`. */
  function FootnoteRefHtml(name: string, n: nat): string {
    "<sup class=\"fn\"><a id=\"" + name + "-back\" href=\"#" + name + "\">[" + DecimalString(n) + "]</a></sup>"
  }

  predicate IsOrbitStart(e: Event) { e == Start(CodeBlock(Fenced("orbit"))) }

  predicate IsOrbitEnd(e: Event) { e == End(CodeBlock(Fenced("orbit"))) }

  /** Events the rewriting has no arm for: only these are subject to suppression. */
  predicate IsDefaultArm(e: Event) {
    !e.FootnoteReference? && !(e.Start? && e.tag.Link?) && !IsFenceBoundary(e)
  }

  /** Labels of the footnote references, in stream order, repeats included. */
  function RefNames(ps: seq<Parsed>): (names: seq<string>)
    ensures |names| <= |ps|
  {
    if ps == [] then []
    else
      var e := ps[|ps| - 1].event;
      RefNames(ps[..|ps| - 1]) + (if e.FootnoteReference? then [e.name] else [])
  }

  /** With no reference there is no label; when every event is a reference, every event gives one. */
  lemma {:induction false} RefNamesBounds(ps: seq<Parsed>)
    ensures (forall i :: 0 <= i < |ps| ==> !ps[i].event.FootnoteReference?) ==> RefNames(ps) == []
    ensures (forall i :: 0 <= i < |ps| ==> ps[i].event.FootnoteReference?) ==> |RefNames(ps)| == |ps|
  {
    if ps != [] {
      RefNamesBounds(ps[..|ps| - 1]);
    }
  }

  /** Footnote references seen so far. */
  function CountRefs(ps: seq<Parsed>): nat {
    |RefNames(ps)|
  }

  /** Inside an orbit block: the last orbit fence boundary seen is an opening one. */
  predicate InOrbit(ps: seq<Parsed>) {
    if ps == [] then false
    else
      var e := ps[|ps| - 1].event;
      if IsOrbitStart(e) then true
      else if IsOrbitEnd(e) then false
      else InOrbit(ps[..|ps| - 1])
  }

  /** What the event `pe` becomes, given the events `prefix` before it. */
  function Emit(markdown: string, decode: string -> Option<Orbit.Deck>, prefix: seq<Parsed>, pe: Parsed): Result<seq<Event>>
  {
    var e := pe.event;
    if e.FootnoteReference? then Ok([Html(FootnoteRefHtml(e.name, CountRefs(prefix) + 1))])
    else if e.Start? && e.tag.Link? then Ok([RewriteLink(e.tag.linkType, e.tag.dest, e.tag.title)])
    else if e.Start? && e.tag.CodeBlock? && e.tag.kind.Fenced? then
      if e.tag.kind.info == "orbit" then
        match BlockHtml(markdown, pe.range, decode)
        case Err(err) => Err(err)
        case Ok(h) => Ok([Html(h)])
      else Ok([])
    else if e.End? && e.tag.CodeBlock? && e.tag.kind.Fenced? then Ok([])
    else if InOrbit(prefix) then Ok([])
    else Ok([e])
  }

  /** The rewritten stream: each event's emission in order, or the first failure. */
  function BodySpec(markdown: string, decode: string -> Option<Orbit.Deck>, ps: seq<Parsed>): Result<seq<Event>>
  {
    if ps == [] then Ok([])
    else
      var prefix := ps[..|ps| - 1];
      match BodySpec(markdown, decode, prefix)
      case Err(e) => Err(e)
      case Ok(out) =>
        match Emit(markdown, decode, prefix, ps[|ps| - 1])
        case Err(e) => Err(e)
        case Ok(more) => Ok(out + more)
  }

  /** The rewriting loop, with its counter and its orbit flag. */
  method RewriteBody(markdown: string, parsed: seq<Parsed>, decode: string -> Option<Orbit.Deck>) returns (r: Result<seq<Event>>)
    ensures r == BodySpec(markdown, decode, parsed)
  {
    var inOrbitBlock := false;
    var footnoteNo: nat := 0;
    var events: seq<Event> := [];
    for i := 0 to |parsed|
      invariant footnoteNo == CountRefs(parsed[..i])
      invariant inOrbitBlock == InOrbit(parsed[..i])
      invariant BodySpec(markdown, decode, parsed[..i]) == Ok(events)
    {
      var pe := parsed[i];
      ghost var prefix := parsed[..i];
      Step(markdown, decode, parsed, i);
      var event := pe.event;
      if event.FootnoteReference? {
        footnoteNo := footnoteNo + 1;
        events := events + [Html(FootnoteRefHtml(event.name, footnoteNo))];
      } else if event.Start? && event.tag.Link? {
        events := events + [RewriteLink(event.tag.linkType, event.tag.dest, event.tag.title)];
      } else if event.Start? && event.tag.CodeBlock? && event.tag.kind.Fenced? {
        if event.tag.kind.info == "orbit" {
          if !(pe.range.start <= pe.range.end <= |markdown|) {
            ErrPersists(markdown, decode, parsed, i + 1);
            return Err(OrbitRangeOutOfBounds);
          }
          var codeblock := markdown[pe.range.start..pe.range.end];
          var orbit := DeserializeCodeblock(codeblock, decode);
          if orbit.Err? {
            ErrPersists(markdown, decode, parsed, i + 1);
            return Err(orbit.error);
          }
          var orbitHtml := Orbit.ToHtml(orbit.value);
          inOrbitBlock := true;
          events := events + [Html(orbitHtml)];
        } else {
          assert events + [] == events;
        }
      } else if event.End? && event.tag.CodeBlock? && event.tag.kind.Fenced? {
        assert events + [] == events;
        if event.tag.kind.info == "orbit" {
          inOrbitBlock := false;
        }
      } else {
        if !inOrbitBlock {
          events := events + [event];
        } else {
          assert events + [] == events;
        }
      }
    }
    assert parsed[..|parsed|] == parsed;
    r := Ok(events);
  }

  /** One more event: the emission is appended, the counter and the flag are updated. */
  lemma Step(markdown: string, decode: string -> Option<Orbit.Deck>, ps: seq<Parsed>, i: nat)
    requires i < |ps|
    ensures var prefix, pe := ps[..i], ps[i];
      && BodySpec(markdown, decode, ps[..i + 1]) ==
           (match BodySpec(markdown, decode, prefix)
            case Err(e) => Err(e)
            case Ok(out) =>
              match Emit(markdown, decode, prefix, pe)
              case Err(e) => Err(e)
              case Ok(more) => Ok(out + more))
      && CountRefs(ps[..i + 1]) == CountRefs(prefix) + (if pe.event.FootnoteReference? then 1 else 0)
      && InOrbit(ps[..i + 1]) == (if IsOrbitStart(pe.event) then true else if IsOrbitEnd(pe.event) then false else InOrbit(prefix))
  {
    assert ps[..i + 1][..i] == ps[..i];
    assert ps[..i + 1][i] == ps[i];
  }

  /** A failure on a prefix is the failure of the whole stream. */
  lemma {:induction false} ErrPersists(markdown: string, decode: string -> Option<Orbit.Deck>, ps: seq<Parsed>, k: nat)
    requires k <= |ps| && BodySpec(markdown, decode, ps[..k]).Err?
    ensures BodySpec(markdown, decode, ps) == BodySpec(markdown, decode, ps[..k])
    decreases |ps| - k
  {
    if k < |ps| {
      assert ps[..k + 1][..k] == ps[..k];
      ErrPersists(markdown, decode, ps, k + 1);
    } else {
      assert ps[..k] == ps;
    }
  }

  /** No fenced-block start or end, of any language, survives the rewriting. */
  lemma {:induction false} NoFenceBoundaries(markdown: string, decode: string -> Option<Orbit.Deck>, ps: seq<Parsed>)
    requires BodySpec(markdown, decode, ps).Ok?
    ensures forall i :: 0 <= i < |BodySpec(markdown, decode, ps).value| ==> !IsFenceBoundary(BodySpec(markdown, decode, ps).value[i])
  {
    if ps != [] {
      var prefix := ps[..|ps| - 1];
      NoFenceBoundaries(markdown, decode, prefix);
    }
  }

  /** Outside any orbit block, events without an arm of their own pass through unchanged and in order. */
  lemma {:induction false} PassThrough(markdown: string, decode: string -> Option<Orbit.Deck>, ps: seq<Parsed>)
    requires forall i :: 0 <= i < |ps| ==> IsDefaultArm(ps[i].event)
    ensures !InOrbit(ps)
    ensures BodySpec(markdown, decode, ps) == Ok(EventsOf(ps))
  {
    if ps != [] {
      var prefix := ps[..|ps| - 1];
      PassThrough(markdown, decode, prefix);
      assert EventsOf(ps) == EventsOf(prefix) + [ps[|ps| - 1].event];
    }
  }

  /** Outside an orbit block, one more event without an arm of its own is appended unchanged. */
  lemma PassThroughStep(markdown: string, decode: string -> Option<Orbit.Deck>, ps: seq<Parsed>, pe: Parsed, out: seq<Event>)
    requires !InOrbit(ps) && IsDefaultArm(pe.event) && BodySpec(markdown, decode, ps) == Ok(out)
    ensures !InOrbit(ps + [pe])
    ensures BodySpec(markdown, decode, ps + [pe]) == Ok(out + [pe.event])
  {
    assert (ps + [pe])[..|ps|] == ps;
  }

  /** Inside an orbit block, events without an arm of their own are dropped. */
  lemma Suppressed(markdown: string, decode: string -> Option<Orbit.Deck>, ps: seq<Parsed>, pe: Parsed)
    requires InOrbit(ps) && IsDefaultArm(pe.event)
    ensures InOrbit(ps + [pe])
    ensures BodySpec(markdown, decode, ps + [pe]) == BodySpec(markdown, decode, ps)
  {
    assert (ps + [pe])[..|ps|] == ps;
    if BodySpec(markdown, decode, ps).Ok? {
      assert BodySpec(markdown, decode, ps).value + [] == BodySpec(markdown, decode, ps).value;
    }
  }

  /** An orbit block start emits exactly one raw-HTML event, the rendered deck, and opens the block. */
  lemma OrbitStartEmitsDeck(markdown: string, decode: string -> Option<Orbit.Deck>, ps: seq<Parsed>, pe: Parsed, out: seq<Event>)
    requires IsOrbitStart(pe.event) && BodySpec(markdown, decode, ps) == Ok(out)
    ensures InOrbit(ps + [pe])
    ensures BlockHtml(markdown, pe.range, decode).Ok? ==>
      BodySpec(markdown, decode, ps + [pe]) == Ok(out + [Html(BlockHtml(markdown, pe.range, decode).value)])
    ensures BlockHtml(markdown, pe.range, decode).Err? ==>
      BodySpec(markdown, decode, ps + [pe]) == Err(BlockHtml(markdown, pe.range, decode).error)
  {
    assert (ps + [pe])[..|ps|] == ps;
  }

  /** An orbit block end emits nothing and closes the block. */
  lemma OrbitEndCloses(markdown: string, decode: string -> Option<Orbit.Deck>, ps: seq<Parsed>, pe: Parsed, out: seq<Event>)
    requires IsOrbitEnd(pe.event) && BodySpec(markdown, decode, ps) == Ok(out)
    ensures !InOrbit(ps + [pe])
    ensures BodySpec(markdown, decode, ps + [pe]) == Ok(out)
  {
    assert (ps + [pe])[..|ps|] == ps;
    assert out + [] == out;
  }

  /**
   * A footnote reference after any prefix, inside an orbit block or not, becomes one anchor
   * numbered one more than the references before it.
   */
  lemma RefStep(markdown: string, decode: string -> Option<Orbit.Deck>, ps: seq<Parsed>, pe: Parsed, out: seq<Event>)
    requires pe.event.FootnoteReference? && BodySpec(markdown, decode, ps) == Ok(out)
    ensures CountRefs(ps + [pe]) == CountRefs(ps) + 1
    ensures InOrbit(ps + [pe]) == InOrbit(ps)
    ensures BodySpec(markdown, decode, ps + [pe]) == Ok(out + [Html(FootnoteRefHtml(pe.event.name, CountRefs(ps) + 1))])
  {
    assert (ps + [pe])[..|ps|] == ps;
  }

  /**
   * A link start after any prefix, inside an orbit block or not, becomes the rewritten link start;
   * the orbit flag is unchanged.
   */
  lemma LinkStep(markdown: string, decode: string -> Option<Orbit.Deck>, ps: seq<Parsed>, pe: Parsed, out: seq<Event>)
    requires pe.event.Start? && pe.event.tag.Link? && BodySpec(markdown, decode, ps) == Ok(out)
    ensures InOrbit(ps + [pe]) == InOrbit(ps)
    ensures BodySpec(markdown, decode, ps + [pe])
         == Ok(out + [RewriteLink(pe.event.tag.linkType, pe.event.tag.dest, pe.event.tag.title)])
  {
    assert (ps + [pe])[..|ps|] == ps;
  }

  /** The anchors for a run of references, numbered from 1. */
  function RefAnchors(names: seq<string>): (hs: seq<string>)
    ensures |hs| == |names|
  {
    seq(|names|, i requires 0 <= i < |names| => FootnoteRefHtml(names[i], i + 1))
  }

  /** An event other than raw HTML, a footnote reference or an orbit start adds no raw HTML. */
  lemma EmitNoHtml(markdown: string, decode: string -> Option<Orbit.Deck>, prefix: seq<Parsed>, pe: Parsed)
    requires !pe.event.Html? && !pe.event.FootnoteReference? && !IsOrbitStart(pe.event)
    ensures Emit(markdown, decode, prefix, pe).Ok?
    ensures HtmlOf(Emit(markdown, decode, prefix, pe).value) == []
  {
    var more := Emit(markdown, decode, prefix, pe).value;
    if more != [] {
      assert |more| == 1 && !more[0].Html?;
      assert more[..0] == [];
    }
  }

  lemma RefAnchorsAppend(names: seq<string>, name: string)
    ensures RefAnchors(names + [name]) == RefAnchors(names) + [FootnoteRefHtml(name, |names| + 1)]
  {
  }

  /**
   * In a stream with no raw HTML and no orbit block, the raw-HTML events of the output are the
   * reference anchors numbered 1, 2, ... in stream order, one per reference even when a label repeats.
   */
  lemma {:induction false} RefNumbering(markdown: string, decode: string -> Option<Orbit.Deck>, ps: seq<Parsed>)
    requires forall i :: 0 <= i < |ps| ==> !ps[i].event.Html? && !IsOrbitStart(ps[i].event)
    ensures BodySpec(markdown, decode, ps).Ok?
    ensures HtmlOf(BodySpec(markdown, decode, ps).value) == RefAnchors(RefNames(ps))
  {
    if ps != [] {
      var prefix := ps[..|ps| - 1];
      var pe := ps[|ps| - 1];
      RefNumbering(markdown, decode, prefix);
      var out := BodySpec(markdown, decode, prefix).value;
      var names := RefNames(prefix);
      if pe.event.FootnoteReference? {
        var more := [Html(FootnoteRefHtml(pe.event.name, |names| + 1))];
        assert Emit(markdown, decode, prefix, pe) == Ok(more);
        HtmlOfAppend(out, more);
        assert HtmlOf(more) == [FootnoteRefHtml(pe.event.name, |names| + 1)] by {
          assert more[..0] == [];
        }
        assert RefNames(ps) == names + [pe.event.name];
        RefAnchorsAppend(names, pe.event.name);
      } else {
        EmitNoHtml(markdown, decode, prefix, pe);
        var more := Emit(markdown, decode, prefix, pe).value;
        HtmlOfAppend(out, more);
        assert RefNames(ps) == names + [];
      }
    }
  }

  lemma {:induction false} HtmlOfAppend(a: seq<Event>, b: seq<Event>)
    ensures HtmlOf(a + b) == HtmlOf(a) + HtmlOf(b)
    decreases |b|
  {
    if b == [] {
      assert a + b == a;
    } else {
      assert (a + b)[..|a + b| - 1] == a + b[..|b| - 1];
      HtmlOfAppend(a, b[..|b| - 1]);
    }
  }
}
