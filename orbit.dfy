/**
 * The review deck of an embedded orbit block and its rendering (src/orbit.rs). The card template
 * is filled without HTML escaping, so each field appears verbatim between its attribute quotes.
 */
module Orbit {
  import opened Outcomes
  import opened Text

  datatype Card = Card(question: string, questionAttachments: string, answer: string)

  /** The decoded payload: an object whose `deck` field lists the cards. */
  datatype Deck = Deck(deck: seq<Card>)

  const ReviewStart: string := "<orbit-reviewarea>"
  const ReviewEnd: string := "</orbit-reviewarea>"

  /**
   * A card template cut at its three placeholders: the fixed text before the question, before
   * the attachments, before the answer, and after the answer.
   */
  datatype Template = Template(beforeQuestion: string, beforeAttachments: string, beforeAnswer: string, after: string)

  /** The card template: each placeholder is an attribute value between double quotes. */
  const PromptTemplate: Template :=
    Template("<orbit-prompt question=\"", "\" question-attachments=\"", "\" answer=\"", "\"></orbit-prompt>")

  /** Characters of the card template outside its placeholders. */
  const PromptOverhead: nat := 75

  /** A template with the three fields put in verbatim, without escaping. */
  function Fill(t: Template, c: Card): string {
    t.beforeQuestion + c.question + t.beforeAttachments + c.questionAttachments + t.beforeAnswer + c.answer + t.after
  }

  /** `OrbitCard::to_html`: the three fields substituted into the card template. */
  function CardHtml(c: Card): (h: string)
    ensures |h| == PromptOverhead + |c.question| + |c.questionAttachments| + |c.answer|
  {
    Fill(PromptTemplate, c)
  }

  /** The card elements of a deck, concatenated in deck order. */
  function CardsHtml(cs: seq<Card>): string
  {
    if cs == [] then [] else CardHtml(cs[0]) + CardsHtml(cs[1..])
  }

  /** What `Orbit::to_html` produces. */
  function DeckHtml(d: Deck): string {
    ReviewStart + CardsHtml(d.deck) + ReviewEnd
  }

  /** `Orbit::to_html`: the opening tag, one element per card pushed in order, the closing tag. */
  method ToHtml(d: Deck) returns (review: string)
    ensures review == DeckHtml(d)
    ensures d.deck == [] ==> review == "<orbit-reviewarea></orbit-reviewarea>"
    ensures |review| == |ReviewStart| + |ReviewEnd| + DeckTextLength(d.deck)
  {
    review := ReviewStart;
    for i := 0 to |d.deck|
      invariant review == ReviewStart + CardsHtml(d.deck[..i])
    {
      CardsHtmlStep(d.deck, i);
      review := review + CardHtml(d.deck[i]);
    }
    assert d.deck[..|d.deck|] == d.deck;
    review := review + ReviewEnd;
    DeckHtmlLength(d);
    EmptyDeckHtml(d);
  }

  /** One more card: its element is appended. */
  lemma CardsHtmlStep(cs: seq<Card>, i: nat)
    requires i < |cs|
    ensures CardsHtml(cs[..i + 1]) == CardsHtml(cs[..i]) + CardHtml(cs[i])
  {
    CardsHtmlAppend(cs[..i], cs[i]);
    assert cs[..i + 1] == cs[..i] + [cs[i]];
  }

  /** An empty deck renders as the bare review area. */
  lemma EmptyDeckHtml(d: Deck)
    ensures d.deck == [] ==> DeckHtml(d) == "<orbit-reviewarea></orbit-reviewarea>"
  {
  }

  lemma {:induction false} CardsHtmlAppend(cs: seq<Card>, c: Card)
    ensures CardsHtml(cs + [c]) == CardsHtml(cs) + CardHtml(c)
  {
    if cs == [] {
      assert [] + [c] == [c];
    } else {
      assert (cs + [c])[1..] == cs[1..] + [c];
      CardsHtmlAppend(cs[1..], c);
    }
  }

  /** Template overhead plus field lengths, summed over the cards. */
  function DeckTextLength(cs: seq<Card>): nat {
    if cs == [] then 0
    else PromptOverhead + |cs[0].question| + |cs[0].questionAttachments| + |cs[0].answer| + DeckTextLength(cs[1..])
  }

  lemma {:induction false} CardsHtmlLength(cs: seq<Card>)
    ensures |CardsHtml(cs)| == DeckTextLength(cs)
  {
    if cs != [] {
      CardsHtmlLength(cs[1..]);
    }
  }

  /** The output is 37 characters of wrapper plus the length of every card element. */
  lemma DeckHtmlLength(d: Deck)
    ensures |DeckHtml(d)| == 37 + DeckTextLength(d.deck)
  {
    CardsHtmlLength(d.deck);
  }

  // Reading the markup back shows that nothing is swapped, dropped or reordered. The reader is
  // written for any template whose placeholders are each followed by a double quote.

  predicate QuoteFree(s: string) { '"' !in s }

  predicate CardQuoteFree(c: Card) {
    QuoteFree(c.question) && QuoteFree(c.questionAttachments) && QuoteFree(c.answer)
  }

  /** Each placeholder of `t` is followed by a double quote. */
  predicate QuoteClosed(t: Template) {
    && |t.beforeAttachments| > 0 && t.beforeAttachments[0] == '"'
    && |t.beforeAnswer| > 0 && t.beforeAnswer[0] == '"'
    && |t.after| > 0 && t.after[0] == '"'
  }

  lemma PromptTemplateQuoteClosed()
    ensures QuoteClosed(PromptTemplate)
  {
  }

  /** Splits `s` at its first double quote. */
  function TakeField(s: string): (r: Option<(string, string)>)
    ensures r.Some? ==> QuoteFree(r.value.0) && |r.value.1| > 0 && r.value.1[0] == '"'
    ensures r.Some? ==> s == r.value.0 + r.value.1
  {
    var i := IndexOfChar(s, '"');
    if i == |s| then None else Some((s[..i], s[i..]))
  }

  lemma TakeFieldOf(f: string, rest: string)
    requires QuoteFree(f) && |rest| > 0 && rest[0] == '"'
    ensures TakeField(f + rest) == Some((f, rest))
  {
    var s := f + rest;
    var i := IndexOfChar(s, '"');
    assert s[|f|] == '"';
    assert i == |f| by {
      assert forall k :: 0 <= k < |f| ==> s[k] == f[k];
    }
    assert s[..i] == f && s[i..] == rest;
  }

  /** Reads the fixed text `open` and then a field up to the next double quote. */
  function Expect(open: string, s: string): Option<(string, string)> {
    if StartsWith(s, open) then TakeField(s[|open|..]) else None
  }

  lemma PrefixOf(p: string, t: string)
    ensures StartsWith(p + t, p) && (p + t)[|p|..] == t
  {
    assert (p + t)[..|p|] == p;
  }

  lemma ExpectOf(open: string, f: string, rest: string)
    requires QuoteFree(f) && |rest| > 0 && rest[0] == '"'
    ensures Expect(open, open + (f + rest)) == Some((f, rest))
  {
    PrefixOf(open, f + rest);
    TakeFieldOf(f, rest);
  }

  /** Reads one card element of template `t` off the front of `s`, returning the card and what follows it. */
  function ParsePrompt(t: Template, s: string): (r: Option<(Card, string)>)
    ensures r.Some? ==> |r.value.1| + |t.after| <= |s|
  {
    match Expect(t.beforeQuestion, s)
    case None => None
    case Some((q, s1)) =>
      match Expect(t.beforeAttachments, s1)
      case None => None
      case Some((qa, s2)) =>
        match Expect(t.beforeAnswer, s2)
        case None => None
        case Some((a, s3)) =>
          if !StartsWith(s3, t.after) then None else
          Some((Card(q, qa, a), s3[|t.after|..]))
  }

  /** A filled-in card element followed by more text, grouped from the right. */
  lemma FillAssoc(t: Template, c: Card, rest: string)
    ensures Fill(t, c) + rest
         == t.beforeQuestion + (c.question + (t.beforeAttachments + (c.questionAttachments + (t.beforeAnswer + (c.answer + (t.after + rest))))))
  {
  }

  lemma ParsePromptOf(t: Template, c: Card, rest: string)
    requires QuoteClosed(t) && CardQuoteFree(c)
    ensures ParsePrompt(t, Fill(t, c) + rest) == Some((c, rest))
  {
    var s3 := t.after + rest;
    var s2 := t.beforeAnswer + (c.answer + s3);
    var s1 := t.beforeAttachments + (c.questionAttachments + s2);
    FillAssoc(t, c, rest);
    ExpectOf(t.beforeQuestion, c.question, s1);
    ExpectOf(t.beforeAttachments, c.questionAttachments, s2);
    ExpectOf(t.beforeAnswer, c.answer, s3);
    PrefixOf(t.after, rest);
  }

  /** Reads a run of card elements of template `t` that covers all of `s`. */
  function ParseCards(t: Template, s: string): Option<seq<Card>>
    requires QuoteClosed(t)
    decreases |s|
  {
    if s == [] then Some([])
    else match ParsePrompt(t, s)
      case None => None
      case Some((c, rest)) =>
        match ParseCards(t, rest)
        case None => None
        case Some(cs) => Some([c] + cs)
  }

  /** The elements of template `t` for a run of cards. */
  function FillAll(t: Template, cs: seq<Card>): string {
    if cs == [] then [] else Fill(t, cs[0]) + FillAll(t, cs[1..])
  }

  lemma ParseCardsCons(t: Template, s: string, c: Card, rest: string, cs: seq<Card>)
    requires QuoteClosed(t) && s != []
    requires ParsePrompt(t, s) == Some((c, rest)) && ParseCards(t, rest) == Some(cs)
    ensures ParseCards(t, s) == Some([c] + cs)
  {
  }

  lemma {:induction false} ParseCardsOf(t: Template, cs: seq<Card>)
    requires QuoteClosed(t)
    requires forall i :: 0 <= i < |cs| ==> CardQuoteFree(cs[i])
    ensures ParseCards(t, FillAll(t, cs)) == Some(cs)
  {
    if cs != [] {
      var rest := FillAll(t, cs[1..]);
      var s := Fill(t, cs[0]) + rest;
      assert FillAll(t, cs) == s;
      assert |s| > 0 by { assert |Fill(t, cs[0])| >= |t.after|; }
      ParsePromptOf(t, cs[0], rest);
      ParseCardsOf(t, cs[1..]);
      ParseCardsCons(t, s, cs[0], rest, cs[1..]);
      assert [cs[0]] + cs[1..] == cs;
    }
  }

  lemma {:induction false} CardsHtmlIsFillAll(cs: seq<Card>)
    ensures CardsHtml(cs) == FillAll(PromptTemplate, cs)
  {
    if cs != [] {
      CardsHtmlIsFillAll(cs[1..]);
    }
  }

  /** Reads back a whole review area. */
  function ParseDeckHtml(s: string): Option<Deck> {
    PromptTemplateQuoteClosed();
    if |s| < |ReviewStart| + |ReviewEnd| || !StartsWith(s, ReviewStart) || !EndsWith(s, ReviewEnd) then None
    else match ParseCards(PromptTemplate, s[|ReviewStart|..|s| - |ReviewEnd|])
      case None => None
      case Some(cs) => Some(Deck(cs))
  }

  /** Text wrapped between `a` and `b` is recognised and cut out again. */
  lemma Unwrap(a: string, m: string, b: string)
    ensures var s := a + m + b;
      |s| >= |a| + |b| && StartsWith(s, a) && EndsWith(s, b) && s[|a|..|s| - |b|] == m
  {
    var s := a + m + b;
    assert s[..|a|] == a;
    assert s[|s| - |b|..] == b;
    assert s[|a|..|s| - |b|] == m;
  }

  /**
   * When no field holds a double quote, the rendered review area reads back as the same deck:
   * one element per card, in deck order, each field in its own attribute and unmodified.
   */
  lemma DeckHtmlRoundTrip(d: Deck)
    requires forall i :: 0 <= i < |d.deck| ==> CardQuoteFree(d.deck[i])
    ensures ParseDeckHtml(DeckHtml(d)) == Some(d)
  {
    Unwrap(ReviewStart, CardsHtml(d.deck), ReviewEnd);
    CardsHtmlIsFillAll(d.deck);
    PromptTemplateQuoteClosed();
    ParseCardsOf(PromptTemplate, d.deck);
  }
}
