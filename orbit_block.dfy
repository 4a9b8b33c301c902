/**
 * From an orbit fenced block to its rendered deck (src/main.rs:108-112, 201-206): the block's
 * text is cut out of the markdown by the parser's offsets, a fixed fence prefix and suffix are
 * dropped, and the rest is decoded as a deck. JSON decoding is not modelled: it is the `decode`
 * parameter, which may fail.
 */
module OrbitBlock {
  import opened Outcomes
  import opened Events
  import Orbit

  /** Length of the opening fence line "```orbit\n". */
  const FencePrefix: nat := 9
  /** Length of the closing fence with its newline. */
  const FenceSuffix: nat := 4

  /** `codeblock[9..len - 4]`; Rust panics on the slice when the block is shorter than 13 bytes. */
  function Payload(codeblock: string): (r: Result<string>)
    ensures r.Ok? <==> |codeblock| >= FencePrefix + FenceSuffix
    ensures r.Err? ==> r.error == OrbitBlockTooShort
    ensures r.Ok? ==> |r.value| == |codeblock| - 13
    ensures r.Ok? ==> codeblock == codeblock[..FencePrefix] + r.value + codeblock[|codeblock| - FenceSuffix..]
  {
    if |codeblock| < FencePrefix + FenceSuffix then Err(OrbitBlockTooShort)
    else
      var r := codeblock[FencePrefix..|codeblock| - FenceSuffix];
      assert codeblock == codeblock[..FencePrefix] + r + codeblock[|codeblock| - FenceSuffix..];
      Ok(r)
  }

  /** A block written as an opening "```orbit" line, the payload and a closing fence line gives back the payload. */
  lemma PayloadOfFence(payload: string)
    ensures Payload("```orbit\n" + payload + "```\n") == Ok(payload)
  {
    var block := "```orbit\n" + payload + "```\n";
    assert |"```orbit\n"| == 9 && |"```\n"| == 4;
    assert block[9..|block| - 4] == payload;
  }

  /** `deserialize_orbit_codeblock`: slice, then decode; either step can fail. */
  function DeserializeCodeblock(codeblock: string, decode: string -> Option<Orbit.Deck>): (r: Result<Orbit.Deck>)
    ensures r.Ok? ==> |codeblock| >= 13 && decode(codeblock[9..|codeblock| - 4]) == Some(r.value)
    ensures r.Err? && |codeblock| < 13 ==> r.error == OrbitBlockTooShort
    ensures r.Err? && |codeblock| >= 13 ==> r.error == DeckDecodeFailed && decode(codeblock[9..|codeblock| - 4]).None?
  {
    match Payload(codeblock)
    case Err(e) => Err(e)
    case Ok(json) =>
      match decode(json)
      case None => Err(DeckDecodeFailed)
      case Some(deck) => Ok(deck)
  }

  /**
   * The replacement HTML for an orbit block whose parsed offsets are `range`. The offsets are
   * applied to `markdown`, the text before footnote lines were taken out, although they were
   * computed on the text after.
   */
  function BlockHtml(markdown: string, range: Range, decode: string -> Option<Orbit.Deck>): (r: Result<string>)
    ensures r.Ok? ==> range.start <= range.end <= |markdown|
    ensures !(range.start <= range.end <= |markdown|) ==> r == Err(OrbitRangeOutOfBounds)
    ensures range.start <= range.end <= |markdown| ==>
      var block := DeserializeCodeblock(markdown[range.start..range.end], decode);
      && (r.Ok? <==> block.Ok?)
      && (r.Ok? ==> r.value == Orbit.DeckHtml(block.value))
      && (r.Err? ==> r.error == block.error)
  {
    if !(range.start <= range.end <= |markdown|) then Err(OrbitRangeOutOfBounds)
    else
      match DeserializeCodeblock(markdown[range.start..range.end], decode)
      case Err(e) => Err(e)
      case Ok(deck) => Ok(Orbit.DeckHtml(deck))
  }
}
