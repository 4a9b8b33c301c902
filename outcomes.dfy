/** Optional values, results and the fatal errors of the conversion pipeline. */
module Outcomes {

  datatype Option<+T> = None | Some(value: T)

  /** The ways a document conversion aborts; each is a panic or a propagated `?` in the source. */
  datatype Error =
    | FrontmatterTooShort       // indexing past the end while counting the six preamble newlines
    | OrbitRangeOutOfBounds     // the block's offsets do not slice the markdown text
    | OrbitBlockTooShort        // the block is shorter than the 9-byte fence prefix plus 4-byte suffix
    | DeckDecodeFailed          // the payload is not a deck
    | MalformedFootnote         // a definition line the footnote pattern does not match
    | FootnoteIndexOutOfBounds  // more list items than collected definitions

  datatype Result<+T> = Ok(value: T) | Err(error: Error)
}
