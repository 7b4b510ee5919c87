/**
 The Merlin transcript: the sequence of everything appended to it and extracted from it.
 Challenges come from an arbitrary function of that sequence, so what is proved holds for
 every hash. Points and scalars enter in their canonical encoding.
 */
module Transcripts {

  datatype Entry =
    | Domain(tag: string)
    | Message(tag: string, words: seq<int>)
    | Extracted(tag: string)

  type Transcript = seq<Entry>

  type Oracle = (Transcript, string) -> int

  function Append(t: Transcript, tag: string, word: int): (r: Transcript) {
    t + [Message(tag, [word])]
  }
}
