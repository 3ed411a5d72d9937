// Types shared by the models of the RTU firmware components.
module Common {
  datatype Option<+T> = None | Some(value: T)

  /** An unsigned 8-bit byte, kept as a mathematical integer. */
  type byte = x: int | 0 <= x < 256

  /** An unsigned 32-bit word, kept as a mathematical integer. */
  type word = x: int | 0 <= x < WORD

  const WORD: int := 0x1_0000_0000

  /** The parts of a message, one after the other. */
  function Concat<T>(chunks: seq<seq<T>>): seq<T> {
    if chunks == [] then [] else Concat(chunks[..|chunks| - 1]) + chunks[|chunks| - 1]
  }

  lemma ConcatNext<T>(chunks: seq<seq<T>>, i: nat)
    requires i < |chunks|
    ensures Concat(chunks[..i + 1]) == Concat(chunks[..i]) + chunks[i]
  {
    assert chunks[..i + 1][..i] == chunks[..i];
  }

  lemma NoChunks<T>()
    ensures Concat<T>([]) == []
  {
  }
}
