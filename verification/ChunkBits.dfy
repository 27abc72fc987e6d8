/** The bitset of received chunks: 64-bit words, each modelled by its bits with the lowest first, so
    that `word |= 1 << k` is the update of bit `k` and `(word & (1 << k)) != 0` reads it.

    Models src/packetization/src/packetization.cpp. */
module ChunkBits {

  const WORD_BITS: nat := 64

  type Word = w: seq<bool> | |w| == WORD_BITS witness seq(WORD_BITS, i => false)

  function ClearWord(): Word {
    seq(WORD_BITS, i => false)
  }

  predicate Marked(words: seq<Word>, index: nat)
    requires index < WORD_BITS * |words|
  {
    words[index / WORD_BITS][index % WORD_BITS]
  }

  function Mark(words: seq<Word>, index: nat): (marked: seq<Word>)
    requires index < WORD_BITS * |words|
    ensures |marked| == |words|
  {
    words[index / WORD_BITS := words[index / WORD_BITS][index % WORD_BITS := true]]
  }

  /** Marking sets one bit of the whole bit string and leaves every other alone. */
  lemma MarkSetsOne(words: seq<Word>, index: nat, other: nat)
    requires index < WORD_BITS * |words| && other < WORD_BITS * |words|
    ensures Marked(Mark(words, index), other) <==> (other == index || Marked(words, other))
  {
    assert index == WORD_BITS * (index / WORD_BITS) + index % WORD_BITS;
    assert other == WORD_BITS * (other / WORD_BITS) + other % WORD_BITS;
  }
}
