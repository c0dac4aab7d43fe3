/** The machine's units, shared by the models. */
module Machine {
  /** One more than the largest 64-bit word. */
  const WORD_LIMIT: nat := 0x1_0000_0000_0000_0000
  const PAGE_SIZE: nat := 4096

  /** A word, or part of one, as the set of the positions of its one bits. */
  type Bits = set<nat>
}
