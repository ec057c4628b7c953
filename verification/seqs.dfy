/** Small facts about sequences that several modules lean on. */
module Seqs {
  /** Concatenation regroups freely; stated once so that proofs can name the step. */
  lemma AppendAssoc<T>(a: seq<T>, b: seq<T>, c: seq<T>)
    ensures (a + b) + c == a + (b + c)
  {
  }

  /** Two singletons followed by nothing form the pair. */
  lemma PairOfSingletons<T>(x: T, y: T)
    ensures [x] + ([y] + []) == [x, y]
  {
  }
}
