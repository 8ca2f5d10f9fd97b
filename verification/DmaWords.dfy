/** Addresses and lengths that are whole words of a DMA channel. */
module DmaWords {
  const WORD := 4

  predicate Whole(n: int) {
    n % WORD == 0
  }

  lemma WholeSum(a: int, b: int)
    requires Whole(a) && Whole(b)
    ensures Whole(a + b) && Whole(a - b) && (a < b ==> a + WORD <= b)
  {
  }

  lemma WholeWords()
    ensures Whole(0) && Whole(WORD)
  {
  }
}
