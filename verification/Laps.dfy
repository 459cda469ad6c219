/** The cycle bit of a ring, which alternates from one lap to the next and starts as 1. */
module Laps {
  predicate Bit(lap: int) { lap % 2 == 0 }

  lemma BitAlternates(lap: int)
    ensures Bit(lap + 1) == !Bit(lap)
  {
  }
}
